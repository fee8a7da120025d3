/** How the HTTP handlers answer (backend/internal/handlers/auth.go): a
    status code with either the uniform error body or a JSON payload.
    Header writes and the encoding itself are not modelled. */
module Responses {
  import opened AppErrors

  /** The error body: `error` is always true and `status` repeats the code. */
  datatype ErrorBody = ErrorBody(error: bool, message: string, status: int)

  datatype Response<B> = ErrorResponse(status: int, body: ErrorBody) | JsonResponse(status: int, data: B)

  /** An error response's body agrees with its status line. */
  predicate WellFormed<B>(r: Response<B>) {
    r.ErrorResponse? ==> r.body.error && r.body.status == r.status
  }

  const MethodNotAllowedMessage := "Method not allowed"
  const InternalServerErrorMessage := "Internal server error"

  /** `writeErrorResponse`. */
  function WriteErrorResponse<B>(code: int, message: string): (r: Response<B>)
    ensures WellFormed(r) && r.ErrorResponse?
    ensures r.status == code && r.body.message == message
  {
    ErrorResponse(code, ErrorBody(true, message, code))
  }

  /** `handleServiceError`: a typed error answers with its own code and
      message, anything else with 500 and a fixed message that reveals
      nothing of the cause. */
  function HandleServiceError<B>(e: Err): (r: Response<B>)
    ensures WellFormed(r) && r.ErrorResponse?
    ensures e.App? ==> r.status == e.app.code && r.body.message == e.app.message
    ensures e.Plain? ==> r.status == StatusInternalServerError && r.body.message == InternalServerErrorMessage
  {
    match e
    case App(a) => WriteErrorResponse(a.code, a.message)
    case Plain(_) => WriteErrorResponse(StatusInternalServerError, InternalServerErrorMessage)
  }

  /** Two untyped errors are answered identically, whatever their text. */
  lemma PlainErrorsIndistinguishable<B>(t1: string, t2: string)
    ensures HandleServiceError<B>(Plain(t1)) == HandleServiceError<B>(Plain(t2))
  {}

  /** `NotAllowed`: the answer to a request with the wrong method. */
  function NotAllowed<B>(): (r: Response<B>)
    ensures WellFormed(r) && r.status == StatusMethodNotAllowed
  {
    WriteErrorResponse(StatusMethodNotAllowed, MethodNotAllowedMessage)
  }
}
