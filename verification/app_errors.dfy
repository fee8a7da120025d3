/** The application's typed errors: an HTTP status code, a message for the
    client and an error category, plus the fixed errors the services
    return. */
module AppErrors {
  import opened Wrappers
  import Strings

  datatype AppError = AppError(code: int, message: string, errorType: string)

  /** What a service call can fail with: one of the typed errors, or any
      other Go `error`, of which only its text is kept. */
  datatype Err = App(app: AppError) | Plain(text: string)

  const StatusBadRequest: int := 400
  const StatusUnauthorized: int := 401
  const StatusForbidden: int := 403
  const StatusNotFound: int := 404
  const StatusMethodNotAllowed: int := 405
  const StatusConflict: int := 409
  const StatusRequestEntityTooLarge: int := 413
  const StatusInternalServerError: int := 500
  const StatusServiceUnavailable: int := 503

  const InvalidCredentials := AppError(StatusUnauthorized, "Invalid email or password", "AUTH_ERROR")
  const UserNotFound := AppError(StatusNotFound, "User not found", "AUTH_ERROR")
  const UserAlreadyExists := AppError(StatusConflict, "User with this email already exists", "AUTH_ERROR")
  const InvalidToken := AppError(StatusUnauthorized, "Invalid or expired token", "AUTH_ERROR")
  const TokenMissing := AppError(StatusUnauthorized, "Authorization token missing", "AUTH_ERROR")
  const FileTooBig := AppError(StatusRequestEntityTooLarge, "File size exceeds maximum limit", "UPLOAD_ERROR")
  const InvalidFileType := AppError(StatusBadRequest, "Invalid file type", "UPLOAD_ERROR")
  const FileUploadFailed := AppError(StatusInternalServerError, "Failed to upload file", "UPLOAD_ERROR")
  const DatabaseConnection := AppError(StatusInternalServerError, "Database connection error", "DATABASE_ERROR")
  const RecordNotFound := AppError(StatusNotFound, "Record not found", "DATABASE_ERROR")
  const InvalidInput := AppError(StatusBadRequest, "Invalid input data", "VALIDATION_ERROR")
  const MissingRequiredField := AppError(StatusBadRequest, "Missing required field", "VALIDATION_ERROR")
  const AIProcessingFailed := AppError(StatusInternalServerError, "AI processing failed", "AI_ERROR")
  const ReportNotProcessed := AppError(StatusBadRequest, "Report has not been processed yet", "AI_ERROR")

  /** Every predefined error, in declaration order, grouped by category. */
  const AuthErrors: seq<AppError> := [InvalidCredentials, UserNotFound, UserAlreadyExists, InvalidToken, TokenMissing]
  const UploadErrors: seq<AppError> := [FileTooBig, InvalidFileType, FileUploadFailed]
  const DatabaseErrors: seq<AppError> := [DatabaseConnection, RecordNotFound]
  const ValidationErrors: seq<AppError> := [InvalidInput, MissingRequiredField]
  const AiErrors: seq<AppError> := [AIProcessingFailed, ReportNotProcessed]
  const Predefined: seq<AppError> := AuthErrors + UploadErrors + DatabaseErrors + ValidationErrors + AiErrors

  /** `Error()`: the category in square brackets, a space, then the message. */
  function ErrorString(e: AppError): (r: string)
    ensures |r| == |e.errorType| + |e.message| + 3
    ensures Strings.HasPrefix(r, "[" + e.errorType + "]")
    ensures Strings.HasSuffix(r, " " + e.message)
  {
    "[" + e.errorType + "] " + e.message
  }

  /** Reads a category and a message back out of an error string: the text
      between the leading `[` and the first `]`, and everything after the
      space that follows it. */
  function ParseErrorString(s: string): (r: Option<(string, string)>)
    ensures r.Some? ==> ']' !in r.value.0
  {
    if |s| < 1 || s[0] != '[' then None
    else
      var k := Strings.IndexByte(s[1..], ']');
      if k < 0 || k + 2 >= |s| || s[k + 2] != ' ' then None
      else Some((s[1..][..k], s[k + 3..]))
  }

  /** The category and message survive `Error()` whenever the category has
      no closing bracket, which holds of every predefined error. */
  lemma ErrorStringParses(e: AppError)
    requires ']' !in e.errorType
    ensures ParseErrorString(ErrorString(e)) == Some((e.errorType, e.message))
  {
    var s := ErrorString(e);
    var t := e.errorType;
    assert s[1..] == t + "] " + e.message;
    assert (t + "] " + e.message)[..|t|] == t;
    assert (t + "] " + e.message)[|t|] == ']';
    assert Strings.IndexByte(s[1..], ']') == |t|;
    assert s[|t| + 3..] == e.message;
  }

  /** Two errors with bracket-free categories have the same text only when
      they agree on category and message. */
  lemma ErrorStringInjective(a: AppError, b: AppError)
    requires ']' !in a.errorType && ']' !in b.errorType
    requires ErrorString(a) == ErrorString(b)
    ensures a.errorType == b.errorType && a.message == b.message
  {
    ErrorStringParses(a);
    ErrorStringParses(b);
  }

  /** `NewValidationError`: `InvalidInput` with the caller's message. */
  function NewValidationError(message: string): (r: AppError)
    ensures r.code == InvalidInput.code && r.errorType == InvalidInput.errorType
    ensures r.message == message
    ensures message == InvalidInput.message ==> r == InvalidInput
  {
    AppError(StatusBadRequest, message, "VALIDATION_ERROR")
  }

  /** The status codes of the predefined errors, and the fact that their
      texts all read back to their category and message. */
  lemma PredefinedErrors()
    ensures InvalidCredentials.code == 401 && InvalidToken.code == 401 && TokenMissing.code == 401
    ensures UserNotFound.code == 404 && RecordNotFound.code == 404
    ensures UserAlreadyExists.code == 409
    ensures InvalidInput.code == 400 && MissingRequiredField.code == 400
    ensures DatabaseConnection.code == 500 && AIProcessingFailed.code == 500
    ensures forall e :: e in Predefined ==> ParseErrorString(ErrorString(e)) == Some((e.errorType, e.message))
  {
    CategoriesBracketFree();
    forall e | e in Predefined
      ensures ParseErrorString(ErrorString(e)) == Some((e.errorType, e.message))
    {
      ErrorStringParses(e);
    }
  }

  lemma CategoriesBracketFree()
    ensures forall e :: e in Predefined ==> ']' !in e.errorType
  {
    AuthCategory();
    UploadCategory();
    DatabaseCategory();
    ValidationCategory();
    AiCategory();
  }

  lemma AuthCategory()
    ensures forall e :: e in AuthErrors ==> ']' !in e.errorType
  {
    InCategory(AuthErrors, "AUTH_ERROR");
  }

  lemma UploadCategory()
    ensures forall e :: e in UploadErrors ==> ']' !in e.errorType
  {
    InCategory(UploadErrors, "UPLOAD_ERROR");
  }

  lemma DatabaseCategory()
    ensures forall e :: e in DatabaseErrors ==> ']' !in e.errorType
  {
    InCategory(DatabaseErrors, "DATABASE_ERROR");
  }

  lemma ValidationCategory()
    ensures forall e :: e in ValidationErrors ==> ']' !in e.errorType
  {
    InCategory(ValidationErrors, "VALIDATION_ERROR");
  }

  lemma AiCategory()
    ensures forall e :: e in AiErrors ==> ']' !in e.errorType
  {
    InCategory(AiErrors, "AI_ERROR");
  }

  /** A group whose errors share a category without a closing bracket. */
  lemma InCategory(group: seq<AppError>, category: string)
    requires forall i :: 0 <= i < |group| ==> group[i].errorType == category
    requires forall i :: 0 <= i < |category| ==> 'A' <= category[i] <= 'Z' || category[i] == '_'
    ensures forall e :: e in group ==> ']' !in e.errorType
  {}
}
