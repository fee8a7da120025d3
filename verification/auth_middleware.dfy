/** `AuthMiddleware` (backend/internal/middleware/auth.go): whether a request
    reaches the next handler, and with which user attached. */
module AuthMiddleware {
  import opened Wrappers
  import opened Strings
  import opened Responses
  import UserStore
  import AuthService
  import AuthHandlers

  /** What the middleware does with a request: answer it itself, or call the
      next handler once, with the user put into the request context. */
  datatype Outcome = Stop(response: Response<()>) | Next(user: Option<UserStore.User>)

  const InvalidTokenMessage := "Invalid or expired token"
  const DeactivatedMessage := "Account is deactivated"

  /** `extractBearerToken`.  The source splits once, at the first space,
      as the handlers do; this is an equivalent formulation through a full
      split at spaces (the first piece must read "bearer" and the remaining
      pieces, joined back, are the token), proved equal to the handlers'
      reading by `ExtractorsAgree`. */
  function ExtractBearerToken(header: string): (t: string)
    ensures header == "" ==> t == ""
  {
    if header == "" then ""
    else
      var parts := SplitOn(header, " ");
      if |parts| < 2 || ToLower(parts[0]) != "bearer" then "" else Join(parts[1..], " ")
  }

  /** The middleware and the handlers read the Authorization header the
      same way. */
  lemma ExtractorsAgree(header: string)
    ensures ExtractBearerToken(header) == AuthHandlers.ExtractTokenFromHeader(header)
  {
    if header != "" {
      var parts := SplitOn(header, " ");
      SplitOnFirst(header, ' ');
      if |parts| >= 2 {
        SplitFirstOf(parts[0], ' ', Join(parts[1..], " "));
      }
    }
  }

  /** `writeUnauthorizedResponse`. */
  function Unauthorized(message: string): (o: Outcome)
    ensures o.Stop? && WellFormed(o.response) && o.response.status == 401
    ensures o.response.ErrorResponse? && o.response.body.message == message
  {
    Stop(WriteErrorResponse(401, message))
  }

  /** `RequireAuth`: 401 unless the bearer token names an active user; then
      the next handler runs with that user. */
  function RequireAuth(a: AuthService.Auth, authorization: string): (o: Outcome)
    ensures ExtractBearerToken(authorization) == "" ==> o == Unauthorized(AuthHandlers.TokenRequiredMessage)
    ensures var t := ExtractBearerToken(authorization);
      t != "" && AuthService.GetUserFromToken(a, t).Failure? ==> o == Unauthorized(InvalidTokenMessage)
    ensures o.Next? <==>
      var t := ExtractBearerToken(authorization);
      t != "" && AuthService.GetUserFromToken(a, t).Success?
    ensures o.Next? ==>
      o.user == Some(AuthService.GetUserFromToken(a, ExtractBearerToken(authorization)).value)
      && o.user.value.isActive
  {
    var token := ExtractBearerToken(authorization);
    if token == "" then Unauthorized(AuthHandlers.TokenRequiredMessage)
    else match AuthService.GetUserFromToken(a, token)
      case Failure(_) => Unauthorized(InvalidTokenMessage)
      case Success(u) => if !u.isActive then Unauthorized(DeactivatedMessage) else Next(Some(u))
  }

  /** The "Account is deactivated" answer is never given: the service only
      returns active users, so an inactive one is already a token failure. */
  lemma DeactivatedNeverAnswered(a: AuthService.Auth, authorization: string)
    ensures RequireAuth(a, authorization) != Unauthorized(DeactivatedMessage)
  {}

  /** `OptionalAuth`: always calls the next handler, with a user only when
      the token names an active one. */
  function OptionalAuth(a: AuthService.Auth, authorization: string): (o: Outcome)
    ensures o.Next?
    ensures o.user.Some? <==>
      var t := ExtractBearerToken(authorization);
      t != "" && AuthService.GetUserFromToken(a, t).Success?
  {
    var token := ExtractBearerToken(authorization);
    if token == "" then Next(None)
    else match AuthService.GetUserFromToken(a, token)
      case Success(u) => if u.isActive then Next(Some(u)) else Next(None)
      case Failure(_) => Next(None)
  }

  /** Both middlewares accept the same requests with the same user: where
      `RequireAuth` lets a request through, `OptionalAuth` attaches that
      user, and where it refuses, `OptionalAuth` attaches none. */
  lemma OptionalMatchesRequired(a: AuthService.Auth, authorization: string)
    ensures RequireAuth(a, authorization).Next? ==> OptionalAuth(a, authorization) == RequireAuth(a, authorization)
    ensures RequireAuth(a, authorization).Stop? ==> OptionalAuth(a, authorization) == Next(None)
  {}
}
