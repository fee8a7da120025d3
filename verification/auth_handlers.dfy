/** `AuthHandler` (backend/internal/handlers/auth.go): method checks, the
    bearer-token header, and the mapping of `AuthService` results to HTTP
    answers.  A request body is given already decoded, `None` standing for
    a body that is not valid JSON. */
module AuthHandlers {
  import opened Wrappers
  import opened Strings
  import opened AppErrors
  import opened Responses
  import UserStore
  import AuthService

  /** The JSON payloads of the successful answers. */
  datatype AuthBody =
    | Session(login: AuthService.LoginResponse)
    | Profile(user: UserStore.User)
    | LoggedOut(message: string, success: bool)
    | Refreshed(token: string, message: string)

  const InvalidJsonMessage := "Invalid JSON payload"
  const TokenRequiredMessage := "Authorization token required"

  /** `extractTokenFromHeader`: what follows the first space, when the word
      before it is "bearer" in any letter case; "" otherwise. */
  function ExtractTokenFromHeader(header: string): (t: string)
    ensures header == "" ==> t == ""
    ensures t != "" ==> exists scheme :: ToLower(scheme) == "bearer" && header == scheme + " " + t
  {
    if header == "" then ""
    else
      var parts := SplitFirst(header, ' ');
      if |parts| != 2 || ToLower(parts[0]) != "bearer" then ""
      else
        assert header == parts[0] + " " + parts[1];
        parts[1]
  }

  /** A scheme that lower-cases to "bearer" has no space in it. */
  lemma BearerHasNoSpace(scheme: string)
    requires ToLower(scheme) == "bearer"
    ensures ' ' !in scheme
  {
    forall i | 0 <= i < |scheme| ensures scheme[i] != ' ' {
      assert LowerChar(scheme[i]) == "bearer"[i];
    }
  }

  /** The converse: any spelling of "Bearer", a space, and the token gives
      the token back verbatim, spaces in it included. */
  lemma ExtractTokenOfBearer(scheme: string, token: string)
    requires ToLower(scheme) == "bearer"
    ensures ExtractTokenFromHeader(scheme + " " + token) == token
  {
    BearerHasNoSpace(scheme);
    SplitFirstOf(scheme, ' ', token);
  }

  /** Answers shared by the handlers. */
  function TokenRequired<B>(): (r: Response<B>)
    ensures WellFormed(r) && r.status == StatusUnauthorized
  {
    WriteErrorResponse(StatusUnauthorized, TokenRequiredMessage)
  }

  /** `SignupHandler`: POST only, then the decoded body goes to `SignUp`;
      201 with the session on success.  The store changes only then. */
  function Signup(a: AuthService.Auth, verb: string, payload: Option<AuthService.SignupRequest>, now: nat)
    : (res: (Response<AuthBody>, UserStore.Store))
    requires UserStore.Valid(a.users)
    ensures WellFormed(res.0)
    ensures verb != "POST" ==> res == (NotAllowed(), a.users)
    ensures verb == "POST" && payload.None? ==>
      res == (WriteErrorResponse(StatusBadRequest, InvalidJsonMessage), a.users)
    ensures res.0.status != 201 ==> res.1 == a.users
    ensures res.0.status == 201 ==>
      (verb == "POST" && payload.Some?
       && var out := AuthService.SignUp(a, payload.value, now);
          out.Success? && res == (JsonResponse(201, Session(out.value.1)), out.value.0))
    ensures verb == "POST" && payload.Some? ==>
      var out := AuthService.SignUp(a, payload.value, now);
      (out.Success? ==> res.0.status == 201)
      && (out.Failure? ==> res == (HandleServiceError(App(out.error)), a.users))
    ensures res.0.status in {201, 400, 405, 409, 500}
  {
    if verb != "POST" then (NotAllowed(), a.users)
    else match payload
      case None => (WriteErrorResponse(StatusBadRequest, InvalidJsonMessage), a.users)
      case Some(req) =>
        match AuthService.SignUp(a, req, now)
        case Failure(e) => (HandleServiceError(App(e)), a.users)
        case Success((s', resp)) => (JsonResponse(201, Session(resp)), s')
  }

  /** `LoginHandler`: POST only; 200 with the session on success. */
  function Login(a: AuthService.Auth, verb: string, payload: Option<AuthService.LoginRequest>): (r: Response<AuthBody>)
    ensures WellFormed(r)
    ensures verb != "POST" ==> r == NotAllowed()
    ensures verb == "POST" && payload.None? ==> r == WriteErrorResponse(StatusBadRequest, InvalidJsonMessage)
    ensures r.status == 200 <==> verb == "POST" && payload.Some? && AuthService.Login(a, payload.value).Success?
    ensures r.status == 200 ==> r == JsonResponse(200, Session(AuthService.Login(a, payload.value).value))
    ensures r.status in {200, 400, 401, 405, 500}
  {
    if verb != "POST" then NotAllowed()
    else match payload
      case None => WriteErrorResponse(StatusBadRequest, InvalidJsonMessage)
      case Some(req) =>
        match AuthService.Login(a, req)
        case Failure(e) => HandleServiceError(App(e))
        case Success(resp) => JsonResponse(200, Session(resp))
  }

  /** A client cannot tell from the answer whether an email is registered:
      an unknown email and a wrong password get the same response. */
  lemma LoginHidesAccounts(a: AuthService.Auth, req: AuthService.LoginRequest)
    requires a.reachable && AuthService.IsValidEmail(req.email) && |req.password| > 0
    requires var found := UserStore.GetByEmail(a.users, AuthService.NormalizeEmail(req.email));
      found.None? || !a.crypto.check(req.password, found.value.passwordHash)
    ensures Login(a, "POST", Some(req)) == WriteErrorResponse(StatusUnauthorized, InvalidCredentials.message)
  {}

  /** `LogoutHandler`: nothing is revoked; POST is simply acknowledged. */
  function Logout(verb: string): (r: Response<AuthBody>)
    ensures WellFormed(r)
    ensures verb != "POST" ==> r == NotAllowed()
    ensures verb == "POST" ==> r.status == 200 && r.JsonResponse? && r.data.LoggedOut? && r.data.success
  {
    if verb != "POST" then NotAllowed()
    else JsonResponse(200, LoggedOut("Logged out successfully", true))
  }

  /** `MeHandler`: GET only; a missing token is 401 before the service is
      asked; otherwise the user the token names. */
  function Me(a: AuthService.Auth, verb: string, authorization: string): (r: Response<AuthBody>)
    ensures WellFormed(r)
    ensures verb != "GET" ==> r == NotAllowed()
    ensures verb == "GET" && ExtractTokenFromHeader(authorization) == "" ==> r == TokenRequired()
    ensures r.status == 200 <==>
      verb == "GET" && ExtractTokenFromHeader(authorization) != ""
      && AuthService.GetUserFromToken(a, ExtractTokenFromHeader(authorization)).Success?
    ensures r.status == 200 ==>
      r == JsonResponse(200, Profile(AuthService.GetUserFromToken(a, ExtractTokenFromHeader(authorization)).value))
  {
    if verb != "GET" then NotAllowed()
    else
      var token := ExtractTokenFromHeader(authorization);
      if token == "" then TokenRequired()
      else match AuthService.GetUserFromToken(a, token)
        case Failure(e) => HandleServiceError(App(e))
        case Success(u) => JsonResponse(200, Profile(u))
  }

  /** Right after sign-up, presenting the issued token as a bearer token
      returns the new user's profile. */
  lemma MeAfterSignup(a: AuthService.Auth, req: AuthService.SignupRequest, now: nat)
    requires UserStore.Valid(a.users) && AuthService.TokensRoundTrip(a.crypto) && a.reachable
    requires AuthService.SignUp(a, req, now).Success? && AuthService.SignUp(a, req, now).value.1.token != ""
    ensures var (s', resp) := AuthService.SignUp(a, req, now).value;
      Me(a.(users := s'), "GET", "Bearer " + resp.token) == JsonResponse(200, Profile(resp.user))
  {
    var (s', resp) := AuthService.SignUp(a, req, now).value;
    AuthService.SignUpTokenIdentifies(a, req, now, now, resp.user.email);
    MeOfToken(a.(users := s'), resp.token, resp.user);
  }

  lemma MeOfToken(a: AuthService.Auth, token: string, u: UserStore.User)
    requires token != "" && AuthService.GetUserFromToken(a, token) == Success(u)
    ensures Me(a, "GET", "Bearer " + token) == JsonResponse(200, Profile(u))
  {
    assert ToLower("Bearer") == "bearer" by {
      assert forall i :: 0 <= i < 6 ==> ToLower("Bearer")[i] == "bearer"[i];
    }
    assert "Bearer " + token == "Bearer" + " " + token;
    ExtractTokenOfBearer("Bearer", token);
  }

  /** `RefreshHandler`: POST only; a missing token is 401 before the
      service is asked; otherwise the refreshed token. */
  function Refresh(a: AuthService.Auth, verb: string, authorization: string): (r: Response<AuthBody>)
    ensures WellFormed(r)
    ensures verb != "POST" ==> r == NotAllowed()
    ensures verb == "POST" && ExtractTokenFromHeader(authorization) == "" ==> r == TokenRequired()
    ensures r.status == 200 <==>
      verb == "POST" && ExtractTokenFromHeader(authorization) != ""
      && AuthService.RefreshToken(a, ExtractTokenFromHeader(authorization)).Success?
    ensures r.status == 200 ==>
      (r.JsonResponse? && r.data.Refreshed?
       && r.data.token == AuthService.RefreshToken(a, ExtractTokenFromHeader(authorization)).value)
  {
    if verb != "POST" then NotAllowed()
    else
      var token := ExtractTokenFromHeader(authorization);
      if token == "" then TokenRequired()
      else match AuthService.RefreshToken(a, token)
        case Failure(e) => HandleServiceError(App(e))
        case Success(t) => JsonResponse(200, Refreshed(t, "Token refreshed successfully"))
  }
}
