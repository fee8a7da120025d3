/** `AuthService` (backend/internal/services/auth.go): sign-up, login and
    token checks over the user store.  bcrypt and JWT are collaborators
    given as functions; `reachable` says whether the database answers at
    all, and when it does not every repository call fails with a driver
    error. */
module AuthService {
  import opened Wrappers
  import opened Strings
  import opened AppErrors
  import UserStore

  /** The password hasher and the token signer.  `verify` yields the user
      id and email a token was issued for; `issue` and `verify` stand for
      `GenerateToken` and `ValidateToken` with the clock and secret fixed. */
  datatype Crypto = Crypto(
    hash: string -> Result<string, string>,
    check: (string, string) -> bool,
    issue: (int, string) -> Result<string, string>,
    verify: string -> Result<(int, string), string>)

  datatype Auth = Auth(users: UserStore.Store, crypto: Crypto, reachable: bool)

  datatype SignupRequest = SignupRequest(email: string, password: string, fullName: string)
  datatype LoginRequest = LoginRequest(email: string, password: string)
  datatype LoginResponse = LoginResponse(token: string, user: UserStore.User)

  /** bcrypt's promise: a hash it produced accepts the password it came from. */
  ghost predicate HashChecks(c: Crypto) {
    forall p :: c.hash(p).Success? ==> c.check(p, c.hash(p).value)
  }

  /** The signer's promise: a token it issued verifies to the claims it carries. */
  ghost predicate TokensRoundTrip(c: Crypto) {
    forall id, e :: c.issue(id, e).Success? ==> c.verify(c.issue(id, e).value) == Success((id, e))
  }

  /** `JWTService.RefreshToken`: a new token for the claims of a valid one. */
  function JwtRefresh(c: Crypto, token: string): (r: Result<string, string>)
    ensures c.verify(token).Failure? ==> r.Failure?
    ensures c.verify(token).Success? ==> r == c.issue(c.verify(token).value.0, c.verify(token).value.1)
  {
    match c.verify(token)
    case Failure(e) => Failure(e)
    case Success((id, email)) => c.issue(id, email)
  }

  /** `isValidEmail`: non-empty once trimmed, with an '@' and a '.'. */
  function IsValidEmail(email: string): (ok: bool)
    ensures ok <==> var t := TrimSpace(email); t != [] && '@' in t && '.' in t
  {
    var t := TrimSpace(email);
    ContainsChar(t, '@');
    ContainsChar(t, '.');
    |t| > 0 && Contains(t, "@") && Contains(t, ".")
  }

  /** The stored form of an email: trimmed, then lower-cased. */
  function NormalizeEmail(email: string): string {
    ToLower(TrimSpace(email))
  }

  /** Normalising twice changes nothing, so a stored email is found again
      under its own normal form. */
  lemma NormalizeEmailIdempotent(email: string)
    ensures NormalizeEmail(NormalizeEmail(email)) == NormalizeEmail(email)
  {
    var l := ToLower(TrimSpace(email));
    LowerKeepsEnds(TrimSpace(email));
    TrimSpaceStops(l);
    LowerTwice(TrimSpace(email));
  }

  /** Lower-casing a trimmed text leaves nothing to trim. */
  lemma LowerKeepsEnds(t: string)
    requires t == [] || (!IsSpace(t[0]) && !IsSpace(t[|t| - 1]))
    ensures var l := ToLower(t); l == [] || (!IsSpace(l[0]) && !IsSpace(l[|l| - 1]))
  {
    if t != [] {
      assert ToLower(t)[0] == LowerChar(t[0]);
      assert ToLower(t)[|t| - 1] == LowerChar(t[|t| - 1]);
    }
  }

  /** Lower-casing is idempotent. */
  lemma LowerTwice(t: string)
    ensures ToLower(ToLower(t)) == ToLower(t)
  {
    assert forall i :: 0 <= i < |t| ==> ToLower(ToLower(t))[i] == ToLower(t)[i];
  }

  /** `SignUp`.  Input checks come first, then the lookup, the hash, the
      insert and the token; every failure after the input checks other than
      an existing active user is reported as a database error. */
  function SignUp(a: Auth, req: SignupRequest, now: nat): (r: Result<(UserStore.Store, LoginResponse), AppError>)
    requires UserStore.Valid(a.users)
    ensures !IsValidEmail(req.email) || |req.password| < 6 ==> r == Failure(InvalidInput)
    ensures IsValidEmail(req.email) && |req.password| >= 6 && a.reachable
            && UserStore.GetByEmail(a.users, NormalizeEmail(req.email)).Some?
            ==> r == Failure(UserAlreadyExists)
    ensures IsValidEmail(req.email) && |req.password| >= 6 && !a.reachable ==> r == Failure(DatabaseConnection)
    ensures r.Success? <==>
      IsValidEmail(req.email) && |req.password| >= 6 && a.reachable
      && !UserStore.EmailTaken(a.users, NormalizeEmail(req.email))
      && a.crypto.hash(req.password).Success?
      && a.crypto.issue(a.users.nextId, NormalizeEmail(req.email)).Success?
    ensures r.Failure? ==> r.error in {InvalidInput, UserAlreadyExists, DatabaseConnection}
    ensures r.Success? ==> a.reachable && IsValidEmail(req.email) && |req.password| >= 6
    ensures r.Success? ==> var (s', resp) := r.value; var u := resp.user;
      UserStore.Valid(s') && u.id !in a.users.rows && s'.rows == a.users.rows[u.id := u]
      && u.email == NormalizeEmail(req.email) && u.fullName == TrimSpace(req.fullName)
      && !u.emailVerified && u.isActive && u.createdAt == now
      && a.crypto.hash(req.password) == Success(u.passwordHash)
      && a.crypto.issue(u.id, u.email) == Success(resp.token)
  {
    if !IsValidEmail(req.email) || |req.password| < 6 then Failure(InvalidInput)
    else
      var email := NormalizeEmail(req.email);
      if !a.reachable then Failure(DatabaseConnection)
      else if UserStore.GetByEmail(a.users, email).Some? then Failure(UserAlreadyExists)
      else match a.crypto.hash(req.password)
        case Failure(_) => Failure(DatabaseConnection)
        case Success(hashed) =>
          var user := UserStore.User(0, email, hashed, TrimSpace(req.fullName), false, true, now, now);
          match UserStore.Create(a.users, user, now)
          case Failure(_) => Failure(DatabaseConnection)
          case Success((s', row)) =>
            match a.crypto.issue(row.id, row.email)
            case Failure(_) => Failure(DatabaseConnection)
            case Success(token) => Success((s', LoginResponse(token, row)))
  }

  /** The input checks of `SignUp` look at nothing but the request: the
      store, the collaborators and the database do not matter. */
  lemma SignUpChecksInputFirst(a: Auth, b: Auth, req: SignupRequest, now: nat)
    requires UserStore.Valid(a.users) && UserStore.Valid(b.users)
    requires !IsValidEmail(req.email) || |req.password| < 6
    ensures SignUp(a, req, now) == SignUp(b, req, now) == Failure(InvalidInput)
  {}

  /** A deactivated account still holds its email, so signing up again
      with it is neither `UserAlreadyExists` nor a new account: the insert
      breaks the UNIQUE constraint and the caller sees a database error. */
  lemma SignUpAfterDeactivation(a: Auth, req: SignupRequest, now: nat, id: int)
    requires UserStore.Valid(a.users) && a.reachable
    requires IsValidEmail(req.email) && |req.password| >= 6 && a.crypto.hash(req.password).Success?
    requires id in a.users.rows && !a.users.rows[id].isActive
    requires a.users.rows[id].email == NormalizeEmail(req.email)
    ensures SignUp(a, req, now) == Failure(DatabaseConnection)
  {
    var email := NormalizeEmail(req.email);
    forall j | j in a.users.rows && a.users.rows[j].email == email
      ensures !UserStore.ActiveAt(a.users, j)
    {
      assert j == id;
    }
    assert UserStore.GetByEmail(a.users, email).None?;
    var user := UserStore.User(0, email, a.crypto.hash(req.password).value, TrimSpace(req.fullName),
                               false, true, now, now);
    assert UserStore.EmailTaken(a.users, user.email);
    assert UserStore.Create(a.users, user, now).Failure?;
  }

  /** `Login`.  An unknown email and a wrong password give the same error. */
  function Login(a: Auth, req: LoginRequest): (r: Result<LoginResponse, AppError>)
    ensures !IsValidEmail(req.email) || |req.password| == 0 ==> r == Failure(InvalidInput)
    ensures IsValidEmail(req.email) && |req.password| > 0 && a.reachable ==>
      var found := UserStore.GetByEmail(a.users, NormalizeEmail(req.email));
      (found.None? || !a.crypto.check(req.password, found.value.passwordHash)) ==> r == Failure(InvalidCredentials)
    ensures IsValidEmail(req.email) && |req.password| > 0 && !a.reachable ==> r == Failure(DatabaseConnection)
    ensures r.Success? <==>
      IsValidEmail(req.email) && |req.password| > 0 && a.reachable
      && var found := UserStore.GetByEmail(a.users, NormalizeEmail(req.email));
         found.Some? && a.crypto.check(req.password, found.value.passwordHash)
         && a.crypto.issue(found.value.id, found.value.email).Success?
    ensures r.Failure? ==> r.error in {InvalidInput, InvalidCredentials, DatabaseConnection}
    ensures r.Success? ==> var u := r.value.user;
      u in a.users.rows.Values && u.isActive && u.email == NormalizeEmail(req.email)
      && a.crypto.check(req.password, u.passwordHash)
      && a.crypto.issue(u.id, u.email) == Success(r.value.token)
  {
    if !IsValidEmail(req.email) || |req.password| == 0 then Failure(InvalidInput)
    else
      var email := NormalizeEmail(req.email);
      if !a.reachable then Failure(DatabaseConnection)
      else match UserStore.GetByEmail(a.users, email)
        case None => Failure(InvalidCredentials)
        case Some(u) =>
          if !a.crypto.check(req.password, u.passwordHash) then Failure(InvalidCredentials)
          else match a.crypto.issue(u.id, u.email)
            case Failure(_) => Failure(DatabaseConnection)
            case Success(token) => Success(LoginResponse(token, u))
  }

  /** A user who just signed up can log in with the same email and
      password, and gets the account that was created. */
  lemma SignUpThenLogin(a: Auth, req: SignupRequest, now: nat)
    requires UserStore.Valid(a.users) && HashChecks(a.crypto)
    requires SignUp(a, req, now).Success?
    ensures var (s', resp) := SignUp(a, req, now).value;
      var l := Login(a.(users := s'), LoginRequest(req.email, req.password));
      l.Success? && l.value.user == resp.user
  {
    var (s', resp) := SignUp(a, req, now).value;
    var u := resp.user;
    assert UserStore.Valid(s') && u.id in s'.rows && s'.rows[u.id] == u;
    UserStore.GetByEmailFinds(s', u.id);
    assert UserStore.GetByEmail(s', NormalizeEmail(req.email)) == Some(u);
    assert a.crypto.check(req.password, u.passwordHash);
    assert a.crypto.issue(u.id, u.email).Success?;
  }

  /** `GetUserFromToken`: the active user the token names, provided the
      stored email still matches the token's. */
  function GetUserFromToken(a: Auth, token: string): (r: Result<UserStore.User, AppError>)
    ensures a.crypto.verify(token).Failure? ==> r == Failure(InvalidToken)
    ensures a.crypto.verify(token).Success? && a.reachable ==>
      var (id, email) := a.crypto.verify(token).value;
      (!UserStore.ActiveAt(a.users, id) ==> r == Failure(UserNotFound))
      && (UserStore.ActiveAt(a.users, id) && a.users.rows[id].email != email ==> r == Failure(InvalidToken))
    ensures a.crypto.verify(token).Success? && !a.reachable ==> r == Failure(DatabaseConnection)
    ensures r.Success? <==>
      a.crypto.verify(token).Success? && a.reachable
      && var (id, email) := a.crypto.verify(token).value;
         UserStore.ActiveAt(a.users, id) && a.users.rows[id].email == email
    ensures r.Failure? ==> r.error in {InvalidToken, UserNotFound, DatabaseConnection}
    ensures r.Success? ==>
      a.crypto.verify(token).Success? && var (id, email) := a.crypto.verify(token).value;
      r.value.isActive && id in a.users.rows && a.users.rows[id] == r.value && r.value.email == email
  {
    match a.crypto.verify(token)
    case Failure(_) => Failure(InvalidToken)
    case Success((id, email)) =>
      if !a.reachable then Failure(DatabaseConnection)
      else match UserStore.GetByID(a.users, id)
        case None => Failure(UserNotFound)
        case Some(u) => if u.email != email then Failure(InvalidToken) else Success(u)
  }

  /** The token handed out at sign-up identifies the new user, and stops
      doing so once the user is deleted or changes email. */
  lemma SignUpTokenIdentifies(a: Auth, req: SignupRequest, now: nat, later: nat, newEmail: string)
    requires UserStore.Valid(a.users) && TokensRoundTrip(a.crypto) && a.reachable
    requires SignUp(a, req, now).Success?
    ensures var (s', resp) := SignUp(a, req, now).value;
      GetUserFromToken(a.(users := s'), resp.token) == Success(resp.user)
      && GetUserFromToken(a.(users := UserStore.Delete(s', resp.user.id, later).value), resp.token)
         == Failure(UserNotFound)
    ensures var (s', resp) := SignUp(a, req, now).value;
      var moved := UserStore.Update(s', resp.user.(email := newEmail), later);
      newEmail != resp.user.email && moved.Success? ==>
        GetUserFromToken(a.(users := moved.value), resp.token) == Failure(InvalidToken)
  {
    var (s', resp) := SignUp(a, req, now).value;
    assert a.crypto.issue(resp.user.id, resp.user.email).Success?;
  }

  /** `RefreshToken`: fails exactly as `GetUserFromToken` does, and
      otherwise re-issues the token's claims. */
  function RefreshToken(a: Auth, token: string): (r: Result<string, AppError>)
    ensures GetUserFromToken(a, token).Failure? ==> r == Failure(GetUserFromToken(a, token).error)
    ensures GetUserFromToken(a, token).Success? ==>
      (r.Success? <==> JwtRefresh(a.crypto, token).Success?)
      && (r.Success? ==> JwtRefresh(a.crypto, token) == Success(r.value))
      && (r.Failure? ==> r.error == InvalidToken)
  {
    match GetUserFromToken(a, token)
    case Failure(e) => Failure(e)
    case Success(_) =>
      match JwtRefresh(a.crypto, token)
      case Failure(_) => Failure(InvalidToken)
      case Success(t) => Success(t)
  }

  /** A refreshed token names the same user as the token it replaces. */
  lemma RefreshKeepsUser(a: Auth, token: string)
    requires TokensRoundTrip(a.crypto) && RefreshToken(a, token).Success?
    ensures GetUserFromToken(a, RefreshToken(a, token).value) == GetUserFromToken(a, token)
  {
    var (id, email) := a.crypto.verify(token).value;
    assert a.crypto.issue(id, email).Success?;
  }
}
