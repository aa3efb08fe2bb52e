/**
 * `/auth/login` and `/auth/signup`: the service outcomes as HTTP statuses
 * and error codes.
 */
module AuthenticationController {
  import opened Wrappers
  import opened Errors
  import Roles
  import opened Users
  import opened UserRepository
  import UserService
  import opened Jwt
  import JwtService
  import opened AuthenticationService
  import opened BeanValidation

  datatype LoginBody =
    | LoginSuccess(token: Token, expiresIn: int, role: Option<Roles.Role>)
    | LoginError(errorCode: string, message: string)

  datatype LoginReply = LoginReply(status: int, body: LoginBody)

  const LockedMessage := "This account is locked. Contact support."

  /** The login handlers' mapping of an exception. */
  function LoginFailure(e: Exc): (r: LoginReply)
    ensures e.kind == BadCredentials <==> r.status == 401
    ensures r.status == 403 <==> e.kind in {Disabled, Locked}
    ensures r.status == 401 || r.status == 403 || r.status == 500
    ensures r.body.LoginError? && (r.body.errorCode == "ACCOUNT_DISABLED" <==> e.kind == Disabled)
  {
    if e.kind == BadCredentials then LoginReply(401, LoginError("INVALID_CREDENTIALS", "Invalid email or password."))
    else if e.kind == Disabled then LoginReply(403, LoginError("ACCOUNT_DISABLED", "Your account is disabled."))
    else if e.kind == Locked then LoginReply(403, LoginError("ACCOUNT_LOCKED", "This account is locked."))
    else LoginReply(500, LoginError("SERVER_ERROR", "An unexpected error occurred."))
  }

  /** `login`, with the authentication step given as `authenticate` (the
   *  service's translation applied to the manager's verdict): look the user
   *  up, refuse a locked account before authenticating, then issue a token
   *  and report its expiration in milliseconds. */
  function LoginWith(authenticate: Option<Exc> -> Result<(), Exc>,
                     t: Table, st: JwtService.State, email: string, verdict: Option<Exc>, now: int, tokenExpiration: int): (r: (JwtService.State, LoginReply))
  {
    match UserService.LoadUserByUsername(t, email)
    case Err(e) => (st, LoginFailure(e))
    case Ok(user) =>
      if user.locked then (st, LoginReply(403, LoginError("ACCOUNT_LOCKED", LockedMessage)))
      else match authenticate(verdict)
        case Err(e) => (st, LoginFailure(e))
        case Ok(_) => IssueToken(st, user, now, tokenExpiration)
  }

  /** The part of `login` after authentication: sign a token for the user's
   *  authorities and read its expiration back. */
  function IssueToken(st: JwtService.State, user: User, now: int, tokenExpiration: int): (r: (JwtService.State, LoginReply))
    ensures r.1.status in {200, 500}
    ensures r.1.status == 200 ==>
              && r.1.body.LoginSuccess? && Authorities(user).Ok? && r.1.body.token.Signed?
              && r.1.body.token.claims == JwtService.TokenClaims(Username(user), Authorities(user).value, now, tokenExpiration)
              && r.1.body.expiresIn == ExpirationMillis(r.1.body.token.claims)
              && r.1.body.role == user.role
  {
    match Authorities(user)
    case Err(e) => (st, LoginFailure(e))
    case Ok(roles) =>
      var (st1, token) := JwtService.GenerateToken(st, Username(user), roles, now, tokenExpiration);
      match token
      case Err(e) => (st1, LoginFailure(e))
      case Ok(tk) =>
        var (st2, claims) := JwtService.ParseClaims(st1, tk, now);
        match claims
        case Err(e) => (st2, LoginFailure(e))
        case Ok(c) => (st2, LoginReply(200, LoginSuccess(tk, ExpirationMillis(c), user.role)))
  }

  /** `login` as written. */
  function Login(t: Table, st: JwtService.State, email: string, verdict: Option<Exc>, now: int, tokenExpiration: int): (r: (JwtService.State, LoginReply))
    ensures r.1.status in {200, 401, 403, 500}
    ensures !ExistsByEmail(t, email) ==> r == (st, LoginReply(500, LoginError("SERVER_ERROR", "An unexpected error occurred.")))
    ensures ExistsByEmail(t, email) && UserService.LoadUserByUsername(t, email).value.locked ==>
              r == (st, LoginReply(403, LoginError("ACCOUNT_LOCKED", LockedMessage)))
    ensures r.1.status == 401 ==> verdict.Some? && IsAuthentication(verdict.value.kind) && verdict.value.kind != UsernameNotFound
    ensures r.1.status == 200 ==>
              && verdict.None? && ExistsByEmail(t, email) && r.1.body.LoginSuccess?
              && var u := UserService.LoadUserByUsername(t, email).value;
              && !u.locked && Authorities(u).Ok? && r.1.body.token.Signed?
              && r.1.body.token.claims == JwtService.TokenClaims(email, Authorities(u).value, now, tokenExpiration)
              && r.1.body.expiresIn == ExpirationMillis(r.1.body.token.claims)
              && r.1.body.role == u.role
  {
    LoginWith(Authenticate, t, st, email, verdict, now, tokenExpiration)
  }

  /** A locked account is refused whatever the manager would have said:
   *  the manager is not consulted. */
  lemma LockedAccountSkipsAuthentication(t: Table, st: JwtService.State, email: string, v1: Option<Exc>, v2: Option<Exc>, now: int, tokenExpiration: int)
    requires ExistsByEmail(t, email) && UserService.LoadUserByUsername(t, email).value.locked
    ensures Login(t, st, email, v1, now, tokenExpiration) == Login(t, st, email, v2, now, tokenExpiration)
    ensures Login(t, st, email, v1, now, tokenExpiration).1.body.errorCode == "ACCOUNT_LOCKED"
  {
  }

  /** The token a successful login hands out is valid for that user until
   *  the `expiresIn` instant it reports. */
  lemma LoginTokenIsValid(t: Table, st: JwtService.State, email: string, now: int, tokenExpiration: int, later: int)
    requires Login(t, st, email, None, now, tokenExpiration).1.status == 200
    ensures var (st', reply) := Login(t, st, email, None, now, tokenExpiration);
            later <= reply.body.expiresIn ==> JwtService.IsTokenValid(st', reply.body.token, email, later).1 == Ok(true)
  {
    var u := UserService.LoadUserByUsername(t, email).value;
    var roles := Authorities(u).value;
    var (st1, token) := JwtService.GenerateToken(st, Username(u), roles, now, tokenExpiration);
    if later <= ExpirationMillis(token.value.claims) {
      JwtService.GeneratedTokenIsValid(st, email, roles, now, tokenExpiration, later);
    }
  }

  /** Finding, as written: the endpoint never answers `ACCOUNT_DISABLED`,
   *  since the service has already turned a disabled account into bad
   *  credentials; a manager refusing a disabled account yields 401. */
  lemma LoginNeverReportsDisabled(t: Table, st: JwtService.State, email: string, verdict: Option<Exc>, now: int, tokenExpiration: int)
    ensures var r := Login(t, st, email, verdict, now, tokenExpiration).1;
            !(r.body.LoginError? && r.body.errorCode == "ACCOUNT_DISABLED")
    ensures ExistsByEmail(t, email) && !UserService.LoadUserByUsername(t, email).value.locked ==>
              Login(t, st, email, Some(Exc(Disabled, "User is disabled")), now, tokenExpiration).1
                == LoginReply(401, LoginError("INVALID_CREDENTIALS", "Invalid email or password."))
  {
  }

  /** `login` over the intended `authenticate`. */
  function LoginIntended(t: Table, st: JwtService.State, email: string, verdict: Option<Exc>, now: int, tokenExpiration: int): (r: (JwtService.State, LoginReply))
    ensures r.1.status in {200, 401, 403, 500}
  {
    LoginWith(AuthenticateIntended, t, st, email, verdict, now, tokenExpiration)
  }

  /** Corrected: a disabled account is reported as such with 403, and the
   *  two versions agree on every other verdict. */
  lemma DisabledAccountForbidden(t: Table, st: JwtService.State, email: string, verdict: Option<Exc>, now: int, tokenExpiration: int)
    requires ExistsByEmail(t, email) && !UserService.LoadUserByUsername(t, email).value.locked
    ensures verdict.Some? && verdict.value.kind == Disabled ==>
              LoginIntended(t, st, email, verdict, now, tokenExpiration).1
                == LoginReply(403, LoginError("ACCOUNT_DISABLED", "Your account is disabled."))
    ensures verdict.None? || !(verdict.value.kind in {Disabled, Locked}) ==>
              LoginIntended(t, st, email, verdict, now, tokenExpiration) == Login(t, st, email, verdict, now, tokenExpiration)
  {
  }

  datatype RegistrationBody =
    | RegistrationSuccess(userId: nat, role: Roles.Role)
    | RegistrationError(message: string)
      /** The framework's own error body, written when `@Valid` refuses the
       *  request before the handler runs. */
    | InvalidRequestBody

  datatype SignupReply = SignupReply(status: int, body: RegistrationBody)

  /** The signup handlers' mapping of an exception. */
  function SignupFailure(e: Exc): (r: SignupReply)
    ensures IsDataIntegrity(e.kind) <==> r.status == 409
    ensures r.status == 500 <==> !IsRuntime(e.kind)
    ensures r.status in {400, 409, 500}
  {
    if IsDataIntegrity(e.kind) then SignupReply(409, RegistrationError("EMAIL_ALREADY_TAKEN"))
    else if IsRuntime(e.kind) then SignupReply(400, RegistrationError("INVALID_INPUT"))
    else SignupReply(500, RegistrationError("INTERNAL_SERVER_ERROR"))
  }

  /** The constraints of the registration request, checked by `@Valid`:
   *  a non-blank name, a non-blank well-formed address and a non-blank
   *  password. */
  predicate ValidRegistration(isEmail: string -> bool, fullName: Option<string>, email: Option<string>, password: Option<string>)
  {
    NotBlank(fullName) && NotBlank(email) && EmailShaped(isEmail, email) && NotBlank(password)
  }

  /** `signup`: a request breaking its constraints is answered 400 by the
   *  framework; otherwise 201 with the new identity and role `USER`, 409
   *  for a taken address, and 400 `INVALID_INPUT` when the entity's
   *  stricter constraints refuse the insert. */
  function Signup(t: Table, fullName: Option<string>, email: Option<string>, password: Option<string>,
                  encode: string -> string, isEmail: string -> bool, isUrl: string -> bool, now: int): (r: (Table, SignupReply))
    ensures !ValidRegistration(isEmail, fullName, email, password) ==> r == (t, SignupReply(400, InvalidRequestBody))
    ensures ValidRegistration(isEmail, fullName, email, password) && ExistsByEmail(t, email.value) ==>
              r == (t, SignupReply(409, RegistrationError("EMAIL_ALREADY_TAKEN")))
    ensures ValidRegistration(isEmail, fullName, email, password) && !ExistsByEmail(t, email.value) ==>
              if MeetsConstraints(isEmail, isUrl, SignupEntity(fullName.value, email.value, password.value, encode, now)) then
                r.1 == SignupReply(201, RegistrationSuccess(t.nextId, Roles.User)) && |r.0.rows| == |t.rows| + 1
              else
                r == (t, SignupReply(400, RegistrationError("INVALID_INPUT")))
  {
    if !ValidRegistration(isEmail, fullName, email, password) then (t, SignupReply(400, InvalidRequestBody))
    else match AuthenticationService.Signup(t, fullName.value, email.value, password, encode, isEmail, isUrl, now)
      case Ok((t', u)) => (t', SignupReply(201, RegistrationSuccess(u.id.value, Roles.User)))
      case Err(e) => (t, SignupFailure(e))
  }

  /** A valid request that registers a one-letter name is answered 400
   *  `INVALID_INPUT` and nothing is stored. */
  lemma OneLetterNameIsInvalidInput(t: Table, email: string, password: string, encode: string -> string,
                                    isEmail: string -> bool, isUrl: string -> bool, now: int)
    requires !ExistsByEmail(t, email) && NotBlank(Some(email)) && isEmail(email) && NotBlank(Some(password))
    ensures Signup(t, Some("A"), Some(email), Some(password), encode, isEmail, isUrl, now) == (t, SignupReply(400, RegistrationError("INVALID_INPUT")))
  {
    assert HasVisible("A") by { assert "A"[0] > ' '; }
    OneLetterNameFailsAtInsert(t, email, password, encode, isEmail, isUrl, now);
  }
}
