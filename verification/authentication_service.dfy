/**
 * Registration and the translation of the authentication manager's verdict.
 * The manager itself (password check, account-status checks) is library
 * code: its verdict is a parameter, `None` for success or the
 * `AuthenticationException` (or other exception) it throws.
 */
module AuthenticationService {
  import opened Wrappers
  import opened Errors
  import Roles
  import opened Users
  import opened UserRepository
  import UserService

  const InvalidCredentials := "Invalid credentials provided"

  function AlreadyExists(email: string): string
  {
    "User with email " + email + " already exists"
  }

  /** The entity `signup` builds: the request's name and address, the
   *  encoded password, role `USER`, and a last login of now. */
  function Registered(fullName: string, email: string, encoded: string, now: int): User
  {
    NewUser(fullName, email, Some(encoded), Some(Roles.User), now).(lastLogin := Some(now))
  }

  /** The entity the insert of `signup` validates: the registered user
   *  after the hashing hook. */
  function SignupEntity(fullName: string, email: string, password: string, encode: string -> string, now: int): User
  {
    HashPassword(Registered(fullName, email, encode(password), now), encode)
  }

  /** `signup`: a taken address is refused before anything is encoded or
   *  saved; a null password makes the encoder throw; otherwise the new
   *  user is saved once, which fails when the entity breaks its own
   *  constraints (a one-letter name, say). */
  function Signup(t: Table, fullName: string, email: string, password: Option<string>, encode: string -> string,
                  isEmail: string -> bool, isUrl: string -> bool, now: int): (r: Result<(Table, User), Exc>)
    ensures ExistsByEmail(t, email) ==> r == Err(Exc(DuplicateKey, AlreadyExists(email)))
    ensures !ExistsByEmail(t, email) && password.None? ==> r == Err(Exc(IllegalArgument, UserService.NullPassword))
    ensures !ExistsByEmail(t, email) && password.Some? ==>
              (r.Ok? <==> MeetsConstraints(isEmail, isUrl, SignupEntity(fullName, email, password.value, encode, now)))
    ensures !ExistsByEmail(t, email) && password.Some? && r.Err? ==> r.error == Exc(ConstraintViolation, InvalidOnPersist)
    ensures r.Ok? ==>
              var (t', u) := r.value;
              && t'.rows == t.rows + [u] && u.id == Some(t.nextId)
              && u.fullName == fullName && u.email == email && u.role == Some(Roles.User)
              && u.lastLogin == Some(now) && u.enabled && !u.locked
              && u.password == SignupEntity(fullName, email, password.value, encode, now).password
              && MeetsConstraints(isEmail, isUrl, u)
    ensures r.Ok? && WellFormed(t) ==> WellFormed(r.value.0)
  {
    if ExistsByEmail(t, email) then Err(Exc(DuplicateKey, AlreadyExists(email)))
    else match password
      case None => Err(Exc(IllegalArgument, UserService.NullPassword))
      case Some(p) => Persist(t, Registered(fullName, email, encode(p), now), encode, isEmail, isUrl, now)
  }

  /** A registered user can be looked up by address at once, and
   *  registering the same address again is refused. */
  lemma SignupThenLookup(t: Table, fullName: string, email: string, password: string, encode: string -> string,
                         isEmail: string -> bool, isUrl: string -> bool, now: int)
    requires WellFormed(t) && !ExistsByEmail(t, email)
    requires MeetsConstraints(isEmail, isUrl, SignupEntity(fullName, email, password, encode, now))
    ensures var (t', u) := Signup(t, fullName, email, Some(password), encode, isEmail, isUrl, now).value;
            && UserService.LoadUserByUsername(t', email) == Ok(u)
            && Signup(t', fullName, email, Some(password), encode, isEmail, isUrl, now) == Err(Exc(DuplicateKey, AlreadyExists(email)))
  {
    var (t', u) := Signup(t, fullName, email, Some(password), encode, isEmail, isUrl, now).value;
    FindByEmailUnique(t', |t.rows|);
    assert t'.rows[|t.rows|] == u;
  }

  /** The entity's own constraints are stricter than the request's: a
   *  one-letter name passes the request's `@NotBlank` but fails the
   *  entity's `@Size(min = 2)`, so the insert is refused. */
  lemma OneLetterNameFailsAtInsert(t: Table, email: string, password: string, encode: string -> string,
                                   isEmail: string -> bool, isUrl: string -> bool, now: int)
    requires !ExistsByEmail(t, email)
    ensures Signup(t, "A", email, Some(password), encode, isEmail, isUrl, now) == Err(Exc(ConstraintViolation, InvalidOnPersist))
  {
    OneLetterNameRefused(isEmail, isUrl, SignupEntity("A", email, password, encode, now));
  }

  /** `authenticate`, as written: bad credentials and unknown users are
   *  rethrown; every other authentication failure, a disabled or locked
   *  account included, becomes bad credentials. */
  function Authenticate(verdict: Option<Exc>): (r: Result<(), Exc>)
    ensures verdict.None? <==> r.Ok?
    ensures r.Err? ==> r.error.kind != Disabled && r.error.kind != Locked
    ensures r.Err? && IsAuthentication(verdict.value.kind) ==>
              r.error.kind in {BadCredentials, UsernameNotFound}
    ensures r.Err? && !IsAuthentication(verdict.value.kind) ==> r.error == verdict.value
  {
    match verdict
    case None => Ok(())
    case Some(e) =>
      if e.kind == BadCredentials || e.kind == UsernameNotFound then Err(e)
      else if IsAuthentication(e.kind) then Err(Exc(BadCredentials, InvalidCredentials))
      else Err(e)
  }

  /** `authenticate` as the login endpoint's handlers evidently expect it:
   *  the account-status exceptions are rethrown too. */
  function AuthenticateIntended(verdict: Option<Exc>): (r: Result<(), Exc>)
    ensures verdict.None? <==> r.Ok?
    ensures r.Err? && verdict.value.kind in {BadCredentials, UsernameNotFound, Disabled, Locked} ==> r.error == verdict.value
    ensures r.Err? ==> (r.error.kind == Disabled <==> verdict.value.kind == Disabled)
  {
    match verdict
    case None => Ok(())
    case Some(e) =>
      if e.kind in {BadCredentials, UsernameNotFound, Disabled, Locked} then Err(e)
      else if IsAuthentication(e.kind) then Err(Exc(BadCredentials, InvalidCredentials))
      else Err(e)
  }
}
