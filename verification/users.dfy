/**
 * The user entity of the current backend generation and the account-status
 * predicates Spring Security consults.  Time is milliseconds since the epoch;
 * "six months ago" is a calendar computation, so it is passed in as an
 * instant rather than derived from `now`.
 */
module Users {
  import opened Wrappers
  import opened Text
  import opened Errors
  import Roles
  import opened BeanValidation

  /** `createdAt.plusSeconds(31536000)`: 365 days, in milliseconds. */
  const AccountLifetime: int := 31_536_000 * 1000

  /** The bcrypt hash prefix the persistence hook tests for. */
  const BcryptPrefix := "$2"

  datatype User = User(
    id: Option<nat>,
    fullName: string,
    email: string,
    password: Option<string>,
    role: Option<Roles.Role>,
    phoneNumber: Option<string>,
    enabled: bool,
    locked: bool,
    accountNonExpired: bool,
    credentialsNonExpired: bool,
    lastLogin: Option<int>,
    profilePictureUrl: Option<string>,
    bio: Option<string>,
    createdAt: int,
    updatedAt: int)

  /** `new User()` with the fields callers set: the field initialisers leave
   *  the account enabled, unlocked and with both expiry flags set, and no
   *  phone number, picture or biography. */
  function NewUser(fullName: string, email: string, password: Option<string>, role: Option<Roles.Role>, now: int): User
  {
    User(None, fullName, email, password, role, None, true, false, true, true, None, None, None, now, now)
  }

  /** `getUsername`: users log in with their email address. */
  function Username(u: User): string
  {
    u.email
  }

  /** `getAuthorities`: the single authority `ROLE_<NAME>`; a user without a
   *  role makes `role.name()` throw. */
  function Authorities(u: User): (r: Result<seq<string>, Exc>)
    ensures r.Err? <==> u.role.None?
    ensures r.Err? ==> r.error.kind == NullPointer
    ensures r.Ok? ==> |r.value| == 1 && HasPrefix(r.value[0], "ROLE_")
                      && r.value[0][5..] == Roles.ConstantName(u.role.value)
  {
    match u.role
    case None => Err(Exc(NullPointer, "role"))
    case Some(role) => Ok(["ROLE_" + Roles.ConstantName(role)])
  }

  /** The authority names the role: users with equal authorities have equal
   *  roles. */
  lemma AuthoritiesDetermineRole(a: User, b: User)
    requires Authorities(a).Ok? && Authorities(a) == Authorities(b)
    ensures a.role == b.role
  {
    var ra, rb := a.role.value, b.role.value;
    assert Roles.ConstantName(ra) == Authorities(a).value[0][5..];
    assert Roles.ConstantName(rb) == Authorities(b).value[0][5..];
    if ra == Roles.User {
      assert Roles.ConstantName(rb)[0] == 'U';
    } else if ra == Roles.Admin {
      assert Roles.ConstantName(rb)[0] == 'A';
    } else {
      assert Roles.ConstantName(rb)[0] == 'D';
    }
  }

  predicate IsAccountNonLocked(u: User)
  {
    !u.locked
  }

  predicate IsCredentialsNonExpired(u: User)
  {
    u.credentialsNonExpired
  }

  /** `isAccountNonExpired`: the flag, and less than a year since creation. */
  predicate IsAccountNonExpired(u: User, now: int)
  {
    u.accountNonExpired && now < u.createdAt + AccountLifetime
  }

  /** `isEnabled`: the flag, and either no recorded login or one after
   *  `sixMonthsAgo`. */
  predicate IsEnabled(u: User, sixMonthsAgo: int)
  {
    u.enabled && (u.lastLogin.None? || u.lastLogin.value > sixMonthsAgo)
  }

  /** An account is unexpired at its creation and expires exactly one year
   *  later, for good. */
  lemma AccountExpiresAfterOneYear(u: User, now: int, later: int)
    requires u.accountNonExpired
    requires now <= later
    ensures IsAccountNonExpired(u, u.createdAt)
    ensures !IsAccountNonExpired(u, u.createdAt + AccountLifetime)
    ensures !IsAccountNonExpired(u, now) ==> !IsAccountNonExpired(u, later)
  {
  }

  /** A user who never logged in stays enabled as long as the flag is set;
   *  one who last logged in at or before the cut-off is disabled, whatever
   *  the flag says. */
  lemma InactivityDisables(u: User, sixMonthsAgo: int)
    ensures u.lastLogin.None? ==> (IsEnabled(u, sixMonthsAgo) <==> u.enabled)
    ensures u.lastLogin.Some? && u.lastLogin.value <= sixMonthsAgo ==> !IsEnabled(u, sixMonthsAgo)
    ensures !u.enabled ==> !IsEnabled(u, sixMonthsAgo)
  {
  }

  predicate IsHashed(password: string)
  {
    HasPrefix(password, BcryptPrefix)
  }

  /** The `@PrePersist`/`@PreUpdate` hook: a present password that does not
   *  look like a bcrypt hash is hashed; nothing else changes. */
  function HashPassword(u: User, encode: string -> string): (r: User)
    ensures r == u.(password := r.password)
    ensures u.password.None? ==> r.password.None?
    ensures u.password.Some? && IsHashed(u.password.value) ==> r.password == u.password
    ensures u.password.Some? && !IsHashed(u.password.value) ==> r.password == Some(encode(u.password.value))
  {
    match u.password
    case Some(p) => if IsHashed(p) then u else u.(password := Some(encode(p)))
    case None => u
  }

  /** When the encoder yields bcrypt hashes, running the hook again changes
   *  nothing: an entity saved twice is hashed once. */
  lemma HashPasswordIdempotent(u: User, encode: string -> string)
    requires forall s :: IsHashed(encode(s))
    ensures HashPassword(HashPassword(u, encode), encode) == HashPassword(u, encode)
  {
  }

  /** A character of the phone-number pattern's class `[0-9\s\-()]`, where
   *  Java's `\s` is space, tab, line feed, vertical tab, form feed and
   *  carriage return. */
  predicate PhoneChar(c: char)
  {
    ('0' <= c <= '9') || c == ' ' || c == '\t' || c == '\n' || c == '\U{000B}' || c == '\U{000C}' || c == '\r'
      || c == '-' || c == '(' || c == ')'
  }

  /** `[0-9\s\-()]{7,20}` matching the whole text. */
  predicate PhoneBody(s: string)
  {
    7 <= |s| <= 20 && forall i | 0 <= i < |s| :: PhoneChar(s[i])
  }

  /** `^\+?[0-9\s\-()]{7,20}$` as `Matcher.matches` applies it: a leading
   *  `+` is taken by the optional part, since the class cannot take it. */
  predicate MatchesPhonePattern(s: string)
  {
    if |s| > 0 && s[0] == '+' then PhoneBody(s[1..]) else PhoneBody(s)
  }

  /** The pattern read as its alternatives: the body alone, or `+` then the
   *  body. */
  lemma PhonePatternAlternatives(s: string)
    ensures MatchesPhonePattern(s) <==> PhoneBody(s) || (|s| > 0 && s[0] == '+' && PhoneBody(s[1..]))
  {
    if |s| > 0 && s[0] == '+' {
      assert !PhoneChar(s[0]);
    }
  }

  /** `@Pattern`: an absent value passes. */
  predicate PhoneShaped(p: Option<string>)
  {
    p.None? || MatchesPhonePattern(p.value)
  }

  /** The constraints on the three fields that may be absent: a phone
   *  number of at most 20 characters matching the phone pattern, a
   *  well-formed picture URL (the oracle `isUrl`) of at most 500 characters
   *  and a biography of at most 500. */
  predicate OptionalFieldsValid(isUrl: string -> bool, u: User)
  {
    && SizeWithin(u.phoneNumber, 0, 20) && PhoneShaped(u.phoneNumber)
    && UrlShaped(isUrl, u.profilePictureUrl) && SizeWithin(u.profilePictureUrl, 0, 500)
    && SizeWithin(u.bio, 0, 500)
  }

  /** The bean constraints of the entity, which Hibernate checks before
   *  every insert and update (after the hashing hook): a non-blank full name
   *  of 2 to 100 characters, a non-blank well-formed e-mail address, a
   *  non-blank password of 8 to 255 characters, and the optional fields'
   *  constraints. */
  predicate MeetsConstraints(isEmail: string -> bool, isUrl: string -> bool, u: User)
  {
    && NotBlank(Some(u.fullName)) && SizeWithin(Some(u.fullName), 2, 100)
    && NotBlank(Some(u.email)) && EmailShaped(isEmail, Some(u.email))
    && NotBlank(u.password) && SizeWithin(u.password, 8, 255)
    && OptionalFieldsValid(isUrl, u)
  }

  /** The constraints read the six annotated fields only: the flags, the
   *  role, the identity, the last login and the timestamps never decide
   *  validity.  A user without a password is never valid, and one without
   *  phone number, picture or biography is judged on the first three
   *  fields alone. */
  lemma ConstraintsReadAnnotatedFields(isEmail: string -> bool, isUrl: string -> bool, u: User, v: User)
    requires u.fullName == v.fullName && u.email == v.email && u.password == v.password
    requires u.phoneNumber == v.phoneNumber && u.profilePictureUrl == v.profilePictureUrl && u.bio == v.bio
    ensures MeetsConstraints(isEmail, isUrl, u) <==> MeetsConstraints(isEmail, isUrl, v)
    ensures u.password.None? ==> !MeetsConstraints(isEmail, isUrl, u)
    ensures u.phoneNumber.None? && u.profilePictureUrl.None? && u.bio.None? ==>
              (MeetsConstraints(isEmail, isUrl, u) <==>
                 && NotBlank(Some(u.fullName)) && 2 <= |u.fullName| <= 100
                 && NotBlank(Some(u.email)) && EmailShaped(isEmail, Some(u.email))
                 && NotBlank(u.password) && 8 <= |u.password.value| <= 255)
  {
  }

  /** Each of the three optional constraints can refuse a user on its own:
   *  a six-digit number is too short for the pattern, a `+` with twenty
   *  digits matches the pattern but exceeds `@Size(max = 20)`, and a
   *  501-character biography is too long. */
  lemma OptionalFieldsRefuse(isEmail: string -> bool, isUrl: string -> bool, u: User)
    ensures u.phoneNumber == Some("555123") ==> !MeetsConstraints(isEmail, isUrl, u)
    ensures MatchesPhonePattern("+12345678901234567890")
    ensures u.phoneNumber == Some("+12345678901234567890") ==> !MeetsConstraints(isEmail, isUrl, u)
    ensures u.bio.Some? && |u.bio.value| == 501 ==> !MeetsConstraints(isEmail, isUrl, u)
    ensures u.profilePictureUrl.Some? && u.profilePictureUrl.value != [] && !isUrl(u.profilePictureUrl.value) ==>
              !MeetsConstraints(isEmail, isUrl, u)
  {
    var long := "+12345678901234567890";
    assert |long| == 21 && long[0] == '+';
    assert forall i | 0 <= i < 20 :: PhoneChar(long[1..][i]);
  }

  /** A typical international number passes the pattern and the size. */
  lemma PhoneExample()
    ensures PhoneShaped(Some("+1 (555) 123-4567")) && SizeWithin(Some("+1 (555) 123-4567"), 0, 20)
  {
    var p := "+1 (555) 123-4567";
    assert forall i | 0 <= i < |p[1..]| :: PhoneChar(p[1..][i]);
  }

  /** A one-character name is refused however the rest looks. */
  lemma OneLetterNameRefused(isEmail: string -> bool, isUrl: string -> bool, u: User)
    requires |u.fullName| == 1
    ensures !MeetsConstraints(isEmail, isUrl, u)
  {
  }

  /** Entity equality (`@EqualsAndHashCode` on `id` only). */
  predicate SameEntity(a: User, b: User)
  {
    a.id == b.id
  }

  /** Two users not yet saved are equal, whatever their fields: both ids are
   *  null.  Users that differ in id are never equal. */
  lemma UnsavedUsersAreEqual(a: User, b: User)
    ensures a.id.None? && b.id.None? ==> SameEntity(a, b)
    ensures a.id != b.id ==> !SameEntity(a, b)
  {
  }
}
