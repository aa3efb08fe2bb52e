/**
 * Start-up seeding of the administrator account from the `admin`
 * configuration properties (outside the `prod` profile).
 */
module Bootstrap {
  import opened Wrappers
  import opened Errors
  import Roles
  import opened Users
  import opened UserRepository
  import UserService
  import opened BeanValidation

  /** The `admin` properties; any of them may be unset. */
  datatype AdminConfig = AdminConfig(name: Option<string>, password: Option<string>, email: Option<string>)

  predicate Complete(c: AdminConfig)
  {
    c.name.Some? && c.password.Some? && c.email.Some?
  }

  /** The user the runner builds before handing it to `createUser`. */
  function AdminUser(c: AdminConfig, now: int): User
    requires Complete(c)
  {
    NewUser(c.name.value, c.email.value, c.password, Some(Roles.Admin), now).(enabled := true)
  }

  /** `initDatabase`, as written: nothing happens with incomplete settings or
   *  an existing address; otherwise `createUser` saves the administrator,
   *  and its exceptions (settings the entity's constraints refuse, say)
   *  abort start-up. */
  function InitDatabase(t: Table, c: AdminConfig, encode: string -> string, isEmail: string -> bool, isUrl: string -> bool, now: int): (r: Result<Table, Exc>)
    ensures !Complete(c) ==> r == Ok(t)
    ensures Complete(c) && ExistsByEmail(t, c.email.value) ==> r == Ok(t)
    ensures Complete(c) && !ExistsByEmail(t, c.email.value) && !MeetsConstraints(isEmail, isUrl, UserService.ToInsert(AdminUser(c, now), encode)) ==>
              r == Err(Exc(ConstraintViolation, InvalidOnPersist))
    ensures Complete(c) && !ExistsByEmail(t, c.email.value) && MeetsConstraints(isEmail, isUrl, UserService.ToInsert(AdminUser(c, now), encode)) ==>
              && r.Ok? && |r.value.rows| == |t.rows| + 1 && r.value.rows[..|t.rows|] == t.rows
              && var admin := r.value.rows[|t.rows|];
              && admin.email == c.email.value && admin.fullName == c.name.value
              && admin.role == Some(Roles.Admin) && !admin.enabled
    ensures r.Ok? && WellFormed(t) ==> WellFormed(r.value)
  {
    if !Complete(c) then Ok(t)
    else if UserService.ExistsByEmailQuery(t, c.email.value) then Ok(t)
    else
      match UserService.CreateUser(t, AdminUser(c, now), encode, isEmail, isUrl, now)
      case Err(e) => Err(e)
      case Ok((t', _)) => Ok(t')
  }

  /** Seeding twice is seeding once, and the administrator it leaves can be
   *  found by address. */
  lemma SeedingIdempotent(t: Table, c: AdminConfig, encode: string -> string, isEmail: string -> bool, isUrl: string -> bool, now: int, later: int)
    requires WellFormed(t) && InitDatabase(t, c, encode, isEmail, isUrl, now).Ok?
    ensures InitDatabase(InitDatabase(t, c, encode, isEmail, isUrl, now).value, c, encode, isEmail, isUrl, later) == InitDatabase(t, c, encode, isEmail, isUrl, now)
    ensures Complete(c) ==> ExistsByEmail(InitDatabase(t, c, encode, isEmail, isUrl, now).value, c.email.value)
  {
    var t' := InitDatabase(t, c, encode, isEmail, isUrl, now).value;
    if Complete(c) && !ExistsByEmail(t, c.email.value) {
      assert t'.rows[|t.rows|] in t'.rows;
    }
  }

  /** Finding, as written: the seeded administrator cannot sign in, because
   *  `createUser` overrides the `enabled` flag the runner set. */
  lemma SeededAdminIsDisabled(t: Table, c: AdminConfig, encode: string -> string, isEmail: string -> bool, isUrl: string -> bool, now: int, sixMonthsAgo: int)
    requires Complete(c) && !ExistsByEmail(t, c.email.value)
    requires MeetsConstraints(isEmail, isUrl, UserService.ToInsert(AdminUser(c, now), encode))
    ensures var admin := InitDatabase(t, c, encode, isEmail, isUrl, now).value.rows[|t.rows|];
            !IsEnabled(admin, sixMonthsAgo)
  {
  }

  /** `initDatabase` as the runner evidently means it: the administrator is
   *  created and then activated. */
  function InitDatabaseIntended(t: Table, c: AdminConfig, encode: string -> string, isEmail: string -> bool, isUrl: string -> bool, now: int): (r: Result<Table, Exc>)
    ensures !Complete(c) ==> r == Ok(t)
    ensures Complete(c) && ExistsByEmail(t, c.email.value) ==> r == Ok(t)
  {
    if !Complete(c) then Ok(t)
    else if UserService.ExistsByEmailQuery(t, c.email.value) then Ok(t)
    else
      match UserService.CreateUser(t, AdminUser(c, now), encode, isEmail, isUrl, now)
      case Err(e) => Err(e)
      case Ok((t', admin)) =>
        match UserService.ActivateUserAccount(t', admin.id.value, encode, isEmail, isUrl, now)
        case Err(e) => Err(e)
        case Ok((t'', _)) => Ok(t'')
  }

  /** Corrected: on a well-formed table, with settings the entity accepts
   *  and an encoder yielding bcrypt hashes, the seeded administrator is
   *  enabled and keeps role ADMIN. */
  lemma SeededAdminIntendedEnabled(t: Table, c: AdminConfig, encode: string -> string, isEmail: string -> bool, isUrl: string -> bool, now: int, sixMonthsAgo: int)
    requires WellFormed(t) && Complete(c) && !ExistsByEmail(t, c.email.value)
    requires forall s :: IsHashed(encode(s))
    requires MeetsConstraints(isEmail, isUrl, UserService.ToInsert(AdminUser(c, now), encode))
    ensures var r := InitDatabaseIntended(t, c, encode, isEmail, isUrl, now);
            && r.Ok? && WellFormed(r.value)
            && var admin := FindByEmail(r.value, c.email.value);
            && admin.Some? && IsEnabled(admin.value, sixMonthsAgo) && admin.value.role == Some(Roles.Admin)
  {
    var admin := AdminUser(c, now);
    assert !UserService.ExistsByEmailQuery(t, c.email.value) by {
      ExistsByEmailIffFound(t, c.email.value);
    }
    var created := UserService.CreateUser(t, admin, encode, isEmail, isUrl, now);
    assert created.Ok? && created.value.1.id == Some(t.nextId) by {
      assert admin.password.Some? && admin.email == c.email.value;
    }
    var (t', saved) := created.value;
    assert WellFormed(t') && t'.rows == t.rows + [saved] && saved.lastLogin.None? && saved.role == Some(Roles.Admin);
    assert FindById(t', t.nextId) == Some(saved) by {
      FindByIdUnique(t', |t.rows|);
    }
    assert HashPassword(saved, encode) == saved;
    var activatedR := UserService.ActivateUserAccount(t', t.nextId, encode, isEmail, isUrl, now);
    var (t'', activated) := activatedR.value;
    assert InitDatabaseIntended(t, c, encode, isEmail, isUrl, now) == Ok(t'');
    assert WellFormed(t'') && FindById(t'', t.nextId) == Some(activated);
    assert activated.enabled && activated.lastLogin.None? && activated.role == Some(Roles.Admin)
        && activated.email == c.email.value;
    assert activated in t''.rows;
    var k :| 0 <= k < |t''.rows| && t''.rows[k] == activated;
    FindByEmailUnique(t'', k);
  }
}
