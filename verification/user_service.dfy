/**
 * `UserService` of the current generation over the `users` table.  Every
 * operation that looks a user up by identity fails with
 * UsernameNotFoundException naming the identity; the look-ups by e-mail name
 * the address.  The password encoder is a parameter (a bcrypt encoder in the
 * application) and so is the `@Email` pattern; each operation that changes
 * a row goes through `Merge` or `Persist`, so the persistence hook, the
 * entity's constraints and the timestamps apply.
 */
module UserService {
  import opened Wrappers
  import opened Errors
  import opened Text
  import Roles
  import opened Users
  import opened UserRepository

  const UserNotFound := "User not found with ID: "
  const EmailNotFound := "User not found with email: "
  /** What `BCryptPasswordEncoder.encode(null)` throws. */
  const NullPassword := "rawPassword cannot be null"

  function NotFoundById(id: nat): Exc
  {
    Exc(UsernameNotFound, UserNotFound + NatToString(id))
  }

  /** A stored user's own e-mail address is not taken by another row. */
  lemma OwnEmailNotTaken(t: Table, id: nat)
    requires WellFormed(t) && FindById(t, id).Some?
    ensures !EmailTakenByOther(t, FindById(t, id).value.email, id)
  {
    var u := FindById(t, id).value;
    var k :| 0 <= k < |t.rows| && t.rows[k] == u;
    assert forall i | 0 <= i < |t.rows| && t.rows[i].email == u.email :: i == k;
  }

  /** Nor is its own phone number. */
  lemma OwnPhoneNotTaken(t: Table, id: nat)
    requires WellFormed(t) && FindById(t, id).Some?
    ensures !PhoneTakenByOther(t, FindById(t, id).value.phoneNumber, id)
  {
    var u := FindById(t, id).value;
    var k :| 0 <= k < |t.rows| && t.rows[k] == u;
    assert forall i | 0 <= i < |t.rows| && PhonesClash(u.phoneNumber, t.rows[i].phoneNumber) :: i == k;
  }

  /** `loadUserByUsername`: the user whose e-mail is the given name. */
  function LoadUserByUsername(t: Table, email: string): (r: Result<User, Exc>)
    ensures r.Ok? <==> ExistsByEmail(t, email)
    ensures r.Ok? ==> r.value in t.rows && r.value.email == email
    ensures r.Err? ==> r.error == Exc(UsernameNotFound, EmailNotFound + email)
  {
    ExistsByEmailIffFound(t, email);
    match FindByEmail(t, email)
    case Some(u) => Ok(u)
    case None => Err(Exc(UsernameNotFound, EmailNotFound + email))
  }

  /** Saving a changed copy of the stored row `id`: `change` keeps the
   *  identity, the e-mail address and the phone number.  Shared by the update-by-identity
   *  operations that touch one attribute. */
  function SaveChanged(t: Table, id: nat, change: User -> User, encode: string -> string, isEmail: string -> bool, isUrl: string -> bool,
                       now: int): (r: Result<(Table, User), Exc>)
    requires forall u :: change(u).id == u.id && change(u).email == u.email && change(u).phoneNumber == u.phoneNumber
    ensures FindById(t, id).None? ==> r == Err(NotFoundById(id))
    ensures FindById(t, id).Some? && !MeetsConstraints(isEmail, isUrl, HashPassword(change(FindById(t, id).value), encode)) ==>
              r == Err(Exc(TransactionSystem, CommitFailed))
    ensures WellFormed(t) ==>
              (r.Ok? <==> FindById(t, id).Some? && MeetsConstraints(isEmail, isUrl, HashPassword(change(FindById(t, id).value), encode)))
    ensures r.Ok? ==>
              var prev := FindById(t, id).value;
              var (t', saved) := r.value;
              && FindById(t, id).Some?
              && saved == HashPassword(change(prev), encode).(createdAt := prev.createdAt, updatedAt := now)
              && |t'.rows| == |t.rows| && t'.nextId == t.nextId
              && (forall i | 0 <= i < |t.rows| :: t'.rows[i] == if HasId(t.rows[i], id) then saved else t.rows[i])
    ensures r.Ok? && WellFormed(t) ==> WellFormed(r.value.0) && FindById(r.value.0, id) == Some(r.value.1)
  {
    match FindById(t, id)
    case None => Err(NotFoundById(id))
    case Some(prev) =>
      assert WellFormed(t) ==> !EmailTakenByOther(t, prev.email, id) && !PhoneTakenByOther(t, prev.phoneNumber, id) by {
        if WellFormed(t) { OwnEmailNotTaken(t, id); OwnPhoneNotTaken(t, id); }
      }
      Merge(t, change(prev), encode, isEmail, isUrl, now)
  }

  /** Whether the stored row `id`, once through the hashing hook, meets the
   *  entity's constraints: what decides an update that touches no
   *  constrained field. */
  predicate StoredRowValid(t: Table, id: nat, encode: string -> string, isEmail: string -> bool, isUrl: string -> bool)
    requires FindById(t, id).Some?
  {
    MeetsConstraints(isEmail, isUrl, HashPassword(FindById(t, id).value, encode))
  }

  /** `toggleLock`: flips `locked` of that user. */
  function ToggleLock(t: Table, id: nat, encode: string -> string, isEmail: string -> bool, isUrl: string -> bool, now: int): (r: Result<(Table, User), Exc>)
    ensures FindById(t, id).None? ==> r == Err(NotFoundById(id))
    ensures WellFormed(t) ==> (r.Ok? <==> FindById(t, id).Some? && StoredRowValid(t, id, encode, isEmail, isUrl))
    ensures r.Ok? ==>
              var prev := FindById(t, id).value;
              var (t', saved) := r.value;
              && saved == HashPassword(prev.(locked := !prev.locked, updatedAt := now), encode)
              && |t'.rows| == |t.rows|
              && (forall i | 0 <= i < |t.rows| && !HasId(t.rows[i], id) :: t'.rows[i] == t.rows[i])
    ensures r.Ok? && WellFormed(t) ==> WellFormed(r.value.0) && FindById(r.value.0, id) == Some(r.value.1)
  {
    SaveChanged(t, id, (u: User) => u.(locked := !u.locked), encode, isEmail, isUrl, now)
  }

  /** Toggling twice gives the user back, apart from the update time, as
   *  long as the stored row is valid and its password already a hash. */
  lemma ToggleLockTwice(t: Table, id: nat, encode: string -> string, isEmail: string -> bool, isUrl: string -> bool, now1: int, now2: int)
    requires WellFormed(t) && FindById(t, id).Some?
    requires var p := FindById(t, id).value.password; p.Some? && IsHashed(p.value)
    requires MeetsConstraints(isEmail, isUrl, FindById(t, id).value)
    ensures ToggleLock(t, id, encode, isEmail, isUrl, now1).Ok?
    ensures ToggleLock(ToggleLock(t, id, encode, isEmail, isUrl, now1).value.0, id, encode, isEmail, isUrl, now2).Ok?
    ensures ToggleLock(ToggleLock(t, id, encode, isEmail, isUrl, now1).value.0, id, encode, isEmail, isUrl, now2).value.1
              == FindById(t, id).value.(updatedAt := now2)
  {
    var prev := FindById(t, id).value;
    var (t1, u1) := ToggleLock(t, id, encode, isEmail, isUrl, now1).value;
    assert u1 == prev.(locked := !prev.locked, updatedAt := now1);
  }

  /** `getUserById`. */
  function GetUserById(t: Table, id: nat): (r: Option<User>)
    ensures r.Some? ==> r.value in t.rows && HasId(r.value, id)
    ensures r.None? <==> forall u | u in t.rows :: !HasId(u, id)
  {
    FindById(t, id)
  }

  /** The user `createUser` hands to `save`: encoded password, disabled,
   *  role USER when none is given.  An incoming identity is dropped (see
   *  the notes on what is left out). */
  function Prepared(u: User, password: string, encode: string -> string): User
  {
    u.(id := None, password := Some(encode(password)), enabled := false,
       role := Some(u.role.UnwrapOr(Roles.User)))
  }

  /** The entity the insert of `createUser` validates: the prepared user
   *  after the hashing hook. */
  function ToInsert(u: User, encode: string -> string): User
    requires u.password.Some?
  {
    HashPassword(Prepared(u, u.password.value, encode), encode)
  }

  /** `createUser`. */
  function CreateUser(t: Table, u: User, encode: string -> string, isEmail: string -> bool, isUrl: string -> bool, now: int): (r: Result<(Table, User), Exc>)
    ensures u.password.None? ==> r == Err(Exc(IllegalArgument, NullPassword))
    ensures u.password.Some? ==>
              (r.Err? <==> !MeetsConstraints(isEmail, isUrl, ToInsert(u, encode)) || ExistsByEmail(t, u.email) || PhoneTaken(t, u.phoneNumber))
    ensures u.password.Some? && !MeetsConstraints(isEmail, isUrl, ToInsert(u, encode)) ==>
              r == Err(Exc(ConstraintViolation, InvalidOnPersist))
    ensures u.password.Some? && MeetsConstraints(isEmail, isUrl, ToInsert(u, encode)) && ExistsByEmail(t, u.email) ==>
              r == Err(Exc(DataIntegrityViolation, DuplicateEmail))
    ensures u.password.Some? && MeetsConstraints(isEmail, isUrl, ToInsert(u, encode)) && !ExistsByEmail(t, u.email)
              && PhoneTaken(t, u.phoneNumber) ==>
              r == Err(Exc(DataIntegrityViolation, DuplicatePhone))
    ensures r.Ok? ==>
              var (t', saved) := r.value;
              && !saved.enabled
              && saved.role == (if u.role.None? then Some(Roles.User) else u.role)
              && (IsHashed(encode(u.password.value)) ==> saved.password == Some(encode(u.password.value)))
              && saved.fullName == u.fullName && saved.email == u.email
              && saved.phoneNumber == u.phoneNumber && saved.profilePictureUrl == u.profilePictureUrl && saved.bio == u.bio
              && saved.locked == u.locked && saved.lastLogin == u.lastLogin
              && saved.id == Some(t.nextId) && saved.createdAt == now
              && t'.rows == t.rows + [saved]
              && MeetsConstraints(isEmail, isUrl, saved)
    ensures r.Ok? && WellFormed(t) ==> WellFormed(r.value.0)
  {
    match u.password
    case None => Err(Exc(IllegalArgument, NullPassword))
    case Some(p) => Persist(t, Prepared(u, p, encode), encode, isEmail, isUrl, now)
  }

  /** `existsByEmail`. */
  function ExistsByEmailQuery(t: Table, email: string): (b: bool)
    ensures b <==> FindByEmail(t, email).Some?
  {
    ExistsByEmailIffFound(t, email);
    ExistsByEmail(t, email)
  }

  /** `updateUserDetails`: name and e-mail copied, password re-encoded only
   *  when a new one is given; the phone number, the picture and the
   *  biography of the stored user are kept. */
  function Details(u: User, updated: User, encode: string -> string): User
  {
    u.(fullName := updated.fullName, email := updated.email,
       password := if updated.password.Some? then Some(encode(updated.password.value)) else u.password)
  }

  /** `updateUser`. */
  function UpdateUser(t: Table, id: nat, updated: User, encode: string -> string, isEmail: string -> bool, isUrl: string -> bool, now: int): (r: Result<(Table, User), Exc>)
    ensures FindById(t, id).None? ==> r == Err(NotFoundById(id))
    ensures FindById(t, id).Some? ==>
              var candidate := HashPassword(Details(FindById(t, id).value, updated, encode), encode);
              && (r.Err? <==> !MeetsConstraints(isEmail, isUrl, candidate) || EmailTakenByOther(t, updated.email, id)
                              || PhoneTakenByOther(t, FindById(t, id).value.phoneNumber, id))
              && (!MeetsConstraints(isEmail, isUrl, candidate) ==> r == Err(Exc(TransactionSystem, CommitFailed)))
    ensures WellFormed(t) && FindById(t, id).Some? ==>
              var candidate := HashPassword(Details(FindById(t, id).value, updated, encode), encode);
              (r.Err? <==> !MeetsConstraints(isEmail, isUrl, candidate) || EmailTakenByOther(t, updated.email, id))
    ensures r.Ok? ==>
              var prev := FindById(t, id).value;
              var saved := r.value.1;
              && saved.fullName == updated.fullName && saved.email == updated.email
              && (updated.password.None? && prev.password.Some? && IsHashed(prev.password.value) ==> saved.password == prev.password)
              && (updated.password.Some? && IsHashed(encode(updated.password.value)) ==> saved.password == Some(encode(updated.password.value)))
              && saved == prev.(fullName := saved.fullName, email := saved.email, password := saved.password, updatedAt := now)
    ensures r.Ok? && WellFormed(t) ==> WellFormed(r.value.0) && FindById(r.value.0, id) == Some(r.value.1)
  {
    match FindById(t, id)
    case None => Err(NotFoundById(id))
    case Some(prev) =>
      assert WellFormed(t) ==> !PhoneTakenByOther(t, prev.phoneNumber, id) by {
        if WellFormed(t) { OwnPhoneNotTaken(t, id); }
      }
      Merge(t, Details(prev, updated, encode), encode, isEmail, isUrl, now)
  }

  /** `deleteUser`: removes exactly that user. */
  function DeleteUser(t: Table, id: nat): (r: Result<Table, Exc>)
    ensures r.Err? <==> FindById(t, id).None?
    ensures r.Err? ==> r.error == NotFoundById(id)
    ensures r.Ok? ==> forall u :: u in r.value.rows <==> u in t.rows && !HasId(u, id)
    ensures r.Ok? && WellFormed(t) ==> WellFormed(r.value)
  {
    if FindById(t, id).None? then Err(NotFoundById(id)) else Ok(Delete(t, id))
  }

  /** `resetPassword`: looked up by e-mail; the new password is encoded. */
  function ResetPassword(t: Table, email: string, newPassword: Option<string>, encode: string -> string,
                         isEmail: string -> bool, isUrl: string -> bool, now: int): (r: Result<(Table, User), Exc>)
    ensures !ExistsByEmail(t, email) ==> r == Err(Exc(UsernameNotFound, EmailNotFound + email))
    ensures ExistsByEmail(t, email) && newPassword.None? ==> r == Err(Exc(IllegalArgument, NullPassword))
    ensures WellFormed(t) ==>
              (r.Ok? <==> ExistsByEmail(t, email) && newPassword.Some?
                          && MeetsConstraints(isEmail, isUrl, HashPassword(FindByEmail(t, email).value.(password := Some(encode(newPassword.value))), encode)))
    ensures r.Ok? ==> newPassword.Some?
    ensures r.Ok? && WellFormed(t) ==>
              var prev := FindByEmail(t, email).value;
              r.value.1 == HashPassword(prev.(password := Some(encode(newPassword.value)), updatedAt := now), encode)
    ensures r.Ok? && WellFormed(t) ==>
              WellFormed(r.value.0) && r.value.1 in r.value.0.rows
  {
    ExistsByEmailIffFound(t, email);
    match FindByEmail(t, email)
    case None => Err(Exc(UsernameNotFound, EmailNotFound + email))
    case Some(u) =>
      if newPassword.None? then Err(Exc(IllegalArgument, NullPassword))
      // a row without identity would be inserted again and hit the unique constraint
      else if u.id.None? then Err(Exc(DataIntegrityViolation, DuplicateEmail))
      else
        assert WellFormed(t) ==> FindById(t, u.id.value) == Some(u) by {
          if WellFormed(t) {
            var k :| 0 <= k < |t.rows| && t.rows[k] == u;
            FindByIdUnique(t, k);
          }
        }
        SaveChanged(t, u.id.value, (v: User) => v.(password := Some(encode(newPassword.value))), encode, isEmail, isUrl, now)
  }

  /** After a reset to a password whose hash the entity accepts, logging in
   *  by that e-mail finds the new encoded password. */
  lemma ResetPasswordTakesEffect(t: Table, email: string, p: string, encode: string -> string, isEmail: string -> bool, isUrl: string -> bool, now: int)
    requires WellFormed(t) && ExistsByEmail(t, email) && IsHashed(encode(p))
    requires MeetsConstraints(isEmail, isUrl, FindByEmail(t, email).value.(password := Some(encode(p))))
    ensures ResetPassword(t, email, Some(p), encode, isEmail, isUrl, now).Ok?
    ensures var t' := ResetPassword(t, email, Some(p), encode, isEmail, isUrl, now).value.0;
            LoadUserByUsername(t', email) == Ok(ResetPassword(t, email, Some(p), encode, isEmail, isUrl, now).value.1)
            && LoadUserByUsername(t', email).value.password == Some(encode(p))
  {
    ExistsByEmailIffFound(t, email);
    var (t', saved) := ResetPassword(t, email, Some(p), encode, isEmail, isUrl, now).value;
    var k :| 0 <= k < |t'.rows| && t'.rows[k] == saved;
    FindByEmailUnique(t', k);
  }

  /** `changeUserRole`: sets only the role. */
  function ChangeUserRole(t: Table, id: nat, role: Roles.Role, encode: string -> string, isEmail: string -> bool, isUrl: string -> bool, now: int): (r: Result<(Table, User), Exc>)
    ensures FindById(t, id).None? ==> r == Err(NotFoundById(id))
    ensures WellFormed(t) ==> (r.Ok? <==> FindById(t, id).Some? && StoredRowValid(t, id, encode, isEmail, isUrl))
    ensures r.Ok? ==>
              var prev := FindById(t, id).value;
              r.value.1 == HashPassword(prev.(role := Some(role), updatedAt := now), encode)
    ensures r.Ok? && WellFormed(t) ==> WellFormed(r.value.0) && FindById(r.value.0, id) == Some(r.value.1)
  {
    SaveChanged(t, id, (u: User) => u.(role := Some(role)), encode, isEmail, isUrl, now)
  }

  /** `activateUserAccount`: sets `enabled`. */
  function ActivateUserAccount(t: Table, id: nat, encode: string -> string, isEmail: string -> bool, isUrl: string -> bool, now: int): (r: Result<(Table, User), Exc>)
    ensures FindById(t, id).None? ==> r == Err(NotFoundById(id))
    ensures WellFormed(t) ==> (r.Ok? <==> FindById(t, id).Some? && StoredRowValid(t, id, encode, isEmail, isUrl))
    ensures r.Ok? ==>
              var prev := FindById(t, id).value;
              r.value.1 == HashPassword(prev.(enabled := true, updatedAt := now), encode)
    ensures r.Ok? && WellFormed(t) ==> WellFormed(r.value.0) && FindById(r.value.0, id) == Some(r.value.1)
  {
    SaveChanged(t, id, (u: User) => u.(enabled := true), encode, isEmail, isUrl, now)
  }
}
