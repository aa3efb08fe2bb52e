/**
 * The first backend generation's user entity: no password hook, no
 * inactivity rule, the authority is the bare role name, and equality is
 * object identity or a shared non-null id.
 */
module LegacyUsers {
  import opened Wrappers
  import opened Errors
  import Roles

  datatype LegacyUser = LegacyUser(
    id: Option<nat>,
    fullName: string,
    email: string,
    password: Option<string>,
    role: Option<Roles.Role>,
    enabled: bool,
    locked: bool,
    accountNonExpired: bool,
    credentialsNonExpired: bool,
    createdAt: Option<int>,
    updatedAt: Option<int>)

  /** `new User()`: role `USER`, enabled, unlocked, both expiry flags set,
   *  no timestamps until the entity is saved. */
  function NewLegacyUser(fullName: string, email: string, password: Option<string>): LegacyUser
  {
    LegacyUser(None, fullName, email, password, Some(Roles.User), true, false, true, true, None, None)
  }

  /** `getAuthorities`: the single authority `role.name()`, with no `ROLE_`
   *  prefix; a null role throws. */
  function Authority(u: LegacyUser): (r: Result<string, Exc>)
    ensures r.Err? <==> u.role.None?
    ensures r.Err? ==> r.error.kind == NullPointer
    ensures r.Ok? ==> r.value == Roles.ConstantName(u.role.value)
  {
    match u.role
    case None => Err(Exc(NullPointer, "role"))
    case Some(role) => Ok(Roles.ConstantName(role))
  }

  /** The account-status checks read the stored flags only: unlike the
   *  current generation, neither the account's age nor its last login
   *  matters. */
  predicate IsEnabled(u: LegacyUser) { u.enabled }
  predicate IsAccountNonLocked(u: LegacyUser) { !u.locked }
  predicate IsAccountNonExpired(u: LegacyUser) { u.accountNonExpired }
  predicate IsCredentialsNonExpired(u: LegacyUser) { u.credentialsNonExpired }

  /** A fresh entity passes every account-status check. */
  lemma NewUserIsActive(fullName: string, email: string, password: Option<string>)
    ensures var u := NewLegacyUser(fullName, email, password);
            IsEnabled(u) && IsAccountNonLocked(u) && IsAccountNonExpired(u) && IsCredentialsNonExpired(u)
            && Authority(u) == Ok("USER")
  {
  }

  /** `equals`: the same object, or two entities carrying the same non-null
   *  id.  `sameObject` stands for the reference comparison. */
  predicate EntityEquals(a: LegacyUser, b: LegacyUser, sameObject: bool)
  {
    sameObject || (a.id.Some? && a.id == b.id)
  }

  /** `hashCode`: the class's hash, the same for every entity. */
  function HashCode(u: LegacyUser, classHash: int): (h: int)
  {
    classHash
  }

  /** `equals` is symmetric and transitive, and `hashCode` is consistent with
   *  it; an entity without an id is equal only to itself. */
  lemma EqualsContract(a: LegacyUser, b: LegacyUser, c: LegacyUser, classHash: int)
    ensures EntityEquals(a, b, false) ==> EntityEquals(b, a, false)
    ensures EntityEquals(a, b, false) && EntityEquals(b, c, false) ==> EntityEquals(a, c, false)
    ensures EntityEquals(a, b, false) ==> HashCode(a, classHash) == HashCode(b, classHash)
    ensures a.id.None? ==> (EntityEquals(a, b, false) <==> false)
    ensures EntityEquals(a, a, true)
  {
  }
}

/**
 * The first generation's `UserService` over its `users` table.  Unlike the
 * current generation it encodes every password it is given (there is no
 * bcrypt-prefix test) and toggles the lock with a bulk update while
 * returning the entity it loaded before.
 */
module LegacyUserService {
  import opened Wrappers
  import opened Errors
  import opened Text
  import opened Seqs
  import Roles
  import opened LegacyUsers

  datatype LegacyTable = LegacyTable(rows: seq<LegacyUser>, nextId: nat)

  const NotFound := "User not found with id: "
  const NullPassword := "rawPassword cannot be null"
  const DuplicateEmail := "users_email_key"

  /** Identities are present and distinct. */
  predicate DistinctIds(t: LegacyTable)
  {
    && (forall i | 0 <= i < |t.rows| :: t.rows[i].id.Some? && t.rows[i].id.value < t.nextId)
    && (forall i, j | 0 <= i < j < |t.rows| :: t.rows[i].id != t.rows[j].id)
  }

  predicate HasId(u: LegacyUser, id: nat)
  {
    u.id == Some(id)
  }

  function FindById(t: LegacyTable, id: nat): (r: Option<LegacyUser>)
    ensures r.Some? ==> r.value in t.rows && HasId(r.value, id)
    ensures r.None? <==> forall u | u in t.rows :: !HasId(u, id)
  {
    First(t.rows, (u: LegacyUser) => HasId(u, id))
  }

  function FindByEmail(t: LegacyTable, email: string): (r: Option<LegacyUser>)
    ensures r.Some? ==> r.value in t.rows && r.value.email == email
    ensures r.None? <==> forall u | u in t.rows :: u.email != email
  {
    First(t.rows, (u: LegacyUser) => u.email == email)
  }

  /** `loadUserByUsername`: the message says "id" although the key is the
   *  e-mail address. */
  function LoadUserByUsername(t: LegacyTable, email: string): (r: Result<LegacyUser, Exc>)
    ensures r.Ok? <==> exists u | u in t.rows :: u.email == email
    ensures r.Ok? ==> r.value in t.rows && r.value.email == email
    ensures r.Err? ==> r.error == Exc(UsernameNotFound, NotFound + email)
  {
    match FindByEmail(t, email)
    case Some(u) => Ok(u)
    case None => Err(Exc(UsernameNotFound, NotFound + email))
  }

  /** `toggleLock`: the bulk update flips the stored row; the caller gets the
   *  entity as loaded, with its `locked` flipped too.  The bulk update does
   *  not touch `updatedAt`. */
  function ToggleLock(t: LegacyTable, id: nat): (r: Result<(LegacyTable, LegacyUser), Exc>)
    ensures r.Err? <==> FindById(t, id).None?
    ensures r.Err? ==> r.error == Exc(UsernameNotFound, NotFound + NatToString(id))
    ensures r.Ok? ==>
              var (t', u) := r.value;
              && u == FindById(t, id).value.(locked := !FindById(t, id).value.locked)
              && t'.nextId == t.nextId && |t'.rows| == |t.rows|
              && (forall i | 0 <= i < |t.rows| ::
                    t'.rows[i] == if HasId(t.rows[i], id) then t.rows[i].(locked := !t.rows[i].locked) else t.rows[i])
  {
    match FindById(t, id)
    case None => Err(Exc(UsernameNotFound, NotFound + NatToString(id)))
    case Some(u) =>
      Ok((t.(rows := FlipLocks(t.rows, id)), u.(locked := !u.locked)))
  }

  /** The bulk update `UPDATE ... SET locked = NOT locked WHERE id = ?`. */
  function FlipLocks(rows: seq<LegacyUser>, id: nat): (r: seq<LegacyUser>)
    ensures |r| == |rows|
    ensures forall i | 0 <= i < |rows| :: r[i] == if HasId(rows[i], id) then rows[i].(locked := !rows[i].locked) else rows[i]
  {
    if rows == [] then []
    else [if HasId(rows[0], id) then rows[0].(locked := !rows[0].locked) else rows[0]] + FlipLocks(rows[1..], id)
  }

  /** With distinct identities the entity handed back is exactly the row now
   *  stored. */
  lemma ToggleLockReturnsStoredRow(t: LegacyTable, id: nat)
    requires DistinctIds(t) && FindById(t, id).Some?
    ensures ToggleLock(t, id).Ok?
    ensures FindById(ToggleLock(t, id).value.0, id) == Some(ToggleLock(t, id).value.1)
  {
    var (t', u) := ToggleLock(t, id).value;
    var k := RowOf(t, id);
    assert t'.rows[k] == u;
    assert forall i | 0 <= i < |t.rows| :: t'.rows[i].id == t.rows[i].id;
    FoundAt(t', id, k);
  }

  /** The position of the row `FindById` returns. */
  ghost function RowOf(t: LegacyTable, id: nat): (k: nat)
    requires FindById(t, id).Some?
    ensures k < |t.rows| && t.rows[k] == FindById(t, id).value
  {
    var u := FindById(t, id).value;
    var k :| 0 <= k < |t.rows| && t.rows[k] == u; k
  }

  /** With distinct identities, the row carrying `id` is the one found. */
  lemma FoundAt(t: LegacyTable, id: nat, k: nat)
    requires DistinctIds(t) && k < |t.rows| && HasId(t.rows[k], id)
    ensures FindById(t, id) == Some(t.rows[k])
  {
    assert t.rows[k] in t.rows;
    var j := RowOf(t, id);
  }

  /** The only row with a given e-mail address is the one found. */
  lemma EmailFoundAt(t: LegacyTable, email: string, k: nat)
    requires k < |t.rows| && t.rows[k].email == email
    requires forall i | 0 <= i < |t.rows| && i != k :: t.rows[i].email != email
    ensures FindByEmail(t, email) == Some(t.rows[k])
  {
    assert t.rows[k] in t.rows;
    var found := FindByEmail(t, email).value;
    var j :| 0 <= j < |t.rows| && t.rows[j] == found;
  }

  /** Toggling twice restores the table. */
  lemma ToggleLockTwice(t: LegacyTable, id: nat)
    requires FindById(t, id).Some?
    ensures ToggleLock(t, id).Ok?
    ensures ToggleLock(ToggleLock(t, id).value.0, id).Ok?
    ensures ToggleLock(ToggleLock(t, id).value.0, id).value.0 == t
  {
    SecondToggleFinds(t, id);
    FlipLocksTwice(t.rows, id);
  }

  /** After one toggle the row with identity `id` is still there. */
  lemma SecondToggleFinds(t: LegacyTable, id: nat)
    requires FindById(t, id).Some?
    ensures ToggleLock(t, id).Ok? && FindById(ToggleLock(t, id).value.0, id).Some?
  {
    var t' := ToggleLock(t, id).value.0;
    var k := RowOf(t, id);
    assert HasId(t'.rows[k], id) && t'.rows[k] in t'.rows;
  }

  /** Flipping the lock of the rows with identity `id` twice restores them. */
  lemma FlipLocksTwice(rows: seq<LegacyUser>, id: nat)
    ensures FlipLocks(FlipLocks(rows, id), id) == rows
  {
    var once := FlipLocks(rows, id);
    forall i | 0 <= i < |rows|
      ensures FlipLocks(once, id)[i] == rows[i]
    {
      assert once[i].id == rows[i].id;
    }
  }

  /** `getUserById`. */
  function GetUserById(t: LegacyTable, id: nat): (r: Option<LegacyUser>)
    ensures r.Some? <==> exists u | u in t.rows :: HasId(u, id)
    ensures r.Some? ==> r.value in t.rows && HasId(r.value, id)
  {
    FindById(t, id)
  }

  /** `createUser`: the password is always encoded (a null one makes the
   *  encoder throw), a missing role becomes `USER`, and `save` assigns the
   *  identity and both timestamps; a taken e-mail violates the unique
   *  column. */
  function CreateUser(t: LegacyTable, u: LegacyUser, encode: string -> string, now: int): (r: Result<(LegacyTable, LegacyUser), Exc>)
    ensures u.password.None? ==> r == Err(Exc(IllegalArgument, NullPassword))
    ensures u.password.Some? && (exists v | v in t.rows :: v.email == u.email) ==>
              r == Err(Exc(DataIntegrityViolation, DuplicateEmail))
    ensures r.Ok? ==>
              var (t', saved) := r.value;
              && t'.rows == t.rows + [saved] && t'.nextId == t.nextId + 1
              && saved.id == Some(t.nextId)
              && saved.password == Some(encode(u.password.value))
              && saved.role == Some(u.role.UnwrapOr(Roles.User))
              && saved.createdAt == Some(now) && saved.updatedAt == Some(now)
              && saved.(id := u.id, password := u.password, role := u.role, createdAt := u.createdAt, updatedAt := u.updatedAt) == u
    ensures u.password.Some? && (forall v | v in t.rows :: v.email != u.email) ==> r.Ok?
  {
    match u.password
    case None => Err(Exc(IllegalArgument, NullPassword))
    case Some(p) =>
      if FindByEmail(t, u.email).Some? then Err(Exc(DataIntegrityViolation, DuplicateEmail))
      else
        var saved := u.(id := Some(t.nextId), password := Some(encode(p)), role := Some(u.role.UnwrapOr(Roles.User)),
                        createdAt := Some(now), updatedAt := Some(now));
        Ok((LegacyTable(t.rows + [saved], t.nextId + 1), saved))
  }

  /** A created user keeps distinct identities and is found under its new
   *  identity and its e-mail address. */
  lemma CreatedUserIsFound(t: LegacyTable, u: LegacyUser, encode: string -> string, now: int)
    requires DistinctIds(t) && CreateUser(t, u, encode, now).Ok?
    ensures var (t', saved) := CreateUser(t, u, encode, now).value;
            DistinctIds(t') && FindById(t', t.nextId) == Some(saved) && LoadUserByUsername(t', u.email) == Ok(saved)
  {
    var (t', saved) := CreateUser(t, u, encode, now).value;
    assert FindByEmail(t, u.email).None?;
    assert forall i | 0 <= i < |t.rows| :: t'.rows[i] == t.rows[i] && t.rows[i] in t.rows;
    assert DistinctIds(t');
    FoundAt(t', t.nextId, |t.rows|);
    EmailFoundAt(t', u.email, |t.rows|);
  }

  /** Some row other than the one with identity `id` uses `email`. */
  predicate EmailTakenByOther(t: LegacyTable, email: string, id: nat)
  {
    exists i | 0 <= i < |t.rows| :: t.rows[i].email == email && !HasId(t.rows[i], id)
  }

  /** `updateUser`: name and e-mail are copied, a given password is encoded
   *  (an absent one leaves the stored password), `updatedAt` becomes now and
   *  `createdAt` is not updatable. */
  function UpdateUser(t: LegacyTable, id: nat, updated: LegacyUser, encode: string -> string, now: int): (r: Result<(LegacyTable, LegacyUser), Exc>)
    ensures FindById(t, id).None? ==> r == Err(Exc(UsernameNotFound, NotFound + NatToString(id)))
    ensures FindById(t, id).Some? && EmailTakenByOther(t, updated.email, id) ==>
              r == Err(Exc(DataIntegrityViolation, DuplicateEmail))
    ensures FindById(t, id).Some? && !EmailTakenByOther(t, updated.email, id) ==> r.Ok?
    ensures r.Ok? ==>
              var prev := FindById(t, id).value;
              var (t', saved) := r.value;
              && saved.fullName == updated.fullName && saved.email == updated.email
              && saved.password == (if updated.password.Some? then Some(encode(updated.password.value)) else prev.password)
              && saved.updatedAt == Some(now)
              && saved.(fullName := prev.fullName, email := prev.email, password := prev.password, updatedAt := prev.updatedAt) == prev
              && t'.nextId == t.nextId && |t'.rows| == |t.rows|
              && (forall i | 0 <= i < |t.rows| :: t'.rows[i] == if HasId(t.rows[i], id) then saved else t.rows[i])
  {
    match FindById(t, id)
    case None => Err(Exc(UsernameNotFound, NotFound + NatToString(id)))
    case Some(prev) =>
      if EmailTakenByOther(t, updated.email, id) then Err(Exc(DataIntegrityViolation, DuplicateEmail))
      else
        var password := if updated.password.Some? then Some(encode(updated.password.value)) else prev.password;
        var saved := prev.(fullName := updated.fullName, email := updated.email, password := password, updatedAt := Some(now));
        var rows := seq(|t.rows|, i requires 0 <= i < |t.rows| => if HasId(t.rows[i], id) then saved else t.rows[i]);
        Ok((t.(rows := rows), saved))
  }

  /** `deleteUser`: an unknown identity is reported, otherwise its row goes. */
  function DeleteUser(t: LegacyTable, id: nat): (r: Result<LegacyTable, Exc>)
    ensures r.Err? <==> FindById(t, id).None?
    ensures r.Err? ==> r.error == Exc(UsernameNotFound, NotFound + NatToString(id))
    ensures r.Ok? ==> r.value.nextId == t.nextId && forall u :: u in r.value.rows <==> u in t.rows && !HasId(u, id)
  {
    if FindById(t, id).None? then Err(Exc(UsernameNotFound, NotFound + NatToString(id)))
    else Ok(t.(rows := Filter(t.rows, (u: LegacyUser) => !HasId(u, id))))
  }

  /** Deleting is final: the identity is unknown afterwards, so a second
   *  delete is reported. */
  lemma DeleteTwiceFails(t: LegacyTable, id: nat)
    requires DeleteUser(t, id).Ok?
    ensures GetUserById(DeleteUser(t, id).value, id).None?
    ensures DeleteUser(DeleteUser(t, id).value, id).Err?
  {
  }
}
