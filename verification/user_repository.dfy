/**
 * The `users` table behind the current generation's `UserRepository`: the
 * derived finders, the JPQL bulk updates and deletes, and what `save` does
 * for a new and for an existing entity (identity assignment, the unique
 * e-mail and phone-number columns, the password-hashing hook and the
 * Hibernate timestamps).  Rows are kept in insertion order.
 */
module UserRepository {
  import opened Wrappers
  import opened Errors
  import opened Seqs
  import Roles
  import opened Users

  datatype Table = Table(rows: seq<User>, nextId: nat)

  /** Two phone numbers break the unique column: both present and equal.
   *  SQL lets any number of NULLs through a unique column. */
  predicate PhonesClash(a: Option<string>, b: Option<string>)
  {
    a.Some? && a == b
  }

  /** What the schema guarantees: every row has an identity below the
   *  sequence counter, identities are distinct (primary key), so are
   *  e-mail addresses (`uc_user_email`) and present phone numbers (the
   *  unique `phoneNumber` column). */
  predicate WellFormed(t: Table)
  {
    && (forall i | 0 <= i < |t.rows| :: t.rows[i].id.Some? && t.rows[i].id.value < t.nextId)
    && (forall i, j | 0 <= i < j < |t.rows| :: t.rows[i].id != t.rows[j].id)
    && (forall i, j | 0 <= i < j < |t.rows| :: t.rows[i].email != t.rows[j].email)
    && (forall i, j | 0 <= i < j < |t.rows| :: !PhonesClash(t.rows[i].phoneNumber, t.rows[j].phoneNumber))
  }

  predicate HasId(u: User, id: nat)
  {
    u.id == Some(id)
  }

  /** `findById`. */
  function FindById(t: Table, id: nat): (r: Option<User>)
    ensures r.Some? ==> r.value in t.rows && HasId(r.value, id)
    ensures r.None? <==> forall u | u in t.rows :: !HasId(u, id)
  {
    First(t.rows, (u: User) => HasId(u, id))
  }

  /** In a well-formed table the row with a given identity is the one found. */
  lemma FindByIdUnique(t: Table, i: nat)
    requires WellFormed(t) && i < |t.rows|
    ensures FindById(t, t.rows[i].id.value) == Some(t.rows[i])
  {
    var id := t.rows[i].id.value;
    var r := FindById(t, id);
    assert t.rows[i] in t.rows;
    var j :| 0 <= j < |t.rows| && t.rows[j] == r.value;
  }

  /** `findByEmail`. */
  function FindByEmail(t: Table, email: string): (r: Option<User>)
    ensures r.Some? ==> r.value in t.rows && r.value.email == email
    ensures r.None? <==> forall u | u in t.rows :: u.email != email
  {
    First(t.rows, (u: User) => u.email == email)
  }

  /** In a well-formed table the row with a given e-mail is the one found. */
  lemma FindByEmailUnique(t: Table, i: nat)
    requires WellFormed(t) && i < |t.rows|
    ensures FindByEmail(t, t.rows[i].email) == Some(t.rows[i])
  {
    var r := FindByEmail(t, t.rows[i].email);
    assert t.rows[i] in t.rows;
    var j :| 0 <= j < |t.rows| && t.rows[j] == r.value;
  }

  /** `existsByEmail`. */
  predicate ExistsByEmail(t: Table, email: string)
  {
    exists i | 0 <= i < |t.rows| :: t.rows[i].email == email
  }

  /** The two derived queries agree. */
  lemma ExistsByEmailIffFound(t: Table, email: string)
    ensures ExistsByEmail(t, email) <==> FindByEmail(t, email).Some?
  {
    if ExistsByEmail(t, email) {
      var i :| 0 <= i < |t.rows| && t.rows[i].email == email;
      assert t.rows[i] in t.rows;
    }
  }

  /** `findByRole` (unpaged). */
  function FindByRole(t: Table, role: Roles.Role): (r: seq<User>)
    ensures forall u :: u in r <==> u in t.rows && u.role == Some(role)
  {
    Filter(t.rows, (u: User) => u.role == Some(role))
  }

  /** `lastLogin < :threshold`; a null `lastLogin` compares as unknown, so the
   *  row is not selected. */
  predicate Inactive(u: User, threshold: int)
  {
    u.lastLogin.Some? && u.lastLogin.value < threshold
  }

  /** `findInactiveUsers`. */
  function FindInactiveUsers(t: Table, threshold: int): (r: seq<User>)
    ensures forall u :: u in r <==> u in t.rows && Inactive(u, threshold)
    ensures forall u | u in r :: u.lastLogin.Some?
  {
    Filter(t.rows, (u: User) => Inactive(u, threshold))
  }

  /** `findLockedUsers`. */
  function FindLockedUsers(t: Table): (r: seq<User>)
    ensures forall u :: u in r <==> u in t.rows && u.locked
  {
    Filter(t.rows, (u: User) => u.locked)
  }

  /** A JPQL `UPDATE ... SET ... WHERE p`: the rows satisfying `p` are
   *  rewritten by `f`, the others and the row order are kept. */
  function UpdateWhere(rows: seq<User>, p: User -> bool, f: User -> User): (r: seq<User>)
    ensures |r| == |rows|
    ensures forall i | 0 <= i < |rows| :: r[i] == if p(rows[i]) then f(rows[i]) else rows[i]
  {
    seq(|rows|, i requires 0 <= i < |rows| => if p(rows[i]) then f(rows[i]) else rows[i])
  }

  /** `toggleLockStatusById`: flips `locked` of that row only. */
  function ToggleLockStatusById(t: Table, id: nat): (r: Table)
    ensures r.nextId == t.nextId && |r.rows| == |t.rows|
    ensures forall i | 0 <= i < |t.rows| && HasId(t.rows[i], id) ::
              r.rows[i] == t.rows[i].(locked := !t.rows[i].locked)
    ensures forall i | 0 <= i < |t.rows| && !HasId(t.rows[i], id) :: r.rows[i] == t.rows[i]
  {
    t.(rows := UpdateWhere(t.rows, (u: User) => HasId(u, id), (u: User) => u.(locked := !u.locked)))
  }

  /** Flipping twice restores the table. */
  lemma ToggleTwiceRestores(t: Table, id: nat)
    ensures ToggleLockStatusById(ToggleLockStatusById(t, id), id) == t
  {
    var r := ToggleLockStatusById(ToggleLockStatusById(t, id), id);
    assert r.rows == t.rows;
  }

  /** `updateLastLogin`: sets `lastLogin` of that row only. */
  function UpdateLastLogin(t: Table, id: nat, at: int): (r: Table)
    ensures r.nextId == t.nextId && |r.rows| == |t.rows|
    ensures forall i | 0 <= i < |t.rows| && HasId(t.rows[i], id) ::
              r.rows[i] == t.rows[i].(lastLogin := Some(at))
    ensures forall i | 0 <= i < |t.rows| && !HasId(t.rows[i], id) :: r.rows[i] == t.rows[i]
  {
    t.(rows := UpdateWhere(t.rows, (u: User) => HasId(u, id), (u: User) => u.(lastLogin := Some(at))))
  }

  /** `updateUserRole`: sets `role` of that row only. */
  function UpdateUserRole(t: Table, id: nat, role: Roles.Role): (r: Table)
    ensures r.nextId == t.nextId && |r.rows| == |t.rows|
    ensures forall i | 0 <= i < |t.rows| && HasId(t.rows[i], id) ::
              r.rows[i] == t.rows[i].(role := Some(role))
    ensures forall i | 0 <= i < |t.rows| && !HasId(t.rows[i], id) :: r.rows[i] == t.rows[i]
  {
    t.(rows := UpdateWhere(t.rows, (u: User) => HasId(u, id), (u: User) => u.(role := Some(role))))
  }

  /** `lockInactiveUsers`: locks exactly the rows `findInactiveUsers` selects. */
  function LockInactiveUsers(t: Table, threshold: int): (r: Table)
    ensures r.nextId == t.nextId && |r.rows| == |t.rows|
    ensures forall i | 0 <= i < |t.rows| && Inactive(t.rows[i], threshold) ::
              r.rows[i] == t.rows[i].(locked := true)
    ensures forall i | 0 <= i < |t.rows| && !Inactive(t.rows[i], threshold) :: r.rows[i] == t.rows[i]
  {
    t.(rows := UpdateWhere(t.rows, (u: User) => Inactive(u, threshold), (u: User) => u.(locked := true)))
  }

  /** After the bulk lock every inactive user is among the locked ones. */
  lemma LockedAfterLockInactive(t: Table, threshold: int)
    ensures forall u | u in FindInactiveUsers(LockInactiveUsers(t, threshold), threshold) :: u.locked
    ensures forall u | u in FindLockedUsers(t) :: u in FindLockedUsers(LockInactiveUsers(t, threshold))
  {
    var r := LockInactiveUsers(t, threshold);
    forall u | u in FindLockedUsers(t) ensures u in r.rows {
      var i :| 0 <= i < |t.rows| && t.rows[i] == u;
      assert r.rows[i] == u;
    }
    forall u | u in FindInactiveUsers(r, threshold) ensures u.locked {
      var i :| 0 <= i < |r.rows| && r.rows[i] == u;
    }
  }

  /** `deleteInactiveUsers`: keeps exactly the rows that are not inactive. */
  function DeleteInactiveUsers(t: Table, threshold: int): (r: Table)
    ensures r.nextId == t.nextId
    ensures forall u :: u in r.rows <==> u in t.rows && !Inactive(u, threshold)
    ensures |r.rows| + |FindInactiveUsers(t, threshold)| == |t.rows|
  {
    FilterSplits(t.rows, (u: User) => !Inactive(u, threshold), (u: User) => Inactive(u, threshold));
    t.(rows := Filter(t.rows, (u: User) => !Inactive(u, threshold)))
  }

  /** Nothing inactive is left afterwards, and a user who never logged in
   *  always survives. */
  lemma NoInactiveAfterDelete(t: Table, threshold: int, u: User)
    ensures FindInactiveUsers(DeleteInactiveUsers(t, threshold), threshold) == []
    ensures u in t.rows && u.lastLogin.None? ==> u in DeleteInactiveUsers(t, threshold).rows
  {
  }

  /** The message of the `DataIntegrityViolationException` the unique
   *  constraint raises. */
  const DuplicateEmail := "uc_user_email"

  /** The column the `DataIntegrityViolationException` of a repeated phone
   *  number names (the generated name of its constraint is not modelled). */
  const DuplicatePhone := "phone_number"

  /** Some row has the phone number; an absent number never clashes. */
  predicate PhoneTaken(t: Table, phone: Option<string>)
  {
    exists i | 0 <= i < |t.rows| :: PhonesClash(phone, t.rows[i].phoneNumber)
  }

  /** The message of the `ConstraintViolationException` an insert that
   *  breaks the entity's constraints raises (the list of violations that
   *  follows it is not modelled). */
  const InvalidOnPersist := "Validation failed for classes [com.personal.portfolio.model.User] during persist time"
  /** The message of the `TransactionSystemException` a commit raises when
   *  the flushed update breaks the entity's constraints. */
  const CommitFailed := "Could not commit JPA transaction"

  /** `save` of a new entity (null id): the hook hashes the password; the
   *  result must meet the entity's constraints (checked before the row is
   *  written), its e-mail must be free and so must its phone number, if it
   *  has one; the identity comes from the sequence and both timestamps are
   *  set to now.  When both unique columns clash, the e-mail's violation
   *  is the one reported. */
  function Persist(t: Table, u: User, encode: string -> string, isEmail: string -> bool, isUrl: string -> bool, now: int): (r: Result<(Table, User), Exc>)
    ensures r.Err? <==> !MeetsConstraints(isEmail, isUrl, HashPassword(u, encode)) || ExistsByEmail(t, u.email) || PhoneTaken(t, u.phoneNumber)
    ensures !MeetsConstraints(isEmail, isUrl, HashPassword(u, encode)) ==> r == Err(Exc(ConstraintViolation, InvalidOnPersist))
    ensures MeetsConstraints(isEmail, isUrl, HashPassword(u, encode)) && ExistsByEmail(t, u.email) ==>
              r == Err(Exc(DataIntegrityViolation, DuplicateEmail))
    ensures MeetsConstraints(isEmail, isUrl, HashPassword(u, encode)) && !ExistsByEmail(t, u.email) && PhoneTaken(t, u.phoneNumber) ==>
              r == Err(Exc(DataIntegrityViolation, DuplicatePhone))
    ensures r.Ok? ==>
              var (t', saved) := r.value;
              && t'.rows == t.rows + [saved]
              && saved == HashPassword(u, encode).(id := Some(t.nextId), createdAt := now, updatedAt := now)
              && t'.nextId == t.nextId + 1
    ensures r.Ok? && WellFormed(t) ==> WellFormed(r.value.0) && FindById(r.value.0, t.nextId) == Some(r.value.1)
  {
    if !MeetsConstraints(isEmail, isUrl, HashPassword(u, encode)) then Err(Exc(ConstraintViolation, InvalidOnPersist))
    else if ExistsByEmail(t, u.email) then Err(Exc(DataIntegrityViolation, DuplicateEmail))
    else if PhoneTaken(t, u.phoneNumber) then Err(Exc(DataIntegrityViolation, DuplicatePhone))
    else
      var saved := HashPassword(u, encode).(id := Some(t.nextId), createdAt := now, updatedAt := now);
      var t' := Table(t.rows + [saved], t.nextId + 1);
      assert WellFormed(t) ==> WellFormed(t') by {
        if WellFormed(t) {
          forall i, j | 0 <= i < j < |t'.rows|
            ensures t'.rows[i].email != t'.rows[j].email && !PhonesClash(t'.rows[i].phoneNumber, t'.rows[j].phoneNumber)
          {
            if j == |t.rows| {
              assert t'.rows[i] == t.rows[i];
            }
          }
        }
      }
      assert WellFormed(t) ==> FindById(t', t.nextId) == Some(saved) by {
        if WellFormed(t) {
          FindByIdUnique(t', |t.rows|);
        }
      }
      Ok((t', saved))
  }

  /** Some row other than the one with identity `id` uses `email`. */
  predicate EmailTakenByOther(t: Table, email: string, id: nat)
  {
    exists i | 0 <= i < |t.rows| :: t.rows[i].email == email && !HasId(t.rows[i], id)
  }

  /** Some row other than the one with identity `id` has the phone number. */
  predicate PhoneTakenByOther(t: Table, phone: Option<string>, id: nat)
  {
    exists i | 0 <= i < |t.rows| :: PhonesClash(phone, t.rows[i].phoneNumber) && !HasId(t.rows[i], id)
  }

  /** `save` of an entity loaded from the table: the hook hashes the
   *  password; at the commit of `save`'s transaction the update must meet
   *  the entity's constraints (a violation makes the commit fail) and
   *  neither the e-mail nor the phone number may belong to another row;
   *  `createdAt` is not updatable and `updatedAt` is set to now.  Only that
   *  row changes. */
  function Merge(t: Table, u: User, encode: string -> string, isEmail: string -> bool, isUrl: string -> bool, now: int): (r: Result<(Table, User), Exc>)
    requires u.id.Some? && FindById(t, u.id.value).Some?
    ensures r.Err? <==> !MeetsConstraints(isEmail, isUrl, HashPassword(u, encode)) || EmailTakenByOther(t, u.email, u.id.value)
                        || PhoneTakenByOther(t, u.phoneNumber, u.id.value)
    ensures !MeetsConstraints(isEmail, isUrl, HashPassword(u, encode)) ==> r == Err(Exc(TransactionSystem, CommitFailed))
    ensures MeetsConstraints(isEmail, isUrl, HashPassword(u, encode)) && EmailTakenByOther(t, u.email, u.id.value) ==>
              r == Err(Exc(DataIntegrityViolation, DuplicateEmail))
    ensures MeetsConstraints(isEmail, isUrl, HashPassword(u, encode)) && !EmailTakenByOther(t, u.email, u.id.value)
              && PhoneTakenByOther(t, u.phoneNumber, u.id.value) ==>
              r == Err(Exc(DataIntegrityViolation, DuplicatePhone))
    ensures r.Ok? ==>
              var (t', saved) := r.value;
              && saved == HashPassword(u, encode).(createdAt := FindById(t, u.id.value).value.createdAt, updatedAt := now)
              && t'.nextId == t.nextId && |t'.rows| == |t.rows|
              && (forall i | 0 <= i < |t.rows| :: t'.rows[i] == if HasId(t.rows[i], u.id.value) then saved else t.rows[i])
    ensures r.Ok? && WellFormed(t) ==> WellFormed(r.value.0) && FindById(r.value.0, u.id.value) == Some(r.value.1)
  {
    var id := u.id.value;
    if !MeetsConstraints(isEmail, isUrl, HashPassword(u, encode)) then Err(Exc(TransactionSystem, CommitFailed))
    else if EmailTakenByOther(t, u.email, id) then Err(Exc(DataIntegrityViolation, DuplicateEmail))
    else if PhoneTakenByOther(t, u.phoneNumber, id) then Err(Exc(DataIntegrityViolation, DuplicatePhone))
    else
      var saved := HashPassword(u, encode).(createdAt := FindById(t, id).value.createdAt, updatedAt := now);
      ReplaceRowKeepsWellFormed(t, id, saved);
      Ok((ReplaceRow(t, id, saved), saved))
  }

  function ReplaceRow(t: Table, id: nat, saved: User): (r: Table)
  {
    t.(rows := UpdateWhere(t.rows, (row: User) => HasId(row, id), (row: User) => saved))
  }

  lemma ReplaceRowKeepsWellFormed(t: Table, id: nat, saved: User)
    requires HasId(saved, id) && FindById(t, id).Some? && !EmailTakenByOther(t, saved.email, id)
    requires !PhoneTakenByOther(t, saved.phoneNumber, id)
    ensures WellFormed(t) ==> WellFormed(ReplaceRow(t, id, saved)) && FindById(ReplaceRow(t, id, saved), id) == Some(saved)
  {
    var t' := ReplaceRow(t, id, saved);
    if WellFormed(t) {
      forall i, j | 0 <= i < j < |t'.rows|
        ensures t'.rows[i].email != t'.rows[j].email && !PhonesClash(t'.rows[i].phoneNumber, t'.rows[j].phoneNumber)
      {
        if HasId(t.rows[i], id) {
          assert !HasId(t.rows[j], id);
        }
      }
      var k :| 0 <= k < |t.rows| && t.rows[k] == FindById(t, id).value;
      FindByIdUnique(t', k);
    }
  }

  /** `delete` / `deleteById`: removes the row with that identity only. */
  function Delete(t: Table, id: nat): (r: Table)
    ensures r.nextId == t.nextId
    ensures forall u :: u in r.rows <==> u in t.rows && !HasId(u, id)
    ensures FindById(r, id).None?
    ensures WellFormed(t) ==> WellFormed(r)
  {
    var r := t.(rows := Filter(t.rows, (u: User) => !HasId(u, id)));
    assert WellFormed(t) ==> WellFormed(r) by {
      if WellFormed(t) {
        FilterKeepsDistinct(t.rows, (u: User) => !HasId(u, id));
      }
    }
    r
  }

  /** No two rows share an identity, an e-mail address or a phone number. */
  predicate DistinctKeys(rows: seq<User>)
  {
    (forall i, j | 0 <= i < j < |rows| :: rows[i].id != rows[j].id)
    && (forall i, j | 0 <= i < j < |rows| :: rows[i].email != rows[j].email)
    && (forall i, j | 0 <= i < j < |rows| :: !PhonesClash(rows[i].phoneNumber, rows[j].phoneNumber))
  }

  /** Neither row's keys clash with the other's. */
  predicate KeysDiffer(x: User, y: User)
  {
    x.id != y.id && x.email != y.email && !PhonesClash(x.phoneNumber, y.phoneNumber)
  }

  /** Removing rows keeps identities, e-mail addresses and phone numbers
   *  distinct. */
  lemma {:induction false} FilterKeepsDistinct(rows: seq<User>, p: User -> bool)
    requires DistinctKeys(rows)
    ensures DistinctKeys(Filter(rows, p))
  {
    if rows != [] {
      assert DistinctKeys(rows[1..]) by {
        TailDistinct(rows);
      }
      FilterKeepsDistinct(rows[1..], p);
      if p(rows[0]) {
        HeadDiffers(rows);
        ConsDistinct(rows[0], Filter(rows[1..], p));
      }
    }
  }

  lemma TailDistinct(rows: seq<User>)
    requires rows != [] && DistinctKeys(rows)
    ensures DistinctKeys(rows[1..])
  {
    forall i, j | 0 <= i < j < |rows| - 1 ensures KeysDiffer(rows[1..][i], rows[1..][j]) {
      assert rows[1..][i] == rows[i + 1] && rows[1..][j] == rows[j + 1];
    }
  }

  /** The first row shares its keys with no later row. */
  lemma HeadDiffers(rows: seq<User>)
    requires rows != [] && DistinctKeys(rows)
    ensures forall x | x in rows[1..] :: KeysDiffer(rows[0], x)
  {
    forall x | x in rows[1..] ensures KeysDiffer(rows[0], x) {
      var k :| 0 <= k < |rows[1..]| && rows[1..][k] == x;
      assert rows[k + 1] == x;
    }
  }

  /** A row whose keys no other row has can be put in front. */
  lemma ConsDistinct(h: User, tail: seq<User>)
    requires DistinctKeys(tail)
    requires forall x | x in tail :: KeysDiffer(h, x)
    ensures DistinctKeys([h] + tail)
  {
    var r := [h] + tail;
    forall i, j | 0 <= i < j < |r| ensures KeysDiffer(r[i], r[j]) {
      assert r[j] == tail[j - 1];
      if i == 0 {
        assert tail[j - 1] in tail;
      } else {
        assert r[i] == tail[i - 1];
      }
    }
  }
}
