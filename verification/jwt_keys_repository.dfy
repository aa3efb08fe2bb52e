/**
 * The `jwt_keys` table and the current generation's `JwtKeysRepository`
 * queries over it.
 */
module JwtKeysRepository {
  import opened Wrappers
  import opened Errors
  import opened Seqs
  import opened JwtKeys

  datatype KeyStore = KeyStore(rows: seq<KeyRecord>, nextId: nat)

  function CreatedDate(k: KeyRecord): int { k.createdDate }

  /** `findFirstByOrderByCreatedDateDesc`: a most recently created key. */
  function FindNewest(s: KeyStore): (r: Option<KeyRecord>)
    ensures r.None? <==> s.rows == []
    ensures r.Some? ==> r.value in s.rows && forall k | k in s.rows :: k.createdDate <= r.value.createdDate
  {
    MaxBy(s.rows, CreatedDate)
  }

  /** `findExpiredKeys(threshold)`: `expirationDate < threshold`. */
  function FindExpiredKeys(s: KeyStore, threshold: int): (r: seq<KeyRecord>)
    ensures forall k :: k in r <==> k in s.rows && k.expirationDate < threshold
  {
    Filter(s.rows, (k: KeyRecord) => k.expirationDate < threshold)
  }

  /** `existsValidKey(now)`: some key expires strictly after now. */
  predicate ExistsValidKey(s: KeyStore, now: int)
  {
    exists i | 0 <= i < |s.rows| :: s.rows[i].expirationDate > now
  }

  /** `findLatestValidKeys(now)` without the page bound: the keys expiring
   *  after now, newest first. */
  function FindLatestValidKeys(s: KeyStore, now: int): (r: seq<KeyRecord>)
    ensures multiset(r) == multiset(Filter(s.rows, (k: KeyRecord) => k.expirationDate > now))
    ensures SortedDescBy(r, CreatedDate)
    ensures forall k :: k in r <==> k in s.rows && k.expirationDate > now
  {
    var r := SortDescBy(Filter(s.rows, (k: KeyRecord) => k.expirationDate > now), CreatedDate);
    assert forall k :: k in r <==> k in multiset(r);
    r
  }

  /** The two validity queries agree, and a key expiring exactly at `now`
   *  is neither expired nor valid. */
  lemma ValidQueriesAgree(s: KeyStore, now: int, k: KeyRecord)
    ensures ExistsValidKey(s, now) <==> FindLatestValidKeys(s, now) != []
    ensures k.expirationDate == now ==> k !in FindExpiredKeys(s, now) && k !in FindLatestValidKeys(s, now)
  {
    if ExistsValidKey(s, now) {
      var i :| 0 <= i < |s.rows| && s.rows[i].expirationDate > now;
      assert s.rows[i] in s.rows;
      assert s.rows[i] in FindLatestValidKeys(s, now);
    }
  }

  /** `deleteExpiredKeys(threshold)`: removes exactly the keys
   *  `findExpiredKeys` selects. */
  function DeleteExpiredKeys(s: KeyStore, threshold: int): (r: KeyStore)
    ensures r.nextId == s.nextId
    ensures forall k :: k in r.rows <==> k in s.rows && k.expirationDate >= threshold
    ensures |r.rows| + |FindExpiredKeys(s, threshold)| == |s.rows|
  {
    FilterSplits(s.rows, (k: KeyRecord) => k.expirationDate >= threshold, (k: KeyRecord) => k.expirationDate < threshold);
    s.(rows := Filter(s.rows, (k: KeyRecord) => k.expirationDate >= threshold))
  }

  /** `deleteByKeyId`. */
  function DeleteByKeyId(s: KeyStore, keyId: string): (r: KeyStore)
    ensures r.nextId == s.nextId
    ensures forall k :: k in r.rows <==> k in s.rows && k.keyId != keyId
  {
    s.(rows := Filter(s.rows, (k: KeyRecord) => k.keyId != keyId))
  }

  /** `deleteAllInBatch(batch)`: removes the rows listed in `batch`. */
  function DeleteAllInBatch(s: KeyStore, batch: seq<KeyRecord>): (r: KeyStore)
    ensures r.nextId == s.nextId
    ensures forall k :: k in r.rows <==> k in s.rows && k !in batch
  {
    s.(rows := Filter(s.rows, (k: KeyRecord) => k !in batch))
  }

  /** Deleting the rows `findExpiredKeys` returned is the bulk
   *  `deleteExpiredKeys`. */
  lemma BatchDeleteOfExpiredKeys(s: KeyStore, now: int)
    ensures DeleteAllInBatch(s, FindExpiredKeys(s, now)) == DeleteExpiredKeys(s, now)
  {
    var expired := FindExpiredKeys(s, now);
    FilterCongruent(s.rows, (k: KeyRecord) => k !in expired, (k: KeyRecord) => k.expirationDate >= now);
  }

  /** The message of the unique `keyId` constraint's violation. */
  const DuplicateKeyId := "jwt_keys_key_id_key"

  /** `save` of a new key: the identity column assigns the id; a reused
   *  `keyId` violates the unique constraint. */
  function Save(s: KeyStore, k: KeyRecord): (r: Result<KeyStore, Exc>)
    ensures r.Err? <==> exists i | 0 <= i < |s.rows| :: s.rows[i].keyId == k.keyId
    ensures r.Err? ==> r.error == Exc(DataIntegrityViolation, DuplicateKeyId)
    ensures r.Ok? ==> r.value == KeyStore(s.rows + [k.(id := Some(s.nextId))], s.nextId + 1)
  {
    if exists i | 0 <= i < |s.rows| :: s.rows[i].keyId == k.keyId then Err(Exc(DataIntegrityViolation, DuplicateKeyId))
    else Ok(KeyStore(s.rows + [k.(id := Some(s.nextId))], s.nextId + 1))
  }
}
