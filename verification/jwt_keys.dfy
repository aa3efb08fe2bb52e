/**
 * The current generation's stored JWT signing key.  Instants are
 * milliseconds since the epoch and `now` is the clock reading of the call.
 */
module JwtKeys {
  import opened Wrappers
  import opened Text
  import JavaMath

  const DayMillis: int := 86_400_000

  /** The entity's default expiry: thirty days after construction. */
  const DefaultValidityDays: int := 30

  datatype KeyRecord = KeyRecord(
    id: Option<nat>,
    keyId: string,
    secretKey: Option<string>,
    createdDate: int,
    expirationDate: int)

  /** `new JwtKeys()` at `now`, with `uuid` standing for the random key
   *  identifier; the creation stamp is the same instant. */
  function NewKeyRecord(uuid: string, now: int): (k: KeyRecord)
    ensures k.expirationDate - k.createdDate == DefaultValidityDays * DayMillis
    ensures k.id.None? && k.secretKey.None? && k.keyId == uuid && k.createdDate == now
  {
    KeyRecord(None, uuid, None, now, now + DefaultValidityDays * DayMillis)
  }

  /** `isExpired`: the expiration instant lies strictly before now. */
  predicate IsExpired(k: KeyRecord, now: int)
  {
    k.expirationDate < now
  }

  /** `isValid`: a secret is present and the key has not expired. */
  predicate IsValid(k: KeyRecord, now: int)
  {
    k.secretKey.Some? && !IsExpired(k, now)
  }

  /** A key is unexpired up to and including its expiration instant and
   *  expired for good afterwards. */
  lemma ExpiryIsPermanent(k: KeyRecord, now: int, later: int)
    requires now <= later
    ensures !IsExpired(k, k.expirationDate) && IsExpired(k, k.expirationDate + 1)
    ensures IsExpired(k, now) ==> IsExpired(k, later)
    ensures IsValid(k, later) ==> IsValid(k, now)
  {
  }

  /** `renewKey(days)`: the expiration moves to `days` days after now. */
  function RenewKey(k: KeyRecord, days: int, now: int): (r: KeyRecord)
    ensures r.(expirationDate := k.expirationDate) == k
    ensures r.expirationDate - now == days * DayMillis
    ensures days >= 0 ==> !IsExpired(r, now) && (IsValid(r, now) <==> k.secretKey.Some?)
    ensures days < 0 ==> IsExpired(r, now) && !IsValid(r, now)
  {
    k.(expirationDate := now + days * DayMillis)
  }

  /** `getRemainingValidity`: whole days from now to the expiration,
   *  truncated toward zero. */
  function RemainingValidity(k: KeyRecord, now: int): (days: int)
    ensures k.expirationDate >= now ==> days >= 0 && days * DayMillis <= k.expirationDate - now < (days + 1) * DayMillis
    ensures k.expirationDate < now ==> days <= 0 && (days - 1) * DayMillis < k.expirationDate - now <= days * DayMillis
  {
    JavaMath.Div(k.expirationDate - now, DayMillis)
  }

  /** The remaining validity is negative only once the key has been expired
   *  for a whole day: during its first expired day it still reads zero. */
  lemma RemainingValidityAfterExpiry(k: KeyRecord, now: int)
    ensures RemainingValidity(k, now) < 0 ==> IsExpired(k, now)
    ensures IsExpired(k, now) && now - k.expirationDate < DayMillis ==> RemainingValidity(k, now) == 0
    ensures now - k.expirationDate >= DayMillis ==> RemainingValidity(k, now) < 0
    ensures RenewKey(k, 7, now).expirationDate - now == 7 * DayMillis && RemainingValidity(RenewKey(k, 7, now), now) == 7
  {
    var d := RemainingValidity(k, now);
    if IsExpired(k, now) && now - k.expirationDate < DayMillis {
      assert (d - 1) * DayMillis < k.expirationDate - now;
    }
    var r := RenewKey(k, 7, now);
    var d7 := RemainingValidity(r, now);
    assert d7 * DayMillis <= 7 * DayMillis < (d7 + 1) * DayMillis;
  }

  /** Equality as generated from `keyId` alone. */
  predicate SameKey(a: KeyRecord, b: KeyRecord)
  {
    a.keyId == b.keyId
  }

  /** `toString`; `instant` renders an instant.  The secret is not among the
   *  fields printed. */
  function ToString(k: KeyRecord, now: int, instant: int -> string): (s: string)
    ensures HasPrefix(s, "JwtKeys{id=")
  {
    "JwtKeys{id=" + (if k.id.Some? then NatToString(k.id.value) else "null")
      + ", keyId='" + k.keyId + "'"
      + ", createdDate=" + instant(k.createdDate)
      + ", expirationDate=" + instant(k.expirationDate)
      + ", isExpired=" + (if IsExpired(k, now) then "true" else "false")
      + "}"
  }

  /** Two keys that differ only in their secret print identically, so the
   *  printed form reveals nothing about the secret. */
  lemma ToStringHidesSecret(k: KeyRecord, secret: Option<string>, now: int, instant: int -> string)
    ensures ToString(k.(secretKey := secret), now, instant) == ToString(k, now, instant)
    ensures SameKey(k.(secretKey := secret), k)
  {
  }
}
