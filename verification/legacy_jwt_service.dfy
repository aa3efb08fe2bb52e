/**
 * The first generation's `JwtService` with its key entity folded in: no
 * cache (every signature re-reads the newest stored key), a key whose
 * expiration may be unset, and JJWT exceptions rethrown unchanged so that
 * validation answers false for them.
 */
module LegacyJwtService {
  import opened Wrappers
  import opened Errors
  import opened Seqs
  import opened Base64
  import opened Text
  import opened Jwt
  import JavaMath
  import JwtKeys

  const RotationValidityDays := 28
  const NoActiveKey := "No active key found!"
  const NoExpiration := "Expiration date is not set."
  const GenerationFailed := "Error generating JWT token"
  const DuplicateKeyId := "jwt_keys_key_id_key"

  datatype LegacyKey = LegacyKey(
    id: Option<nat>,
    keyId: string,
    secretKey: string,
    createdDate: int,
    expirationDate: Option<int>)

  datatype LegacyKeyStore = LegacyKeyStore(rows: seq<LegacyKey>, nextId: nat)

  /** The entity's `isExpired`: an unset expiration throws. */
  function IsExpired(k: LegacyKey, now: int): (r: Result<bool, Exc>)
    ensures r.Err? <==> k.expirationDate.None?
    ensures r.Err? ==> r.error == Exc(IllegalState, NoExpiration)
    ensures r.Ok? ==> (r.value <==> k.expirationDate.value < now)
  {
    match k.expirationDate
    case None => Err(Exc(IllegalState, NoExpiration))
    case Some(exp) => Ok(exp < now)
  }

  /** `findExpiredKeys(t)`: an unset expiration compares as unknown in SQL,
   *  so such a key is never selected. */
  predicate ExpiredBefore(k: LegacyKey, threshold: int)
  {
    k.expirationDate.Some? && k.expirationDate.value < threshold
  }

  function CreatedDate(k: LegacyKey): int { k.createdDate }

  /** `findTopByOrderByCreatedDateDesc`.  The same query as
   *  `JwtKeysRepository.FindNewest`, restated because the legacy table
   *  holds its own key entity (an expiration that may be unset); both
   *  delegate to `Seqs.MaxBy`. */
  function FindTop(s: LegacyKeyStore): (r: Option<LegacyKey>)
    ensures r.None? <==> s.rows == []
    ensures r.Some? ==> r.value in s.rows && forall k | k in s.rows :: k.createdDate <= r.value.createdDate
  {
    MaxBy(s.rows, CreatedDate)
  }

  /** The expired keys looked up and deleted in one batch, if any. */
  function Cleanup(s: LegacyKeyStore, now: int): (r: LegacyKeyStore)
    ensures r.nextId == s.nextId
    ensures forall k :: k in r.rows <==> k in s.rows && !ExpiredBefore(k, now)
  {
    var expired := Filter(s.rows, (k: LegacyKey) => ExpiredBefore(k, now));
    if expired == [] then s
    else s.(rows := Filter(s.rows, (k: LegacyKey) => k !in expired))
  }

  /** The key rotation saves. */
  function NewKey(uuid: string, secret: seq<Byte>, now: int): LegacyKey
  {
    LegacyKey(None, uuid, Encode(secret, Standard), now, Some(now + RotationValidityDays * JwtKeys.DayMillis))
  }

  /** `rotateKey`: delete the expired keys, then save a fresh key if the
   *  newest remaining key is absent or expired.  The deletion stays
   *  committed when the expiry check or the save throws; that exception is
   *  the second component. */
  function RotateKey(s: LegacyKeyStore, now: int, secret: seq<Byte>, uuid: string): (r: (LegacyKeyStore, Option<Exc>))
    requires |secret| == Hs512KeyBytes
    ensures var cleaned := Cleanup(s, now);
            cleaned.rows == [] ==>
              r == (LegacyKeyStore([NewKey(uuid, secret, now).(id := Some(cleaned.nextId))], cleaned.nextId + 1), None)
    ensures var cleaned := Cleanup(s, now);
            cleaned.rows != [] ==>
              && r.0 == cleaned
              && (r.1.Some? <==> FindTop(cleaned).value.expirationDate.None?)
              && (r.1.Some? ==> r.1.value == Exc(IllegalState, NoExpiration))
  {
    var cleaned := Cleanup(s, now);
    var saved := NewKey(uuid, secret, now).(id := Some(cleaned.nextId));
    assert cleaned.rows == [] ==> cleaned.rows + [saved] == [saved];
    match FindTop(cleaned)
    case None => SaveNew(cleaned, NewKey(uuid, secret, now))
    case Some(active) =>
      match IsExpired(active, now)
      case Err(e) => (cleaned, Some(e))
      case Ok(true) => SaveNew(cleaned, NewKey(uuid, secret, now))
      case Ok(false) => (cleaned, None)
  }

  /** `save` of a new key; a reused `keyId` violates the unique column. */
  function SaveNew(s: LegacyKeyStore, k: LegacyKey): (r: (LegacyKeyStore, Option<Exc>))
    ensures r.1.Some? <==> exists i | 0 <= i < |s.rows| :: s.rows[i].keyId == k.keyId
    ensures r.1.Some? ==> r == (s, Some(Exc(DataIntegrityViolation, DuplicateKeyId)))
    ensures r.1.None? ==> r.0 == LegacyKeyStore(s.rows + [k.(id := Some(s.nextId))], s.nextId + 1)
  {
    if exists i | 0 <= i < |s.rows| :: s.rows[i].keyId == k.keyId then (s, Some(Exc(DataIntegrityViolation, DuplicateKeyId)))
    else (LegacyKeyStore(s.rows + [k.(id := Some(s.nextId))], s.nextId + 1), None)
  }

  /** A new key is saved exactly when no key survives the cleanup: a
   *  surviving key with an expiration is unexpired, and one without makes
   *  the expiry check throw. */
  lemma RotationSavesIffNoKeyLeft(s: LegacyKeyStore, now: int, secret: seq<Byte>, uuid: string)
    requires |secret| == Hs512KeyBytes
    ensures var r := RotateKey(s, now, secret, uuid);
            (|r.0.rows| > |Cleanup(s, now).rows|) <==> Cleanup(s, now).rows == []
  {
  }

  /** `getSignInKey`: the newest stored key, decoded, on every call. */
  function GetSignInKey(s: LegacyKeyStore): (r: Result<seq<Byte>, Exc>)
    ensures s.rows == [] ==> r == Err(Exc(IllegalState, NoActiveKey))
    ensures s.rows != [] ==> r == DecodeKey(Some(FindTop(s).value.secretKey))
  {
    match FindTop(s)
    case None => Err(Exc(IllegalState, NoActiveKey))
    case Some(active) => DecodeKey(Some(active.secretKey))
  }

  /** After a rotation that saved a key, signing uses that key. */
  lemma RotationThenSignInKey(s: LegacyKeyStore, now: int, secret: seq<Byte>, uuid: string)
    requires |secret| == Hs512KeyBytes && Cleanup(s, now).rows == []
    ensures GetSignInKey(RotateKey(s, now, secret, uuid).0) == Ok(secret)
  {
    var s' := RotateKey(s, now, secret, uuid).0;
    assert s'.rows[0] in s'.rows;
    DecodeKeyInvertsEncoding(secret);
  }

  /** `parseClaims`: both handlers rethrow, so JJWT exceptions reach the
   *  callers unchanged. */
  function ParseClaims(s: LegacyKeyStore, token: Token, now: int): (r: Result<Claims, Exc>)
    ensures GetSignInKey(s).Err? ==> r == Err(GetSignInKey(s).error)
    ensures GetSignInKey(s).Ok? ==> r == Parse(token, GetSignInKey(s).value, now)
  {
    match GetSignInKey(s)
    case Err(e) => Err(e)
    case Ok(key) => Parse(token, key, now)
  }

  /** `isTokenExpired`: an expired token's exception means "expired";
   *  other exceptions propagate. */
  function IsTokenExpired(s: LegacyKeyStore, token: Token, now: int): (r: Result<bool, Exc>)
    ensures GetSignInKey(s).Ok? ==> r.Ok? || IsJwt(r.error.kind)
    ensures GetSignInKey(s).Ok? && token.Signed? && token.key == GetSignInKey(s).value ==>
              r == Ok(ExpirationMillis(token.claims) < now)
  {
    match ParseClaims(s, token, now)
    case Ok(c) => Ok(ExpirationMillis(c) < now)
    case Err(e) => if e.kind == ExpiredJwt then Ok(true) else Err(e)
  }

  /** `isTokenValid`: a null or blank token is invalid; JJWT exceptions
   *  mean invalid; others (no key, a key that does not decode) escape. */
  function IsTokenValid(s: LegacyKeyStore, token: Option<Token>, username: string, now: int): (r: Result<bool, Exc>)
    ensures token.None? || IsBlank(token.value) ==> r == Ok(false)
    ensures GetSignInKey(s).Err? && token.Some? && !IsBlank(token.value) ==>
              r.Err? || (IsJwt(GetSignInKey(s).error.kind) && r == Ok(false))
  {
    if token.None? || IsBlank(token.value) then Ok(false)
    else
      match ParseClaims(s, token.value, now)
      case Err(e) => if IsJwt(e.kind) then Ok(false) else Err(e)
      case Ok(c) =>
        if c.subject != username then Ok(false)
        else
          match IsTokenExpired(s, token.value, now)
          case Ok(expired) => Ok(!expired)
          case Err(e) => if IsJwt(e.kind) then Ok(false) else Err(e)
  }

  /** With a usable key, validation always answers, and answers true
   *  exactly for an unexpired token signed with that key for that user. */
  lemma ValidationAnswers(s: LegacyKeyStore, token: Token, username: string, now: int)
    requires GetSignInKey(s).Ok?
    ensures IsTokenValid(s, Some(token), username, now)
              == Ok(!IsBlank(token) && token.Signed? && token.key == GetSignInKey(s).value
                    && token.claims.subject == username && now <= ExpirationMillis(token.claims))
  {
  }

  /** `generateToken`: a JJWT exception (a weak key) is wrapped in a
   *  `RuntimeException`; a missing key propagates as it is. */
  function GenerateToken(s: LegacyKeyStore, username: string, roles: seq<string>, now: int, tokenExpiration: int): (r: Result<Token, Exc>)
    ensures GetSignInKey(s).Err? ==>
              r == Err(if IsJwt(GetSignInKey(s).error.kind) then Exc(Runtime, GenerationFailed) else GetSignInKey(s).error)
    ensures GetSignInKey(s).Ok? && |GetSignInKey(s).value| < Hs512KeyBytes ==> r == Err(Exc(Runtime, GenerationFailed))
    ensures r.Ok? ==>
              && r.value.Signed? && r.value.key == GetSignInKey(s).value
              && r.value.claims == Claims(roles, username, Issuer, Audience, JavaMath.Div(now, 1000), JavaMath.Div(now + tokenExpiration, 1000))
  {
    var claims := Claims(roles, username, Issuer, Audience, JavaMath.Div(now, 1000), JavaMath.Div(now + tokenExpiration, 1000));
    match GetSignInKey(s)
    case Err(e) => Err(if IsJwt(e.kind) then Exc(Runtime, GenerationFailed) else e)
    case Ok(key) =>
      match Sign(claims, key)
      case Ok(t) => Ok(t)
      case Err(_) => Err(Exc(Runtime, GenerationFailed))
  }

  /** A token generated for a user validates for that user until its
   *  expiration, as long as the key table is unchanged. */
  lemma GeneratedTokenIsValid(s: LegacyKeyStore, username: string, roles: seq<string>, now: int, tokenExpiration: int, later: int)
    requires GenerateToken(s, username, roles, now, tokenExpiration).Ok?
    requires later <= ExpirationMillis(GenerateToken(s, username, roles, now, tokenExpiration).value.claims)
    ensures IsTokenValid(s, Some(GenerateToken(s, username, roles, now, tokenExpiration).value), username, later) == Ok(true)
  {
    ValidationAnswers(s, GenerateToken(s, username, roles, now, tokenExpiration).value, username, later);
  }
}
