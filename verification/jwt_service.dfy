/**
 * The current generation's `JwtService`: the signing-key rotation with its
 * in-memory cache, token generation, and token validation.
 */
module JwtService {
  import opened Wrappers
  import opened Errors
  import opened Seqs
  import opened Base64
  import opened Text
  import opened Jwt
  import opened JwtKeys
  import opened JwtKeysRepository
  import JavaMath

  /** A key created by rotation expires 28 days later. */
  const RotationValidityDays := 28

  /** `jwt.token.expiration`'s default, in milliseconds. */
  const DefaultTokenExpiration := 7_200_000

  const NoSigningKey := "No active signing key found in the database!"
  const InvalidToken := "Invalid JWT token"

  /** The key table and `cachedSigningKey` (null until first set). */
  datatype State = State(store: KeyStore, cached: Option<seq<Byte>>)

  /** `cleanupExpiredKeys(now)`: the expired keys are looked up and deleted
   *  in one batch, if there are any. */
  function CleanupExpiredKeys(s: KeyStore, now: int): (r: KeyStore)
    ensures r == DeleteExpiredKeys(s, now)
    ensures forall k | k in r.rows :: !IsExpired(k, now)
  {
    var expired := FindExpiredKeys(s, now);
    if expired == [] then
      FilterAll(s.rows, (k: KeyRecord) => k.expirationDate >= now);
      s
    else
      BatchDeleteOfExpiredKeys(s, now);
      DeleteAllInBatch(s, expired)
  }

  /** The record `createAndStoreNewKey` saves. */
  function RotatedKey(uuid: string, secret: seq<Byte>, now: int): KeyRecord
  {
    KeyRecord(None, uuid, Some(Encode(secret, Standard)), now, now + RotationValidityDays * DayMillis)
  }

  /** `rotateKey`: delete the expired keys; if the newest remaining key is
   *  unexpired, cache its decoding, otherwise save a fresh key (`secret`,
   *  the random HS512 key; `uuid`, its random identifier) and cache it.  The
   *  deletion is committed on its own, so it survives a later failure,
   *  which is returned as the second component. */
  function RotateKey(st: State, now: int, secret: seq<Byte>, uuid: string): (r: (State, Option<Exc>))
    requires |secret| == Hs512KeyBytes
    ensures var cleaned := DeleteExpiredKeys(st.store, now);
            cleaned.rows == [] ==>
              r == (State(KeyStore([RotatedKey(uuid, secret, now).(id := Some(cleaned.nextId))], cleaned.nextId + 1), Some(secret)), None)
    ensures var cleaned := DeleteExpiredKeys(st.store, now);
            cleaned.rows != [] ==>
              var active := FindNewest(cleaned).value;
              && r.0.store == cleaned
              && (r.1.None? <==> DecodeKey(active.secretKey).Ok?)
              && (r.1.None? ==> r.0.cached == Some(DecodeKey(active.secretKey).value))
              && (r.1.Some? ==> r.0.cached == st.cached && r.1.value == DecodeKey(active.secretKey).error)
  {
    var cleaned := CleanupExpiredKeys(st.store, now);
    var newest := FindNewest(cleaned);
    if newest.Some? && !IsExpired(newest.value, now) then
      match DecodeKey(newest.value.secretKey)
      case Ok(key) => (State(cleaned, Some(key)), None)
      case Err(e) => (State(cleaned, st.cached), Some(e))
    else
      var saved := RotatedKey(uuid, secret, now).(id := Some(cleaned.nextId));
      assert cleaned.rows == [] ==> cleaned.rows + [saved] == [saved];
      match Save(cleaned, RotatedKey(uuid, secret, now))
      case Ok(s') => (State(s', Some(secret)), None)
      case Err(e) => (State(cleaned, st.cached), Some(e))
  }

  /** After the cleanup no stored key is expired, so the newest one is never
   *  filtered out: a key is created exactly when no key survives the
   *  cleanup, and the table then holds that key alone. */
  lemma RotationCreatesIffNoKeyLeft(st: State, now: int, secret: seq<Byte>, uuid: string)
    requires |secret| == Hs512KeyBytes
    ensures var r := RotateKey(st, now, secret, uuid);
            (|r.0.store.rows| > |DeleteExpiredKeys(st.store, now).rows|) <==> DeleteExpiredKeys(st.store, now).rows == []
    ensures var r := RotateKey(st, now, secret, uuid);
            forall k | k in r.0.store.rows :: !IsExpired(k, now)
  {
  }

  /** `getSignInKey`: the cached key, else the newest stored key decoded
   *  (and cached), else an `IllegalStateException`.  Expiry is not
   *  checked here. */
  function GetSignInKey(st: State): (r: (State, Result<seq<Byte>, Exc>))
    ensures r.0.store == st.store
    ensures st.cached.Some? ==> r == (st, Ok(st.cached.value))
    ensures st.cached.None? && st.store.rows == [] ==> r == (st, Err(Exc(IllegalState, NoSigningKey)))
    ensures st.cached.None? && st.store.rows != [] ==>
              && r.1 == DecodeKey(FindNewest(st.store).value.secretKey)
              && r.0.cached == (if r.1.Ok? then Some(r.1.value) else None)
    ensures r.1.Err? ==> r.1.error.kind.IllegalState? || r.1.error.kind.NullPointer? || r.1.error.kind.IllegalArgument? || r.1.error.kind.WeakKey?
  {
    match st.cached
    case Some(key) => (st, Ok(key))
    case None =>
      match FindNewest(st.store)
      case None => (st, Err(Exc(IllegalState, NoSigningKey)))
      case Some(active) =>
        match DecodeKey(active.secretKey)
        case Ok(key) => (st.(cached := Some(key)), Ok(key))
        case Err(e) => (st, Err(e))
  }

  /** After a successful rotation the signing key is the decoding of the
   *  newest stored key, and it is the fresh key when one was created: the
   *  cache agrees with the table. */
  lemma RotationCacheAgreesWithStore(st: State, now: int, secret: seq<Byte>, uuid: string)
    requires |secret| == Hs512KeyBytes
    requires RotateKey(st, now, secret, uuid).1.None?
    ensures var st' := RotateKey(st, now, secret, uuid).0;
            && st'.store.rows != []
            && GetSignInKey(st').1 == DecodeKey(FindNewest(st'.store).value.secretKey)
            && (DeleteExpiredKeys(st.store, now).rows == [] ==> GetSignInKey(st').1 == Ok(secret))
  {
    var st' := RotateKey(st, now, secret, uuid).0;
    if DeleteExpiredKeys(st.store, now).rows == [] {
      DecodeKeyInvertsEncoding(secret);
      assert st'.store.rows[0] in st'.store.rows;
    }
  }

  /** The claims `generateToken` signs: the authorities as `roles`, the user
   *  name as subject, the fixed issuer and audience, and issue and
   *  expiration instants truncated to seconds. */
  function TokenClaims(username: string, roles: seq<string>, now: int, tokenExpiration: int): Claims
  {
    Claims(roles, username, Issuer, Audience, JavaMath.Div(now, 1000), JavaMath.Div(now + tokenExpiration, 1000))
  }

  /** `generateToken(userDetails)`. */
  function GenerateToken(st: State, username: string, roles: seq<string>, now: int, tokenExpiration: int): (r: (State, Result<Token, Exc>))
    ensures r.0.store == st.store
    ensures GetSignInKey(st).1.Err? ==> r.1 == Err(GetSignInKey(st).1.error)
    ensures r.1.Ok? ==>
              && GetSignInKey(st).1.Ok?
              && r.1.value == Signed(TokenClaims(username, roles, now, tokenExpiration), GetSignInKey(st).1.value)
              && r.1.value.claims.subject == username && r.1.value.claims.roles == roles
              && r.1.value.claims.issuer == Issuer && r.1.value.claims.audience == Audience
    ensures GetSignInKey(st).1.Ok? ==> (r.1.Ok? <==> |GetSignInKey(st).1.value| >= Hs512KeyBytes)
    ensures r.1.Err? ==> !IsAuthentication(r.1.error.kind)
  {
    var (st1, key) := GetSignInKey(st);
    match key
    case Err(e) => (st1, Err(e))
    case Ok(k) => (st1, Sign(TokenClaims(username, roles, now, tokenExpiration), k))
  }

  /** `parseClaims`: an expired token's exception is rethrown; every other
   *  JJWT exception, a weak stored key included, becomes a plain
   *  `RuntimeException`; anything else propagates unchanged. */
  function ParseClaims(st: State, token: Token, now: int): (r: (State, Result<Claims, Exc>))
    ensures r.0 == GetSignInKey(st).0
    ensures r.1.Ok? <==> GetSignInKey(st).1.Ok? && Parse(token, GetSignInKey(st).1.value, now).Ok?
    ensures r.1.Ok? ==> r.1.value == token.claims
    ensures r.1.Err? ==> r.1.error.kind != ExpiredJwt ==> !IsJwt(r.1.error.kind)
  {
    var (st1, key) := GetSignInKey(st);
    match key
    case Err(e) => (st1, Err(Rethrown(e)))
    case Ok(k) =>
      match Parse(token, k, now)
      case Ok(c) => (st1, Ok(c))
      case Err(e) => (st1, Err(Rethrown(e)))
  }

  /** The `catch` clauses of `parseClaims`. */
  function Rethrown(e: Exc): (r: Exc)
    ensures e.kind == ExpiredJwt ==> r == e
    ensures e.kind != ExpiredJwt && IsJwt(e.kind) ==> r == Exc(Runtime, InvalidToken)
    ensures !IsJwt(e.kind) ==> r == e
  {
    if e.kind == ExpiredJwt then e
    else if IsJwt(e.kind) then Exc(Runtime, InvalidToken)
    else e
  }

  /** The `catch` clauses of `isTokenValid`: JJWT exceptions mean "not
   *  valid", everything else escapes. */
  function Caught(e: Exc): (r: Result<bool, Exc>)
    ensures IsJwt(e.kind) ==> r == Ok(false)
    ensures !IsJwt(e.kind) ==> r == Err(e)
  {
    if IsJwt(e.kind) then Ok(false) else Err(e)
  }

  /** `isTokenValid`, as written: blank is invalid; otherwise the subject must
   *  be the user name and the expiration not before now (each read parses
   *  the token again). */
  function IsTokenValid(st: State, token: Token, username: string, now: int): (r: (State, Result<bool, Exc>))
    ensures IsBlank(token) ==> r == (st, Ok(false))
    ensures r.1 == Ok(true) ==> token.Signed? && token.claims.subject == username && now <= ExpirationMillis(token.claims)
    ensures r.1.Err? ==> !IsJwt(r.1.error.kind)
  {
    if IsBlank(token) then (st, Ok(false))
    else
      var (st1, subject) := ParseClaims(st, token, now);
      match subject
      case Err(e) => (st1, Caught(e))
      case Ok(c) =>
        if c.subject != username then (st1, Ok(false))
        else
          var (st2, expiration) := ParseClaims(st1, token, now);
          match expiration
          case Err(e) => (st2, Caught(e))
          case Ok(c2) => (st2, Ok(!(ExpirationMillis(c2) < now)))
  }

  /** A token generated for a user validates for that user until it
   *  expires, and names the user as its subject. */
  lemma GeneratedTokenIsValid(st: State, username: string, roles: seq<string>, now: int, tokenExpiration: int, later: int)
    requires GenerateToken(st, username, roles, now, tokenExpiration).1.Ok?
    requires later <= ExpirationMillis(TokenClaims(username, roles, now, tokenExpiration))
    ensures var (st1, t) := GenerateToken(st, username, roles, now, tokenExpiration);
            && IsTokenValid(st1, t.value, username, later).1 == Ok(true)
            && ParseClaims(st1, t.value, later).1.Ok?
            && ParseClaims(st1, t.value, later).1.value.subject == username
  {
  }

  /** Finding, as written: a token that is not one of ours (garbage text, or
   *  another key's signature) makes `isTokenValid` throw instead of answer
   *  false, because `parseClaims` has already turned the JJWT exception
   *  into a plain `RuntimeException`. */
  lemma MalformedTokenEscapes(st: State, text: string, username: string, now: int)
    requires st.cached.Some? && !IsJavaBlank(text)
    ensures IsTokenValid(st, Garbage(text), username, now).1 == Err(Exc(Runtime, InvalidToken))
    ensures IsTokenValid(st, Signed(TokenClaims(username, [], now, 0), st.cached.value + [0]), username, now).1
            == Err(Exc(Runtime, InvalidToken))
  {
    var other := st.cached.value + [0];
    assert other != st.cached.value by {
      assert |other| != |st.cached.value|;
    }
  }

  /** `parseClaims` as evidently intended: the JJWT exception is rethrown
   *  unchanged, so `isTokenValid`'s handler sees it. */
  function ParseClaimsIntended(st: State, token: Token, now: int): (r: (State, Result<Claims, Exc>))
    ensures r.0 == GetSignInKey(st).0
    ensures GetSignInKey(st).1.Err? ==> r.1 == Err(GetSignInKey(st).1.error)
    ensures GetSignInKey(st).1.Ok? ==> r.1 == Parse(token, GetSignInKey(st).1.value, now)
  {
    var (st1, key) := GetSignInKey(st);
    match key
    case Err(e) => (st1, Err(e))
    case Ok(k) => (st1, Parse(token, k, now))
  }

  /** `isTokenValid` over the intended `parseClaims`. */
  function IsTokenValidIntended(st: State, token: Token, username: string, now: int): (r: (State, Result<bool, Exc>))
    ensures IsBlank(token) ==> r == (st, Ok(false))
  {
    if IsBlank(token) then (st, Ok(false))
    else
      var (st1, subject) := ParseClaimsIntended(st, token, now);
      match subject
      case Err(e) => (st1, Caught(e))
      case Ok(c) =>
        if c.subject != username then (st1, Ok(false))
        else
          var (st2, expiration) := ParseClaimsIntended(st1, token, now);
          match expiration
          case Err(e) => (st2, Caught(e))
          case Ok(c2) => (st2, Ok(!(ExpirationMillis(c2) < now)))
  }

  /** Corrected: once a usable signing key exists, validation always
   *  answers, and answers true exactly for an unexpired token signed with
   *  that key for that user.  Where the written version answers, both
   *  agree. */
  lemma IntendedValidationAnswers(st: State, token: Token, username: string, now: int)
    requires GetSignInKey(st).1.Ok?
    ensures var key := GetSignInKey(st).1.value;
            IsTokenValidIntended(st, token, username, now).1
              == Ok(!IsBlank(token) && token.Signed? && token.key == key && token.claims.subject == username
                    && now <= ExpirationMillis(token.claims))
    ensures IsTokenValid(st, token, username, now).1.Ok? ==>
              IsTokenValid(st, token, username, now).1 == IsTokenValidIntended(st, token, username, now).1
  {
  }
}
