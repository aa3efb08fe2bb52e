/**
 * JSON Web Tokens as the backend builds and parses them with JJWT, kept as
 * claim records: signing attaches the key, parsing compares keys instead of
 * checking an HMAC.  Dates inside a token are whole seconds, as JJWT stores
 * them; instants outside are milliseconds.
 */
module Jwt {
  import opened Wrappers
  import opened Errors
  import opened Text
  import opened Base64

  datatype Claims = Claims(
    roles: seq<string>,
    subject: string,
    issuer: string,
    audience: string,
    issuedAt: int,
    expiration: int)

  /** A compact token: either one this service signed, or any other text
   *  (malformed, truncated, tampered with). */
  datatype Token = Signed(claims: Claims, key: seq<Byte>) | Garbage(text: string)

  /** The issuer and audience both generations stamp into their tokens. */
  const Issuer := "Khova Krishna Pilato"
  const Audience := "com.personal.portfolio"

  /** `Keys.hmacShaKeyFor` rejects keys shorter than 256 bits. */
  const MinHmacKeyBytes := 32

  /** HS512 signing needs a 512-bit key; `Keys.secretKeyFor(HS512)` makes
   *  one of exactly that size. */
  const Hs512KeyBytes := 64

  /** The text of a token is blank (a signed token never is). */
  predicate IsBlank(t: Token)
  {
    t.Garbage? && IsJavaBlank(t.text)
  }

  /** `Keys.hmacShaKeyFor(Base64.getDecoder().decode(encoded))`; a null
   *  string makes the decoder throw. */
  function DecodeKey(encoded: Option<string>): (r: Result<seq<Byte>, Exc>)
    ensures encoded.None? ==> r.Err? && r.error.kind == NullPointer
    ensures encoded.Some? && Decode(encoded.value, Standard).None? ==> r.Err? && r.error.kind == IllegalArgument
    ensures encoded.Some? && Decode(encoded.value, Standard).Some? ==>
              if |Decode(encoded.value, Standard).value| < MinHmacKeyBytes then r.Err? && r.error.kind == WeakKey
              else r == Ok(Decode(encoded.value, Standard).value)
  {
    match encoded
    case None => Err(Exc(NullPointer, "src"))
    case Some(s) =>
      match Decode(s, Standard)
      case None => Err(Exc(IllegalArgument, "Illegal base64 character"))
      case Some(bytes) =>
        if |bytes| < MinHmacKeyBytes then Err(Exc(WeakKey, "The specified key byte array is not secure enough for any JWT HMAC-SHA algorithm"))
        else Ok(bytes)
  }

  /** Decoding inverts the standard Base64 encoding under which keys are
   *  stored. */
  lemma DecodeKeyInvertsEncoding(bytes: seq<Byte>)
    requires |bytes| >= MinHmacKeyBytes
    ensures DecodeKey(Some(Encode(bytes, Standard))) == Ok(bytes)
  {
    DecodeEncode(bytes, Standard);
  }

  /** `signWith(key, HS512).compact()`. */
  function Sign(claims: Claims, key: seq<Byte>): (r: Result<Token, Exc>)
    ensures r.Ok? <==> |key| >= Hs512KeyBytes
    ensures r.Ok? ==> r.value == Signed(claims, key) && !IsBlank(r.value)
    ensures r.Err? ==> r.error.kind == WeakKey
  {
    if |key| < Hs512KeyBytes then Err(Exc(WeakKey, "The signing key's size is not secure enough for the HS512 algorithm"))
    else Ok(Signed(claims, key))
  }

  /** The expiration as `Claims.getExpiration()` returns it, in milliseconds. */
  function ExpirationMillis(c: Claims): int
  {
    c.expiration * 1000
  }

  /** `parseClaimsJws` with verification key `key` at instant `now`: text that
   *  is no signed token is malformed, another key's signature does not
   *  verify, and a token past its expiration is rejected as expired. */
  function Parse(t: Token, key: seq<Byte>, now: int): (r: Result<Claims, Exc>)
    ensures r.Ok? <==> t.Signed? && t.key == key && now <= ExpirationMillis(t.claims)
    ensures r.Ok? ==> r.value == t.claims
    ensures r.Err? ==> IsJwt(r.error.kind)
    ensures r.Err? && r.error.kind == ExpiredJwt <==> t.Signed? && t.key == key && now > ExpirationMillis(t.claims)
  {
    match t
    case Garbage(_) => Err(Exc(Malformed, "JWT strings must contain exactly 2 period characters"))
    case Signed(c, k) =>
      if k != key then Err(Exc(Signature, "JWT signature does not match locally computed signature"))
      else if now > ExpirationMillis(c) then Err(Exc(ExpiredJwt, "JWT expired"))
      else Ok(c)
  }

  /** Parsing recovers what was signed, with the same key, until the
   *  expiration. */
  lemma ParseSigned(c: Claims, key: seq<Byte>, now: int)
    requires Sign(c, key).Ok? && now <= ExpirationMillis(c)
    ensures Parse(Sign(c, key).value, key, now) == Ok(c)
  {
  }
}
