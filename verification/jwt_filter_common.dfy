/**
 * What the three JWT authentication filters have in common: the request's
 * bearer token, the calls they make into the JWT and user services, and the
 * outcome of one pass through a filter.
 *
 * The services are parameters: `extractUsername` reads the token's subject,
 * `loadUser` is the user-details lookup and `isTokenValid` the JWT
 * service's check; each may throw.
 */
module JwtFilterCommon {
  import opened Wrappers
  import opened Errors
  import opened Text

  /** The authentication scheme prefix of section 2.1 of RFC 6750. */
  const BearerPrefix := "Bearer "

  datatype Principal = Principal(username: string, enabled: bool, authorities: seq<string>)

  /** The security context's authentication, if any. */
  datatype Authentication = Authentication(principal: Principal, authenticated: bool)

  datatype Services = Services(
    extractUsername: string -> Result<string, Exc>,
    loadUser: string -> Result<Principal, Exc>,
    isTokenValid: (string, Principal) -> Result<bool, Exc>)

  datatype SentError = SentError(status: int, message: string)

  /** One pass through a filter: whether the rest of the chain ran, the
   *  security context afterwards, and the error sent instead, if any. */
  datatype Outcome = Outcome(chained: bool, context: Option<Authentication>, error: Option<SentError>)

  /** Through to the rest of the chain with the context untouched. */
  function PassThrough(context: Option<Authentication>): Outcome
  {
    Outcome(true, context, None)
  }

  /** The token of an `Authorization` header: the text after `Bearer `, or
   *  nothing for a missing header or another scheme. */
  function BearerToken(header: Option<string>): (r: Option<string>)
    ensures r.Some? <==> header.Some? && HasPrefix(header.value, BearerPrefix)
    ensures r.Some? ==> header.value == BearerPrefix + r.value
  {
    if header.Some? && HasPrefix(header.value, BearerPrefix) then
      assert header.value == header.value[..7] + header.value[7..];
      Some(header.value[7..])
    else None
  }

  /** A bearer header carries back exactly the token put into it. */
  lemma BearerTokenRoundTrip(token: string)
    ensures BearerToken(Some(BearerPrefix + token)) == Some(token)
  {
    assert (BearerPrefix + token)[..7] == BearerPrefix;
    assert (BearerPrefix + token)[7..] == token;
  }

  /** The guarded block all three filters share: read the subject, load the
   *  user, and yield the principal to authenticate when the token is valid
   *  for that user and the user is enabled. */
  function Authenticate(token: string, svc: Services): (r: Result<Option<Principal>, Exc>)
    ensures r.Ok? && r.value.Some? ==>
              && svc.extractUsername(token).Ok?
              && svc.loadUser(svc.extractUsername(token).value) == Ok(r.value.value)
              && svc.isTokenValid(token, r.value.value) == Ok(true)
              && r.value.value.enabled
    ensures svc.extractUsername(token).Ok? && svc.loadUser(svc.extractUsername(token).value).Ok? ==>
              var p := svc.loadUser(svc.extractUsername(token).value).value;
              svc.isTokenValid(token, p) == Ok(true) && p.enabled ==> r == Ok(Some(p))
    ensures r.Err? <==>
              || svc.extractUsername(token).Err?
              || svc.loadUser(svc.extractUsername(token).value).Err?
              || svc.isTokenValid(token, svc.loadUser(svc.extractUsername(token).value).value).Err?
  {
    match svc.extractUsername(token)
    case Err(e) => Err(e)
    case Ok(email) =>
      match svc.loadUser(email)
      case Err(e) => Err(e)
      case Ok(user) =>
        match svc.isTokenValid(token, user)
        case Err(e) => Err(e)
        case Ok(valid) => Ok(if valid && user.enabled then Some(user) else None)
  }

  /** The 401 reason: `Token expired` when the exception's message mentions
   *  expiry, `Invalid token` otherwise. */
  function Unauthorized(e: Exc): (r: SentError)
    ensures r.status == 401
    ensures r.message == "Token expired" <==> Contains(e.message, "expired")
    ensures r.message in {"Token expired", "Invalid token"}
  {
    SentError(401, if Contains(e.message, "expired") then "Token expired" else "Invalid token")
  }
}
