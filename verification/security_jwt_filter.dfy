/**
 * The `config.security` filter: the whole `/auth/` and `/api/email/`
 * namespaces are public, any established authentication (authenticated or
 * not) skips processing, and exceptions are not caught.
 */
module SecurityJwtAuthenticationFilter {
  import opened Wrappers
  import opened Errors
  import opened Text
  import opened JwtFilterCommon
  import JwtAuthenticationFilter

  const PublicPrefixes: seq<string> := ["/auth/", "/api/email/"]

  predicate IsPublicEndpoint(uri: string)
  {
    exists i | 0 <= i < |PublicPrefixes| :: HasPrefix(uri, PublicPrefixes[i])
  }

  /** The chain's outcome, or the exception that escapes the filter. */
  function DoFilter(uri: string, header: Option<string>, context: Option<Authentication>, svc: Services): (r: Result<Outcome, Exc>)
    ensures r.Ok? ==> r.value.chained && r.value.error.None?
    ensures IsPublicEndpoint(uri) || context.Some? || BearerToken(header).None? ==> r == Ok(PassThrough(context))
    ensures r.Err? <==> !IsPublicEndpoint(uri) && context.None? && BearerToken(header).Some?
                        && Authenticate(BearerToken(header).value, svc).Err?
    ensures r.Ok? && r.value.context != context ==>
              r.value.context.Some? && r.value.context.value.authenticated && r.value.context.value.principal.enabled
  {
    if !IsPublicEndpoint(uri) && context.None? then
      match BearerToken(header)
      case None => Ok(PassThrough(context))
      case Some(token) =>
        match Authenticate(token, svc)
        case Err(e) => Err(e)
        case Ok(None) => Ok(PassThrough(context))
        case Ok(Some(user)) => Ok(PassThrough(Some(Authentication(user, true))))
    else Ok(PassThrough(context))
  }

  /** On a protected path with an empty context the two current filters
   *  decide alike: this one throws exactly where the other answers 401,
   *  and otherwise both pass the same context on. */
  lemma AgreesWithConfigFilter(uri: string, header: Option<string>, svc: Services)
    requires !IsPublicEndpoint(uri)
    ensures var other := JwtAuthenticationFilter.DoFilter(uri, header, None, svc);
            && (DoFilter(uri, header, None, svc).Err? <==> other.error.Some?)
            && (DoFilter(uri, header, None, svc).Ok? ==> DoFilter(uri, header, None, svc).value == other)
  {
    if HasPrefix(uri, "/auth/login") {
      PrefixOfPrefix(uri, "/auth/login", PublicPrefixes[0]);
      assert false;
    } else if HasPrefix(uri, "/auth/signup") {
      PrefixOfPrefix(uri, "/auth/signup", PublicPrefixes[0]);
      assert false;
    }
  }

  /** Where the two differ: a path such as `/auth/refresh` is public here
   *  but checked by the other filter, and an unauthenticated context entry
   *  stops processing here but not there. */
  lemma DiffersFromConfigFilter(token: string, svc: Services, p: Principal)
    requires svc.extractUsername(token) == Ok(p.username) && svc.loadUser(p.username) == Ok(p)
    requires svc.isTokenValid(token, p) == Ok(true) && p.enabled
    ensures DoFilter("/auth/refresh", Some(BearerPrefix + token), None, svc) == Ok(PassThrough(None))
    ensures JwtAuthenticationFilter.DoFilter("/auth/refresh", Some(BearerPrefix + token), None, svc)
              == PassThrough(Some(Authentication(p, true)))
    ensures var stale := Some(Authentication(p, false));
            && DoFilter("/api/users/", Some(BearerPrefix + token), stale, svc) == Ok(PassThrough(stale))
            && JwtAuthenticationFilter.DoFilter("/api/users/", Some(BearerPrefix + token), stale, svc)
                 == PassThrough(Some(Authentication(p, true)))
  {
    BearerTokenRoundTrip(token);
    assert HasPrefix("/auth/refresh", PublicPrefixes[0]);
    assert "/auth/refresh"[6] != "/auth/login"[6] && "/auth/refresh"[6] != "/auth/signup"[6];
    assert "/api/users/"[2] != "/auth/login"[2] && "/api/users/"[2] != "/auth/signup"[2];
    assert "/api/users/"[2] != PublicPrefixes[0][2] && "/api/users/"[5] != PublicPrefixes[1][5];
  }
}
