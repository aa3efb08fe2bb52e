/**
 * The current generation's `config` filter: login and signup bypass, a
 * bearer header, no established authentication, then the guarded block;
 * any exception clears the context and answers 401.
 */
module JwtAuthenticationFilter {
  import opened Wrappers
  import opened Errors
  import opened Text
  import opened JwtFilterCommon

  predicate Bypassed(uri: string)
  {
    HasPrefix(uri, "/auth/login") || HasPrefix(uri, "/auth/signup")
  }

  predicate IsAuthenticated(context: Option<Authentication>)
  {
    context.Some? && context.value.authenticated
  }

  function DoFilter(uri: string, header: Option<string>, context: Option<Authentication>, svc: Services): (r: Outcome)
    ensures r.chained <==> r.error.None?
    ensures r.error.Some? ==> r.context.None? && r.error.value.status == 401
    ensures Bypassed(uri) || BearerToken(header).None? || IsAuthenticated(context) ==> r == PassThrough(context)
    ensures r.error.None? && r.context != context ==>
              r.context.Some? && r.context.value.authenticated && r.context.value.principal.enabled
  {
    if Bypassed(uri) then PassThrough(context)
    else match BearerToken(header)
      case None => PassThrough(context)
      case Some(token) =>
        if IsAuthenticated(context) then PassThrough(context)
        else match Authenticate(token, svc)
          case Err(e) => Outcome(false, None, Some(Unauthorized(e)))
          case Ok(None) => PassThrough(context)
          case Ok(Some(user)) => PassThrough(Some(Authentication(user, true)))
  }

  /** A bearer token establishes authentication for `p` exactly when its
   *  subject loads as `p`, the token is valid for `p` and `p` is enabled. */
  lemma AuthenticatesIff(uri: string, token: string, context: Option<Authentication>, svc: Services, p: Principal)
    requires !Bypassed(uri) && !IsAuthenticated(context)
    ensures DoFilter(uri, Some(BearerPrefix + token), context, svc) == PassThrough(Some(Authentication(p, true)))
            <==>
              && svc.extractUsername(token).Ok?
              && svc.loadUser(svc.extractUsername(token).value) == Ok(p)
              && svc.isTokenValid(token, p) == Ok(true)
              && p.enabled
  {
    BearerTokenRoundTrip(token);
  }

  /** A token whose processing throws never reaches the rest of the chain,
   *  and the reply names expiry exactly when the exception did. */
  lemma FailureIsUnauthorized(uri: string, token: string, context: Option<Authentication>, svc: Services, e: Exc)
    requires !Bypassed(uri) && !IsAuthenticated(context)
    requires svc.extractUsername(token) == Err(e)
    ensures var r := DoFilter(uri, Some(BearerPrefix + token), context, svc);
            && !r.chained && r.context.None?
            && r.error == Some(SentError(401, if Contains(e.message, "expired") then "Token expired" else "Invalid token"))
  {
    BearerTokenRoundTrip(token);
  }
}
