/**
 * The first generation's filter.  Its decision procedure is the current
 * `config` filter's, written here in its own order of tests.
 */
module LegacyJwtAuthenticationFilter {
  import opened Wrappers
  import opened Errors
  import opened Text
  import opened JwtFilterCommon
  import JwtAuthenticationFilter

  function DoFilter(uri: string, header: Option<string>, context: Option<Authentication>, svc: Services): (r: Outcome)
    ensures r.chained <==> r.error.None?
    ensures r.error.Some? ==> r.context.None? && r.error.value.message in {"Token expired", "Invalid token"}
  {
    var skip := HasPrefix(uri, "/auth/login") || HasPrefix(uri, "/auth/signup");
    var token := BearerToken(header);
    var established := context.Some? && context.value.authenticated;
    if skip || token.None? || established then Outcome(true, context, None)
    else
      var attempt := Authenticate(token.value, svc);
      if attempt.Err? then Outcome(false, None, Some(Unauthorized(attempt.error)))
      else Outcome(true, if attempt.value.Some? then Some(Authentication(attempt.value.value, true)) else context, None)
  }

  /** The legacy filter and the current `config` filter agree on every
   *  request. */
  lemma SameAsCurrent(uri: string, header: Option<string>, context: Option<Authentication>, svc: Services)
    ensures DoFilter(uri, header, context, svc) == JwtAuthenticationFilter.DoFilter(uri, header, context, svc)
  {
  }
}
