/**
 * The frontend's HTTP interceptor: it attaches the stored token as a bearer
 * header to every request except the login and signup calls.
 */
module AuthInterceptor {
  import opened Wrappers
  import opened Text
  import JwtFilterCommon
  import JwtAuthenticationFilter

  const AuthorizationHeader := "Authorization"

  datatype HttpRequest = HttpRequest(url: string, headers: map<string, string>)

  /** `isAuthRequest`: the URL mentions `login` or `signup` anywhere. */
  predicate IsAuthRequest(url: string)
  {
    Contains(url, "login") || Contains(url, "signup")
  }

  /** JavaScript truthiness of the stored token: present and non-empty. */
  predicate Truthy(token: Option<string>)
  {
    token.Some? && token.value != ""
  }

  /** `intercept`: the request with the bearer header set when a token is
   *  stored and the request is not an auth request, otherwise the request
   *  unchanged. */
  function Intercept(request: HttpRequest, token: Option<string>): (r: HttpRequest)
    ensures r.url == request.url
    ensures r != request ==> Truthy(token) && !IsAuthRequest(request.url)
    ensures Truthy(token) && !IsAuthRequest(request.url) ==>
              && AuthorizationHeader in r.headers
              && r.headers[AuthorizationHeader] == JwtFilterCommon.BearerPrefix + token.value
              && forall h | h in request.headers && h != AuthorizationHeader :: h in r.headers && r.headers[h] == request.headers[h]
    ensures r.headers.Keys == request.headers.Keys + (if Truthy(token) && !IsAuthRequest(request.url) then {AuthorizationHeader} else {})
  {
    if Truthy(token) && !IsAuthRequest(request.url) then
      request.(headers := request.headers[AuthorizationHeader := JwtFilterCommon.BearerPrefix + token.value])
    else request
  }

  /** The backend's filters read back exactly the token the interceptor
   *  attached. */
  lemma BackendReadsAttachedToken(request: HttpRequest, token: string)
    requires Truthy(Some(token)) && !IsAuthRequest(request.url)
    ensures JwtFilterCommon.BearerToken(Some(Intercept(request, Some(token)).headers[AuthorizationHeader])) == Some(token)
  {
    JwtFilterCommon.BearerTokenRoundTrip(token);
  }

  /** Every path the backend filter lets through without a token is called
   *  without one, whatever the base URL in front of it. */
  lemma BypassedPathsAreAuthRequests(base: string, path: string)
    requires JwtAuthenticationFilter.Bypassed(path)
    ensures IsAuthRequest(base + path)
  {
    var url := base + path;
    if HasPrefix(path, "/auth/login") {
      assert url[|base| + 6..|base| + 11] == path[6..11] == "login";
      ContainsSlice(url, "login", |base| + 6);
    } else {
      assert url[|base| + 6..|base| + 12] == path[6..12] == "signup";
      ContainsSlice(url, "signup", |base| + 6);
    }
  }

  /** The converse fails: a protected endpoint whose path happens to
   *  contain `login` is sent without the token. */
  lemma LoginHistoryGoesUnauthenticated(token: string)
    requires token != ""
    ensures var request := HttpRequest("/api/users/loginHistory", map[]);
            && !JwtAuthenticationFilter.Bypassed(request.url)
            && Intercept(request, Some(token)) == request
  {
    var url := "/api/users/loginHistory";
    assert url[2] != "/auth/login"[2];
    assert url[2] != "/auth/signup"[2];
    ContainsSlice(url, "login", 11);
  }
}

/**
 * The route guard: signed-in users pass, and everyone else is sent to the
 * login page with the attempted URL remembered; the signup page is the
 * other way round.
 */
module AuthGuard {
  import opened Wrappers

  const SignupUrl := "/auth/signup"
  const LoginUrl := "/auth/login"
  const HomeUrl := "/home"

  datatype Decision = Allow | Redirect(target: string)

  /** `canActivate`: the decision and the `redirectUrl` left behind; it
   *  depends on nothing but the authentication flag and the URL. The signup
   *  page is the only one open to visitors and the only one closed to
   *  signed-in users. */
  function CanActivate(authenticated: bool, url: string, redirectUrl: Option<string>): (r: (Decision, Option<string>))
    ensures r.0 == Allow <==> (authenticated <==> url != SignupUrl)
    ensures r.0.Redirect? ==> r.0.target == (if authenticated then HomeUrl else LoginUrl)
    ensures r.1 != redirectUrl ==> r.1 == Some(url) && r.0 == Redirect(LoginUrl)
    ensures !authenticated && url != SignupUrl ==> r.1 == Some(url)
  {
    if url == SignupUrl then
      (if authenticated then Redirect(HomeUrl) else Allow, redirectUrl)
    else if authenticated then (Allow, redirectUrl)
    else (Redirect(LoginUrl), Some(url))
  }

  /** After the login page, the remembered URL is let through: whatever
   *  sent a visitor to log in admits them once authenticated. */
  lemma RedirectThenAllow(url: string, redirectUrl: Option<string>)
    requires CanActivate(false, url, redirectUrl).0 == Redirect(LoginUrl)
    ensures var remembered := CanActivate(false, url, redirectUrl).1;
            && remembered == Some(url)
            && CanActivate(true, remembered.value, remembered).0 == Allow
  {
  }
}
