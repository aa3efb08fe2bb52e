/**
 * The current generation's `config` rate-limiting filter: categories
 * `auth`, `email` and `general` with 5, 3 and 10 requests a minute.
 */
module RateLimitingFilter {
  import opened Wrappers
  import opened Text
  import opened RateLimitBuckets

  const RefillSeconds: nat := 60
  const RejectionText := "Too many requests - slow down! Try again in one minute"

  function Category(uri: string): (c: string)
    ensures c in {"auth", "email", "general"}
  {
    if HasPrefix(uri, "/auth/") then "auth"
    else if HasPrefix(uri, "/api/email/") then "email"
    else "general"
  }

  function Capacity(uri: string): (n: nat)
    ensures n in {5, 3, 10}
  {
    if HasPrefix(uri, "/auth/") then 5
    else if HasPrefix(uri, "/api/email/") then 3
    else 10
  }

  /** The bucket key: the client address and the category. */
  function Key(ip: string, uri: string): string
  {
    ip + ":" + Category(uri)
  }

  /** The key and capacity tests agree: every category has one capacity. */
  lemma CategoryFixesCapacity(u1: string, u2: string)
    ensures Category(u1) == Category(u2) ==> Capacity(u1) == Capacity(u2)
    ensures Category(u1) == "auth" <==> Capacity(u1) == 5
    ensures Category(u1) == "email" <==> Capacity(u1) == 3
  {
  }

  datatype Reply =
    | Forwarded(headers: map<string, string>)
    | Rejected(status: int, retryAfter: string, body: string)

  function AsRequest(ip: string, uri: string): Request
  {
    Request(Key(ip, uri), NewBucket(Capacity(uri), RefillSeconds))
  }

  /** `doFilterInternal`: forward with the rate headers when a token is
   *  left, otherwise 429 with `Retry-After` and the chain not invoked. */
  function DoFilter(buckets: map<string, Bucket>, ip: string, uri: string): (r: (map<string, Bucket>, Reply))
    ensures var stored := if Key(ip, uri) in buckets then buckets[Key(ip, uri)] else NewBucket(Capacity(uri), RefillSeconds);
            && (r.1.Forwarded? <==> stored.available > 0)
            && r.0 == Admit(buckets, Key(ip, uri), NewBucket(Capacity(uri), RefillSeconds)).0
            && (r.1.Forwarded? ==> r.1 == Forwarded(RateHeaders(stored.capacity, stored.available - 1, stored.refillSeconds)))
            && (r.1.Rejected? ==> r.1 == Rejected(429, NatToString(stored.refillSeconds), RejectionText))
    ensures Key(ip, uri) !in buckets ==> r.1 == Forwarded(RateHeaders(Capacity(uri), Capacity(uri) - 1, RefillSeconds))
  {
    var (m, b, ok) := Admit(buckets, Key(ip, uri), NewBucket(Capacity(uri), RefillSeconds));
    if ok then
      (m, Forwarded(RateHeaders(b.capacity, b.available, b.refillSeconds)))
    else (m, Rejected(429, NatToString(b.refillSeconds), RejectionText))
  }

  /** A request from `ip` to some path under `/auth/`. */
  ghost predicate IsSignInFrom(r: Request, ip: string)
  {
    exists uri | HasPrefix(uri, "/auth/") :: r == AsRequest(ip, uri)
  }

  /** Repeated sign-in attempts from one address with no time elapsing
   *  between them: the first five go through and the rest are refused. */
  lemma AuthAttemptsLimited(reqs: seq<Request>, ip: string)
    requires |reqs| > 0 && forall i | 0 <= i < |reqs| :: IsSignInFrom(reqs[i], ip)
    ensures CountAdmitted(reqs, Run(reqs).1, Key(ip, "/auth/")) == Min(|reqs|, 5)
  {
    var key := Key(ip, "/auth/");
    assert HasPrefix("/auth/", "/auth/");
    assert CreatedBucketsFull(reqs);
    AllKeyed(reqs, key);
    AdmittedUpToCapacity(reqs, key);
    FirstIsAuth(reqs, ip);
  }

  lemma {:induction false} AllKeyed(reqs: seq<Request>, key: string)
    requires forall i | 0 <= i < |reqs| :: reqs[i].key == key
    ensures CountKey(reqs, key) == |reqs|
  {
    if reqs != [] {
      AllKeyed(reqs[..|reqs| - 1], key);
    }
  }

  lemma {:induction false} FirstIsAuth(reqs: seq<Request>, ip: string)
    requires |reqs| > 0 && forall i | 0 <= i < |reqs| :: IsSignInFrom(reqs[i], ip)
    ensures FirstCreated(reqs, Key(ip, "/auth/")) == Some(NewBucket(5, RefillSeconds))
  {
    var n := |reqs| - 1;
    assert IsSignInFrom(reqs[n], ip);
    var uri :| HasPrefix(uri, "/auth/") && reqs[n] == AsRequest(ip, uri);
    if n > 0 {
      assert forall i | 0 <= i < n :: reqs[..n][i] == reqs[i];
      FirstIsAuth(reqs[..n], ip);
    }
  }
}
