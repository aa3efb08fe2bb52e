/**
 * The `config.security` rate-limiting filter: the rule table keyed by URI
 * prefix, with `default` as the fallback, and a JSON rejection body.
 */
module SecurityRateLimitingFilter {
  import opened Wrappers
  import opened Text
  import opened RateLimitBuckets
  import RateLimitingFilter

  datatype Rule = Rule(capacity: nat, refillSeconds: nat)

  const Rules: map<string, Rule> := map[
    "/auth/" := Rule(5, 60),
    "/api/email/" := Rule(3, 60),
    "default" := Rule(10, 60)]

  /** An iteration order of the rule table's keys; the table does not fix
   *  one. */
  predicate IsKeyOrder(order: seq<string>)
  {
    && (forall i | 0 <= i < |order| :: order[i] in Rules)
    && (forall p | p in Rules :: p in order)
  }

  /** The first key in `order` that prefixes the URI. */
  function FirstMatch(order: seq<string>, uri: string): (r: Option<string>)
    ensures r.Some? ==> r.value in order && HasPrefix(uri, r.value)
    ensures r.None? <==> forall i | 0 <= i < |order| :: !HasPrefix(uri, order[i])
  {
    if order == [] then None
    else if HasPrefix(uri, order[0]) then Some(order[0])
    else FirstMatch(order[1..], uri)
  }

  /** No URI starts with two of the table's keys. */
  lemma KeysExclusive(uri: string, p: string, q: string)
    requires p in Rules && q in Rules && HasPrefix(uri, p) && HasPrefix(uri, q)
    ensures p == q
  {
    assert p[0] == uri[0] == q[0];
    assert p != "default" && q != "default" ==> p[2] == uri[2] == q[2];
  }

  /** `resolveKey`'s category: the matching key, else `default`. */
  function Category(order: seq<string>, uri: string): (c: string)
    requires IsKeyOrder(order)
    ensures c in Rules
  {
    match FirstMatch(order, uri)
    case None => "default"
    case Some(p) => p
  }

  /** `createBucketForRequest`'s rule, found by the same prefix search. */
  function RuleFor(order: seq<string>, uri: string): (r: Rule)
    requires IsKeyOrder(order)
    ensures r == Rules[Category(order, uri)]
  {
    match FirstMatch(order, uri)
    case None => Rules["default"]
    case Some(p) => Rules[p]
  }

  /** The choice does not depend on the iteration order: it is the key the
   *  URI starts with, if any, else `default`; and the capacity is the other
   *  filter's. */
  lemma CategoryIgnoresOrder(order: seq<string>, uri: string)
    requires IsKeyOrder(order)
    ensures Category(order, uri)
              == if HasPrefix(uri, "/auth/") then "/auth/" else if HasPrefix(uri, "/api/email/") then "/api/email/" else "default"
    ensures RuleFor(order, uri).capacity == RateLimitingFilter.Capacity(uri)
    ensures RuleFor(order, uri).refillSeconds == RateLimitingFilter.RefillSeconds
  {
    var m := FirstMatch(order, uri);
    if m.Some? {
      if HasPrefix(uri, "/auth/") {
        KeysExclusive(uri, m.value, "/auth/");
      } else if HasPrefix(uri, "/api/email/") {
        KeysExclusive(uri, m.value, "/api/email/");
      }
    } else {
      assert "/auth/" in order && "/api/email/" in order;
    }
  }

  function Key(order: seq<string>, ip: string, uri: string): string
    requires IsKeyOrder(order)
  {
    ip + ":" + Category(order, uri)
  }

  datatype ErrorBody = ErrorBody(error: string, message: string, retryAfterSeconds: nat)

  datatype Reply =
    | Forwarded(headers: map<string, string>)
    | Rejected(status: int, retryAfter: string, contentType: string, body: ErrorBody)

  function DoFilter(buckets: map<string, Bucket>, order: seq<string>, ip: string, uri: string): (r: (map<string, Bucket>, Reply))
    requires IsKeyOrder(order)
    ensures var rule := RuleFor(order, uri);
            var key := Key(order, ip, uri);
            var stored := if key in buckets then buckets[key] else NewBucket(rule.capacity, rule.refillSeconds);
            && (r.1.Forwarded? <==> stored.available > 0)
            && r.0 == Admit(buckets, key, NewBucket(rule.capacity, rule.refillSeconds)).0
            && (r.1.Forwarded? ==> r.1 == Forwarded(RateHeaders(stored.capacity, stored.available - 1, stored.refillSeconds)))
            && (r.1.Rejected? ==>
                  r.1 == Rejected(429, NatToString(stored.refillSeconds), "application/json",
                                  ErrorBody("too_many_requests", "Too many requests - slow down!", stored.refillSeconds)))
  {
    var rule := RuleFor(order, uri);
    var (m, b, ok) := Admit(buckets, Key(order, ip, uri), NewBucket(rule.capacity, rule.refillSeconds));
    if ok then
      (m, Forwarded(RateHeaders(b.capacity, b.available, b.refillSeconds)))
    else
      (m, Rejected(429, NatToString(b.refillSeconds), "application/json",
                   ErrorBody("too_many_requests", "Too many requests - slow down!", b.refillSeconds)))
  }

  /** The two filters admit and refuse alike: keyed the same way for the
   *  same client, they hold buckets of the same sizes, so one forwards
   *  exactly when the other does. */
  lemma AgreesWithConfigFilter(b1: map<string, Bucket>, b2: map<string, Bucket>, order: seq<string>, ip: string, uri: string)
    requires IsKeyOrder(order)
    requires var k1 := RateLimitingFilter.Key(ip, uri);
             var k2 := Key(order, ip, uri);
             (k1 in b1 <==> k2 in b2) && (k1 in b1 ==> b1[k1] == b2[k2])
    ensures DoFilter(b2, order, ip, uri).1.Forwarded? <==> RateLimitingFilter.DoFilter(b1, ip, uri).1.Forwarded?
    ensures DoFilter(b2, order, ip, uri).1.Forwarded? ==>
              DoFilter(b2, order, ip, uri).1.headers == RateLimitingFilter.DoFilter(b1, ip, uri).1.headers
  {
    CategoryIgnoresOrder(order, uri);
  }
}
