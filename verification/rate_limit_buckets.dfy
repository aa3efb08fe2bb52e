/**
 * Token buckets keyed by client and endpoint category, as both rate-limiting
 * filters keep them: a key's bucket is created full on its first request and
 * reused afterwards, and each request takes one token or is refused.
 *
 * Time does not pass in this model: the requests considered arrive at one
 * instant, so no token comes back.  Bucket4j's greedy refill would hand
 * tokens back gradually across the period, which is not modelled.
 */
module RateLimitBuckets {
  import opened Wrappers
  import Text

  /** A bucket with its rule: `capacity` tokens refilled every
   *  `refillSeconds`, of which `available` are left. */
  datatype Bucket = Bucket(capacity: nat, refillSeconds: nat, available: nat)

  function NewBucket(capacity: nat, refillSeconds: nat): (b: Bucket)
    ensures b.available == b.capacity == capacity && b.refillSeconds == refillSeconds
  {
    Bucket(capacity, refillSeconds, capacity)
  }

  /** One request: its key, and the bucket to create if the key is new. */
  datatype Request = Request(key: string, created: Bucket)

  /** Look the key's bucket up (creating it from `created` if absent) and take
   *  one token from it if one is left.  Also yields the bucket as stored. */
  function Admit(buckets: map<string, Bucket>, key: string, created: Bucket): (r: (map<string, Bucket>, Bucket, bool))
    ensures var b := if key in buckets then buckets[key] else created;
            && r.0.Keys == buckets.Keys + {key}
            && (forall k | k in buckets && k != key :: r.0[k] == buckets[k])
            && r.1 == r.0[key]
            && (r.2 <==> b.available > 0)
            && r.1 == (if r.2 then b.(available := b.available - 1) else b)
  {
    var b := if key in buckets then buckets[key] else created;
    if b.available > 0 then
      var b' := b.(available := b.available - 1);
      (buckets[key := b'], b', true)
    else (buckets[key := b], b, false)
  }

  /** Requests handled in order from no buckets at all: the buckets left and,
   *  per request, whether it was admitted. */
  function Run(reqs: seq<Request>): (r: (map<string, Bucket>, seq<bool>))
    ensures |r.1| == |reqs|
  {
    if reqs == [] then (map[], [])
    else
      var (m, admitted) := Run(reqs[..|reqs| - 1]);
      var last := reqs[|reqs| - 1];
      var (m', _, ok) := Admit(m, last.key, last.created);
      (m', admitted + [ok])
  }

  /** How many of the requests carry `key`. */
  function CountKey(reqs: seq<Request>, key: string): nat
  {
    if reqs == [] then 0
    else CountKey(reqs[..|reqs| - 1], key) + (if reqs[|reqs| - 1].key == key then 1 else 0)
  }

  /** How many of the requests carrying `key` were admitted. */
  function CountAdmitted(reqs: seq<Request>, admitted: seq<bool>, key: string): nat
    requires |admitted| == |reqs|
  {
    if reqs == [] then 0
    else
      CountAdmitted(reqs[..|reqs| - 1], admitted[..|reqs| - 1], key)
        + (if reqs[|reqs| - 1].key == key && admitted[|reqs| - 1] then 1 else 0)
  }

  /** The bucket the first request carrying `key` would create. */
  function FirstCreated(reqs: seq<Request>, key: string): (r: Option<Bucket>)
  {
    if reqs == [] then None
    else
      var p := FirstCreated(reqs[..|reqs| - 1], key);
      if p.Some? then p
      else if reqs[|reqs| - 1].key == key then Some(reqs[|reqs| - 1].created)
      else None
  }

  function Min(a: nat, b: nat): nat { if a <= b then a else b }

  /** The headers on a forwarded request: the bucket's capacity, the tokens
   *  left after this request, and the refill period in seconds. */
  function RateHeaders(limit: nat, remaining: int, reset: nat): map<string, string>
    requires remaining >= 0
  {
    map["X-RateLimit-Limit" := Text.NatToString(limit),
        "X-RateLimit-Remaining" := Text.NatToString(remaining),
        "X-RateLimit-Reset" := Text.NatToString(reset)]
  }

  /** Every request brings a full bucket. */
  predicate CreatedBucketsFull(reqs: seq<Request>)
  {
    forall i | 0 <= i < |reqs| :: reqs[i].created.available == reqs[i].created.capacity
  }

  /** Per key, the stored bucket belongs to the key's first request, and it
   *  has given out one token for each admitted request, which are the first
   *  `capacity` of the key's requests. */
  lemma {:induction false} RunInvariant(reqs: seq<Request>, key: string)
    requires CreatedBucketsFull(reqs)
    ensures var (m, admitted) := Run(reqs);
            && (key in m <==> FirstCreated(reqs, key).Some?)
            && (key in m <==> CountKey(reqs, key) > 0)
            && (key in m ==>
                  var first := FirstCreated(reqs, key).value;
                  && m[key].capacity == first.capacity && m[key].refillSeconds == first.refillSeconds
                  && CountAdmitted(reqs, admitted, key) == Min(CountKey(reqs, key), first.capacity)
                  && m[key].available == first.capacity - CountAdmitted(reqs, admitted, key))
            && (key !in m ==> CountAdmitted(reqs, admitted, key) == 0)
  {
    if reqs != [] {
      var prefix := reqs[..|reqs| - 1];
      assert CreatedBucketsFull(prefix) by {
        forall i | 0 <= i < |prefix| ensures prefix[i].created.available == prefix[i].created.capacity {
          assert prefix[i] == reqs[i];
        }
      }
      RunInvariant(prefix, key);
      var (m, admitted) := Run(prefix);
      assert (admitted + [Admit(m, reqs[|reqs| - 1].key, reqs[|reqs| - 1].created).2])[..|reqs| - 1] == admitted;
    }
  }

  /** Of requests arriving at one instant a key admits exactly as many as
   *  its bucket holds, and no more. */
  lemma AdmittedUpToCapacity(reqs: seq<Request>, key: string)
    requires CreatedBucketsFull(reqs) && CountKey(reqs, key) > 0
    ensures FirstCreated(reqs, key).Some?
    ensures CountAdmitted(reqs, Run(reqs).1, key) == Min(CountKey(reqs, key), FirstCreated(reqs, key).value.capacity)
  {
    RunInvariant(reqs, key);
  }
}
