// The token bucket of ratelimit.go. Time and tokens are real numbers; a request carries
// the two clock readings the code takes, one to refill and one to remember.

module RateLimits {
  import opened Wrappers

  datatype Bucket = Bucket(tokens: real, last: real)

  datatype Request = Request(key: string, now: real, after: real)

  /** Tokens a second and the most a bucket holds. */
  datatype Limits = Limits(rate: real, burst: real)

  /** What t seconds add. */
  function Gain(rate: real, t: real): real {
    t * rate
  }

  function Capped(tokens: real, gain: real, burst: real): real {
    if tokens + gain > burst then burst else tokens + gain
  }

  /** The bucket once refilled, a new one full. */
  function Refilled(l: Limits, b: Option<Bucket>, r: Request): Bucket {
    match b
    case None => Bucket(l.burst, r.after)
    case Some(was) =>
      Bucket(Capped(was.tokens, Gain(l.rate, r.now - was.last), l.burst), r.after)
  }

  function Spend(b: Bucket): Bucket {
    if b.tokens < 1.0 then b else b.(tokens := b.tokens - 1.0)
  }

  /** A key's bucket after a request sequence over any keys. */
  function BucketAfter(l: Limits, reqs: seq<Request>, key: string): Option<Bucket> {
    if reqs == [] then None
    else
      var before, r := BucketAfter(l, reqs[..|reqs| - 1], key), reqs[|reqs| - 1];
      if r.key == key then Some(Spend(Refilled(l, before, r))) else before
  }

  lemma BucketGrow(l: Limits, reqs: seq<Request>, r: Request, key: string)
    ensures BucketAfter(l, reqs + [r], key) ==
            if r.key == key then Some(Spend(Refilled(l, BucketAfter(l, reqs, key), r))) else BucketAfter(l, reqs, key)
  {
    assert (reqs + [r])[..|reqs|] == reqs;
  }

  /** Whether request r is granted after the earlier ones. */
  predicate Granted(l: Limits, earlier: seq<Request>, r: Request) {
    Refilled(l, BucketAfter(l, earlier, r.key), r).tokens >= 1.0
  }

  /** The clock never runs backwards. */
  predicate Clocked(reqs: seq<Request>) {
    && (forall i :: 0 <= i < |reqs| ==> reqs[i].now <= reqs[i].after)
    && (forall i, j :: 0 <= i < j < |reqs| ==> reqs[i].after <= reqs[j].now)
  }

  class Limiter {
    const limits: Limits
    var buckets: map<string, Bucket>
    ghost var requests: seq<Request>

    function Lookup(key: string): Option<Bucket>
      reads this
    {
      if key in buckets then Some(buckets[key]) else None
    }

    ghost predicate Valid()
      reads this
    {
      forall key: string :: Lookup(key) == BucketAfter(limits, requests, key)
    }

    constructor (rate: real, burst: real)
      ensures Valid() && requests == [] && limits == Limits(rate, burst)
    {
      limits, buckets, requests := Limits(rate, burst), map[], [];
    }

    /** Refills the key's bucket by the elapsed time, then takes one token if there is one. */
    method Allow(key: string, now: real, after: real) returns (ok: bool)
      requires Valid()
      modifies this
      ensures Valid() && requests == old(requests) + [Request(key, now, after)]
      ensures ok <==> Granted(limits, old(requests), Request(key, now, after))
      ensures forall other: string :: other != key ==> Lookup(other) == old(Lookup(other))
      ensures key in buckets && buckets[key].last == after
      ensures var had := if key !in old(buckets) then limits.burst
                         else old(buckets)[key].tokens + (now - old(buckets)[key].last) * limits.rate;
              var tokens := if had <= limits.burst then had else limits.burst;
              (ok <==> tokens >= 1.0) && buckets[key].tokens == if ok then tokens - 1.0 else tokens
    {
      ghost var r, earlier := Request(key, now, after), requests;
      assert Lookup(key) == BucketAfter(limits, requests, key);
      var b := Refill(key, now, after);
      ok := b.tokens >= 1.0;
      if ok {
        b := b.(tokens := b.tokens - 1.0);
      }
      assert b == Spend(Refilled(limits, BucketAfter(limits, earlier, key), r));
      buckets := buckets[key := b];
      requests := requests + [r];
      forall k: string ensures Lookup(k) == BucketAfter(limits, requests, k) {
        BucketGrow(limits, earlier, r, k);
        assert k != key ==> Lookup(k) == old(Lookup(k)) == BucketAfter(limits, earlier, k);
      }
    }

    method Refill(key: string, now: real, after: real) returns (b: Bucket)
      ensures b == Refilled(limits, Lookup(key), Request(key, now, after))
      ensures var had := if key !in buckets then limits.burst
                         else buckets[key].tokens + (now - buckets[key].last) * limits.rate;
              b.tokens == if had <= limits.burst then had else limits.burst
    {
      if key !in buckets {
        return Bucket(limits.burst, after);
      }
      b := buckets[key];
      var tokens := b.tokens + Gain(limits.rate, now - b.last);
      if tokens > limits.burst {
        tokens := limits.burst;
      }
      b := Bucket(tokens, after);
    }
  }

  // -------------------------------------------------------------------- bound

  /** The requests of one key granted between times a and b. */
  function Grants(l: Limits, reqs: seq<Request>, key: string, a: real, b: real): nat {
    if reqs == [] then 0
    else
      var earlier, r := reqs[..|reqs| - 1], reqs[|reqs| - 1];
      Grants(l, earlier, key, a, b) + (if r.key == key && a <= r.now <= b && Granted(l, earlier, r) then 1 else 0)
  }

  /** Request i is one of that key, in that time, and found a token. */
  predicate GrantedAt(l: Limits, reqs: seq<Request>, key: string, a: real, b: real, i: int) {
    0 <= i < |reqs| && reqs[i].key == key && a <= reqs[i].now <= b && Granted(l, reqs[..i], reqs[i])
  }

  ghost function GrantedSet(l: Limits, reqs: seq<Request>, key: string, a: real, b: real): set<int> {
    set i | 0 <= i < |reqs| && GrantedAt(l, reqs, key, a, b, i)
  }

  lemma GrantedEarlier(l: Limits, reqs: seq<Request>, key: string, a: real, b: real, i: int)
    requires 0 <= i < |reqs| - 1
    ensures GrantedAt(l, reqs, key, a, b, i) <==> GrantedAt(l, reqs[..|reqs| - 1], key, a, b, i)
  {
    assert reqs[..|reqs| - 1][..i] == reqs[..i];
  }

  lemma GrantedSetGrows(l: Limits, reqs: seq<Request>, key: string, a: real, b: real)
    requires reqs != []
    ensures GrantedSet(l, reqs, key, a, b)
         == GrantedSet(l, reqs[..|reqs| - 1], key, a, b)
            + if GrantedAt(l, reqs, key, a, b, |reqs| - 1) then {|reqs| - 1} else {}
  {
    var n := |reqs| - 1;
    var more := GrantedSet(l, reqs[..n], key, a, b) + if GrantedAt(l, reqs, key, a, b, n) then {n} else {};
    forall i ensures i in GrantedSet(l, reqs, key, a, b) <==> i in more {
      if 0 <= i < n {
        GrantedEarlier(l, reqs, key, a, b, i);
      }
    }
  }

  /** The count is of exactly those. */
  lemma {:induction false} GrantsCounted(l: Limits, reqs: seq<Request>, key: string, a: real, b: real)
    ensures Grants(l, reqs, key, a, b) == |GrantedSet(l, reqs, key, a, b)|
  {
    if reqs == [] {
      assert GrantedSet(l, reqs, key, a, b) == {};
    } else {
      GrantsCounted(l, reqs[..|reqs| - 1], key, a, b);
      GrantedSetGrows(l, reqs, key, a, b);
    }
  }

  /** What a window's grants leave: spent and remaining tokens together stay under the budget. */
  ghost predicate Budget(l: Limits, bucket: Option<Bucket>, grants: nat, a: real, b: real) {
    && grants as real <= l.burst + Gain(l.rate, b - a)
    && (bucket.Some? ==> 0.0 <= bucket.value.tokens <= l.burst)
    && (bucket.None? || bucket.value.last < a ==> grants == 0)
    && (bucket.Some? && bucket.value.last >= a ==>
          grants as real + bucket.value.tokens <= l.burst + Gain(l.rate, bucket.value.last - a))
  }

  /** Time passing refills by a non-negative amount, and adjacent spans add up. */
  lemma Flow(rate: real, a: real, b: real)
    requires rate >= 0.0 && a <= b
    ensures Gain(rate, b - a) >= 0.0
  {
  }

  lemma FlowAdds(rate: real, a: real, b: real, c: real)
    ensures Gain(rate, b - a) + Gain(rate, c - b) == Gain(rate, c - a)
  {
  }

  /** Refilling at r keeps the budget, read at the time of r. */
  lemma RefillBudget(l: Limits, bucket: Option<Bucket>, grants: nat, r: Request, a: real, b: real)
    requires l.rate >= 0.0 && l.burst >= 0.0 && a <= b && Budget(l, bucket, grants, a, b)
    requires bucket.Some? ==> bucket.value.last <= r.now
    ensures 0.0 <= Refilled(l, bucket, r).tokens <= l.burst
    ensures r.now >= a ==> grants as real + Refilled(l, bucket, r).tokens <= l.burst + Gain(l.rate, r.now - a)
    ensures r.now < a ==> grants == 0
  {
    if r.now >= a {
      Flow(l.rate, a, r.now);
    }
    if bucket.Some? {
      Flow(l.rate, bucket.value.last, r.now);
      FlowAdds(l.rate, a, bucket.value.last, r.now);
    }
  }

  lemma StepBudget(l: Limits, bucket: Option<Bucket>, grants: nat, r: Request, a: real, b: real)
    requires l.rate >= 0.0 && l.burst >= 0.0 && a <= b && Budget(l, bucket, grants, a, b)
    requires (bucket.Some? ==> bucket.value.last <= r.now) && r.now <= r.after
    ensures var refilled := Refilled(l, bucket, r);
            Budget(l, Some(Spend(refilled)), grants + (if a <= r.now <= b && refilled.tokens >= 1.0 then 1 else 0), a,
                   b)
  {
    RefillBudget(l, bucket, grants, r, a, b);
    if r.after >= a {
      Flow(l.rate, a, r.after);
    }
    if r.now >= a {
      Flow(l.rate, r.now, r.after);
      FlowAdds(l.rate, a, r.now, r.after);
      if r.now <= b {
        Flow(l.rate, r.now, b);
        FlowAdds(l.rate, a, r.now, b);
      }
    }
  }

  lemma {:induction false} BucketClock(l: Limits, reqs: seq<Request>, key: string, t: real)
    requires forall r <- reqs :: r.after <= t
    ensures BucketAfter(l, reqs, key).Some? ==> BucketAfter(l, reqs, key).value.last <= t
  {
    if reqs != [] {
      var earlier := reqs[..|reqs| - 1];
      assert forall r <- earlier :: r in reqs;
      BucketClock(l, earlier, key, t);
    }
  }

  lemma {:induction false} RunBudget(l: Limits, reqs: seq<Request>, key: string, a: real, b: real)
    requires l.rate >= 0.0 && l.burst >= 0.0 && a <= b && Clocked(reqs)
    ensures Budget(l, BucketAfter(l, reqs, key), Grants(l, reqs, key, a, b), a, b)
  {
    if reqs == [] {
      Flow(l.rate, a, b);
    } else {
      var earlier, r := reqs[..|reqs| - 1], reqs[|reqs| - 1];
      RunBudget(l, earlier, key, a, b);
      BucketClock(l, earlier, key, r.now);
      if r.key == key {
        StepBudget(l, BucketAfter(l, earlier, key), Grants(l, earlier, key, a, b), r, a, b);
      }
    }
  }

  /** Grants to one key in any window of time are at most burst + rate * length. */
  lemma WindowBound(l: Limits, reqs: seq<Request>, key: string, a: real, b: real)
    requires l.rate >= 0.0 && l.burst >= 0.0 && a <= b && Clocked(reqs)
    ensures Grants(l, reqs, key, a, b) as real <= l.burst + Gain(l.rate, b - a)
  {
    RunBudget(l, reqs, key, a, b);
  }

  // ------------------------------------------------------------- independence

  function Own(reqs: seq<Request>, key: string): seq<Request> {
    if reqs == [] then []
    else
      var front, r := Own(reqs[..|reqs| - 1], key), reqs[|reqs| - 1];
      if r.key == key then front + [r] else front
  }

  /** Its own requests: those with the key, each as often as it was made. */
  lemma {:induction false} OwnExactly(reqs: seq<Request>, key: string, r: Request)
    ensures multiset(Own(reqs, key))[r] == if r.key == key then multiset(reqs)[r] else 0
  {
    if reqs != [] {
      OwnExactly(reqs[..|reqs| - 1], key, r);
      assert reqs == reqs[..|reqs| - 1] + [reqs[|reqs| - 1]];
    }
  }

  /** And in their order: each prefix of the requests holds a prefix of its own. */
  lemma {:induction false} OwnInOrder(reqs: seq<Request>, n: nat, key: string)
    requires n <= |reqs|
    ensures Own(reqs[..n], key) <= Own(reqs, key)
    decreases |reqs|
  {
    if n == |reqs| {
      assert reqs[..n] == reqs;
    } else {
      assert reqs[..|reqs| - 1][..n] == reqs[..n];
      OwnInOrder(reqs[..|reqs| - 1], n, key);
    }
  }

  lemma OwnLast(reqs: seq<Request>, key: string)
    requires reqs != [] && reqs[|reqs| - 1].key == key
    ensures var own := Own(reqs, key);
            own != [] && own[|own| - 1] == reqs[|reqs| - 1] && own[..|own| - 1] == Own(reqs[..|reqs| - 1], key)
  {
  }

  lemma {:induction false} OwnBucket(l: Limits, reqs: seq<Request>, key: string)
    ensures BucketAfter(l, reqs, key) == BucketAfter(l, Own(reqs, key), key)
  {
    if reqs != [] {
      OwnBucket(l, reqs[..|reqs| - 1], key);
      if reqs[|reqs| - 1].key == key {
        OwnLast(reqs, key);
      }
    }
  }

  /** A key's grants depend on its own requests alone. */
  lemma {:induction false} OthersDoNotMatter(l: Limits, reqs: seq<Request>, key: string, a: real, b: real)
    ensures Grants(l, reqs, key, a, b) == Grants(l, Own(reqs, key), key, a, b)
  {
    if reqs != [] {
      var earlier := reqs[..|reqs| - 1];
      OthersDoNotMatter(l, earlier, key, a, b);
      if reqs[|reqs| - 1].key == key {
        OwnLast(reqs, key);
        OwnBucket(l, earlier, key);
      }
    }
  }

  lemma PeriodGains(rate: real, period: real, t: real)
    requires rate > 0.0 && period * rate == 1.0
    ensures t * rate >= 1.0 <==> t >= period
  {
    assert t * rate - 1.0 == (t - period) * rate;
  }

  /** A token takes 1/rate seconds. */
  lemma OneToken(rate: real, t: real)
    requires rate > 0.0
    ensures Gain(rate, t) >= 1.0 <==> t >= 1.0 / rate
  {
    PeriodGains(rate, 1.0 / rate, t);
  }

  lemma CappedHolds(tokens: real, gain: real, burst: real)
    requires tokens >= 0.0 && gain >= 1.0 && burst >= 1.0
    ensures Capped(tokens, gain, burst) >= 1.0
  {
  }

  /** A key never seen, or idle for as long as one token takes, is granted when the bucket can hold a token. */
  lemma IdleIsGranted(l: Limits, earlier: seq<Request>, r: Request)
    requires l.rate >= 0.0 && l.burst >= 1.0 && Clocked(earlier)
    requires var bucket := BucketAfter(l, earlier, r.key);
             bucket.Some? ==> Gain(l.rate, r.now - bucket.value.last) >= 1.0
    ensures Granted(l, earlier, r)
  {
    RunBudget(l, earlier, r.key, 0.0, 0.0);
    var bucket := BucketAfter(l, earlier, r.key);
    if bucket.Some? {
      CappedHolds(bucket.value.tokens, Gain(l.rate, r.now - bucket.value.last), l.burst);
    }
  }

  /** Requests of one key at one instant. */
  function Burst(key: string, t: real, n: nat): seq<Request> {
    seq(n, _ => Request(key, t, t))
  }

  lemma {:induction false} BurstLeaves(l: Limits, key: string, t: real, n: nat)
    requires 0 < n && n as real <= l.burst
    ensures BucketAfter(l, Burst(key, t, n), key) == Some(Bucket(l.burst - n as real, t))
  {
    assert Burst(key, t, n)[..n - 1] == Burst(key, t, n - 1);
    if n > 1 {
      BurstLeaves(l, key, t, n - 1);
    }
  }

  /** A new key is granted exactly as many requests at one instant as there are whole tokens in a full bucket. */
  lemma BurstIsGranted(l: Limits, key: string, t: real, n: nat)
    requires n as real <= l.burst
    ensures Granted(l, Burst(key, t, n), Request(key, t, t)) <==> (n + 1) as real <= l.burst
  {
    if n > 0 {
      BurstLeaves(l, key, t, n);
    }
  }
}
