/** The in-memory token bucket rate limiter, under its default FREE-only quota.

    Clock readings and token counts are real numbers. The bucket map keeps insertion order, which
    decides between equally old buckets when the map is full. */
module RateLimiter {
  import opened Common

  datatype Quota = Quota(max: real, windowMs: real)

  predicate ValidQuota(q: Quota) {
    q.max > 0.0 && q.windowMs > 0.0
  }

  datatype Bucket = Bucket(tokens: real, lastRefill: real, lastAccess: real)

  datatype Decision = Admitted | Rejected(retryAfterSec: int)

  function MinReal(a: real, b: real): real {
    if a <= b then a else b
  }

  /** Tokens earned in an interval. */
  function Gain(q: Quota, elapsed: real): real
    requires ValidQuota(q)
  {
    elapsed / q.windowMs * q.max
  }

  /** A whole quota per window, evenly: elapsed * max / windowMs. */
  lemma GainIsRate(q: Quota, elapsed: real)
    requires ValidQuota(q)
    ensures Gain(q, elapsed) == elapsed * q.max / q.windowMs
  {
  }

  lemma GainFacts(q: Quota, a: real, b: real)
    requires ValidQuota(q)
    ensures Gain(q, a + b) == Gain(q, a) + Gain(q, b)
    ensures a >= 0.0 ==> Gain(q, a) >= 0.0
    ensures b >= q.windowMs ==> Gain(q, b) >= q.max
  {
    assert (a + b) / q.windowMs == a / q.windowMs + b / q.windowMs;
    if b >= q.windowMs {
      assert b / q.windowMs >= 1.0;
      assert (b / q.windowMs - 1.0) * q.max >= 0.0;
    }
  }

  function Refill(b: Bucket, q: Quota, now: real): Bucket
    requires ValidQuota(q)
  {
    var elapsed := now - b.lastRefill;
    if elapsed <= 0.0 then b
    else b.(tokens := MinReal(q.max, b.tokens + Gain(q, elapsed)), lastRefill := now)
  }

  function Ceiling(x: real): int {
    -(-x).Floor
  }

  function RetryAfter(b: Bucket, q: Quota): (sec: int)
    requires ValidQuota(q)
  {
    var refillRatePerMs := q.max / q.windowMs;
    var tokensNeeded := 1.0 - b.tokens;
    if tokensNeeded <= 0.0 then 0 else
      var sec := Ceiling(tokensNeeded / refillRatePerMs / 1000.0);
      if sec >= 1 then sec else 1
  }

  /** One request against one bucket. */
  function Serve(b: Bucket, q: Quota, now: real): (Bucket, Decision)
    requires ValidQuota(q)
  {
    var r := Refill(b, q, now).(lastAccess := now);
    if r.tokens < 1.0 then (r, Rejected(RetryAfter(r, q)))
    else (r.(tokens := r.tokens - 1.0), Admitted)
  }

  function Fresh(q: Quota, now: real): Bucket {
    Bucket(q.max, now, now)
  }

  // ------------------------------------------------------------------ the bucket map

  /** `order` lists the keys by insertion. */
  datatype State = State(order: seq<string>, buckets: map<string, Bucket>)

  const EMPTY := State([], map[])

  ghost predicate WellFormed(st: State) {
    && (forall k :: k in st.order <==> k in st.buckets)
    && Distinct(st.order)
  }

  predicate Distinct(s: seq<string>) {
    s == [] || (s[0] !in s[1..] && Distinct(s[1..]))
  }

  function Without(order: seq<string>, key: string): (r: seq<string>)
    ensures forall k :: k in r <==> k in order && k != key
    ensures |r| <= |order|
  {
    if order == [] then []
    else if order[0] == key then Without(order[1..], key)
    else [order[0]] + Without(order[1..], key)
  }

  lemma {:induction false} WithoutDistinct(order: seq<string>, key: string)
    requires Distinct(order)
    ensures Distinct(Without(order, key))
  {
    if order != [] {
      WithoutDistinct(order[1..], key);
      assert ([order[0]] + Without(order[1..], key))[1..] == Without(order[1..], key);
    }
  }

  lemma {:induction false} AppendDistinct(order: seq<string>, key: string)
    requires Distinct(order) && key !in order
    ensures Distinct(order + [key])
  {
    if order != [] {
      AppendDistinct(order[1..], key);
      assert (order + [key])[1..] == order[1..] + [key];
    } else {
      assert (order + [key])[1..] == [];
    }
  }

  /** The least recently used key among the first `n`, the earliest inserted one on a tie. */
  function OldestOf(st: State, n: nat): (k: Option<string>)
    requires n <= |st.order| && forall i :: 0 <= i < n ==> st.order[i] in st.buckets
    ensures k.None? <==> n == 0
    ensures k.Some? ==> k.value in st.order && k.value in st.buckets
    ensures k.Some? ==> forall i :: 0 <= i < n ==> st.buckets[k.value].lastAccess <= st.buckets[st.order[i]].lastAccess
  {
    if n == 0 then None else
      var best := OldestOf(st, n - 1);
      if best.None? || st.buckets[st.order[n - 1]].lastAccess < st.buckets[best.value].lastAccess
      then Some(st.order[n - 1]) else best
  }

  function Evict(st: State): State
    requires WellFormed(st)
  {
    match OldestOf(st, |st.order|)
    case None => st
    case Some(k) => State(Without(st.order, k), st.buckets - {k})
  }

  /** Room for a new bucket; `cap` is absent for the unbounded map used as reference. */
  function MakeRoom(st: State, cap: Option<nat>): State
    requires WellFormed(st)
  {
    if cap.Some? && |st.order| >= cap.value then Evict(st) else st
  }

  function Insert(st: State, key: string, b: Bucket): State {
    if key in st.buckets then st.(buckets := st.buckets[key := b])
    else State(st.order + [key], st.buckets[key := b])
  }

  function Handle(st: State, q: Quota, cap: Option<nat>, key: string, now: real): (State, Decision)
    requires WellFormed(st) && ValidQuota(q)
  {
    var room := if key in st.buckets then st else MakeRoom(st, cap);
    var bucket := if key in st.buckets then st.buckets[key] else Fresh(q, now);
    var served := Serve(bucket, q, now);
    (Insert(room, key, served.0), served.1)
  }

  lemma EvictWellFormed(st: State)
    requires WellFormed(st)
    ensures WellFormed(Evict(st))
  {
    var k := OldestOf(st, |st.order|);
    if k.Some? {
      WithoutDistinct(st.order, k.value);
    }
  }

  lemma HandleWellFormed(st: State, q: Quota, cap: Option<nat>, key: string, now: real)
    requires WellFormed(st) && ValidQuota(q)
    ensures WellFormed(Handle(st, q, cap, key, now).0)
    ensures key in Handle(st, q, cap, key, now).0.buckets
  {
    EvictWellFormed(st);
    var room := if key in st.buckets then st else MakeRoom(st, cap);
    if key !in room.buckets {
      AppendDistinct(room.order, key);
    }
  }

  lemma InsertTwice(st: State, key: string, b: Bucket, b': Bucket)
    ensures Insert(Insert(st, key, b), key, b') == Insert(st, key, b')
  {
    assert st.buckets[key := b][key := b'] == st.buckets[key := b'];
  }

  class Limiter {
    const quota: Quota
    const maxBuckets: nat
    var order: seq<string>
    var buckets: map<string, Bucket>

    ghost predicate Valid()
      reads this
    {
      ValidQuota(quota) && WellFormed(View())
    }

    ghost function View(): State
      reads this
    {
      State(order, buckets)
    }

    constructor (quota: Quota, maxBuckets: nat)
      requires ValidQuota(quota)
      ensures Valid() && View() == EMPTY && this.quota == quota && this.maxBuckets == maxBuckets
    {
      this.quota := quota;
      this.maxBuckets := maxBuckets;
      order := [];
      buckets := map[];
    }

    method FindOldest() returns (oldestKey: Option<string>)
      requires Valid()
      ensures oldestKey == OldestOf(View(), |order|)
    {
      oldestKey := None;
      var i := 0;
      while i < |order|
        invariant 0 <= i <= |order|
        invariant oldestKey == OldestOf(View(), i)
      {
        var k := order[i];
        if oldestKey.None? || buckets[k].lastAccess < buckets[oldestKey.value].lastAccess {
          oldestKey := Some(k);
        }
        i := i + 1;
      }
    }

    method EvictOldest()
      requires Valid()
      modifies this
      ensures Valid() && View() == Evict(old(View()))
    {
      EvictWellFormed(View());
      var oldestKey := FindOldest();
      if oldestKey.Some? {
        buckets := buckets - {oldestKey.value};
        order := Without(order, oldestKey.value);
      }
    }

    method GetOrCreateBucket(key: string, now: real) returns (b: Bucket)
      requires Valid()
      modifies this
      ensures Valid() && key in buckets && b == buckets[key]
      ensures View() == if key in old(buckets) then old(View())
                        else Insert(MakeRoom(old(View()), Some(maxBuckets)), key, Fresh(quota, now))
    {
      if key in buckets {
        return buckets[key];
      }
      EvictWellFormed(View());
      if |order| >= maxBuckets {
        EvictOldest();
      }
      b := Fresh(quota, now);
      assert key !in buckets;
      AppendDistinct(order, key);
      buckets := buckets[key := b];
      order := order + [key];
    }

    /** One request: refill, stamp the access, then spend a token or answer 429. */
    method RateLimit(key: string, now: real) returns (d: Decision)
      requires Valid()
      modifies this
      ensures Valid() && (View(), d) == Handle(old(View()), quota, Some(maxBuckets), key, now)
    {
      ghost var st := View();
      HandleWellFormed(st, quota, Some(maxBuckets), key, now);
      var bucket := GetOrCreateBucket(key, now);
      ghost var room, found := if key in st.buckets then st else MakeRoom(st, Some(maxBuckets)), bucket;
      bucket := Refill(bucket, quota, now).(lastAccess := now);
      InsertTwice(room, key, found, Serve(found, quota, now).0);
      if bucket.tokens < 1.0 {
        buckets := buckets[key := bucket];
        return Rejected(RetryAfter(bucket, quota));
      }
      bucket := bucket.(tokens := bucket.tokens - 1.0);
      buckets := buckets[key := bucket];
      return Admitted;
    }
  }

  // ------------------------------------------------------------------ runs

  datatype Request = Request(key: string, time: real)

  /** Bookkeeping that every reachable state satisfies under a non-decreasing clock. */
  predicate SaneBucket(b: Bucket, q: Quota, now: real) {
    0.0 <= b.tokens <= q.max && b.lastRefill == b.lastAccess <= now
  }

  ghost predicate Sane(st: State, q: Quota, now: real) {
    WellFormed(st) && forall k :: k in st.buckets ==> SaneBucket(st.buckets[k], q, now)
  }

  predicate Ordered(reqs: seq<Request>, from: real)
    decreases |reqs|
  {
    reqs == [] || (from <= reqs[0].time && Ordered(reqs[1..], reqs[0].time))
  }

  lemma ServeSane(b: Bucket, q: Quota, now: real)
    requires ValidQuota(q) && SaneBucket(b, q, now)
    ensures SaneBucket(Serve(b, q, now).0, q, now)
    ensures Refill(b, q, now).lastRefill == now
  {
    GainFacts(q, now - b.lastRefill, 0.0);
  }

  lemma HandleSane(st: State, q: Quota, cap: Option<nat>, key: string, now: real)
    requires ValidQuota(q) && Sane(st, q, now)
    ensures Sane(Handle(st, q, cap, key, now).0, q, now)
  {
    HandleWellFormed(st, q, cap, key, now);
    ServeSane(if key in st.buckets then st.buckets[key] else Fresh(q, now), q, now);
  }

  lemma SaneLater(st: State, q: Quota, now: real, later: real)
    requires Sane(st, q, now) && now <= later
    ensures Sane(st, q, later)
  {
  }

  /** The decisions of a run. */
  function Run(st: State, q: Quota, cap: Option<nat>, reqs: seq<Request>): (r: seq<Decision>)
    requires WellFormed(st) && ValidQuota(q)
    ensures |r| == |reqs|
    decreases |reqs|
  {
    if reqs == [] then [] else
      HandleWellFormed(st, q, cap, reqs[0].key, reqs[0].time);
      var h := Handle(st, q, cap, reqs[0].key, reqs[0].time);
      [h.1] + Run(h.0, q, cap, reqs[1..])
  }

  /** How many requests for `key` were admitted. */
  function AdmittedFor(key: string, reqs: seq<Request>, decisions: seq<Decision>): nat
    requires |reqs| == |decisions|
  {
    if reqs == [] then 0 else
      (if reqs[0].key == key && decisions[0] == Admitted then 1 else 0)
      + AdmittedFor(key, reqs[1..], decisions[1..])
  }

  /** The run never evicts the bucket of `key`. */
  predicate NeverEvicted(st: State, q: Quota, cap: Option<nat>, reqs: seq<Request>, key: string)
    requires WellFormed(st) && ValidQuota(q)
    decreases |reqs|
  {
    reqs == [] ||
    (HandleWellFormed(st, q, cap, reqs[0].key, reqs[0].time);
     var next := Handle(st, q, cap, reqs[0].key, reqs[0].time).0;
     (key in st.buckets ==> key in next.buckets) && NeverEvicted(next, q, cap, reqs[1..], key))
  }

  // ------------------------------------------------------------------ admission bound

  /** The tokens that `key` would hold after a refill at `now`. */
  function Potential(st: State, q: Quota, key: string, now: real): real
    requires ValidQuota(q)
  {
    if key in st.buckets then Refill(st.buckets[key], q, now).tokens else q.max
  }

  lemma PotentialGrowth(st: State, q: Quota, key: string, now: real, later: real)
    requires ValidQuota(q) && Sane(st, q, now) && now <= later
    ensures 0.0 <= Potential(st, q, key, now) <= q.max
    ensures Potential(st, q, key, later) <= Potential(st, q, key, now) + Gain(q, later - now)
  {
    GainFacts(q, later - now, 0.0);
    if key in st.buckets {
      var b := st.buckets[key];
      GainFacts(q, now - b.lastRefill, later - now);
      assert later - b.lastRefill == (now - b.lastRefill) + (later - now);
    }
  }

  /** A request spends one token of its own bucket if admitted and touches no other. */
  lemma PotentialStep(st: State, q: Quota, cap: Option<nat>, r: Request, key: string)
    requires ValidQuota(q) && Sane(st, q, r.time)
    requires var next := Handle(st, q, cap, r.key, r.time).0; key in st.buckets ==> key in next.buckets
    ensures var h := Handle(st, q, cap, r.key, r.time);
      Potential(h.0, q, key, r.time) ==
        Potential(st, q, key, r.time) - (if r.key == key && h.1 == Admitted then 1.0 else 0.0)
  {
    var h := Handle(st, q, cap, r.key, r.time);
    if r.key == key {
      var b := if key in st.buckets then st.buckets[key] else Fresh(q, r.time);
      ServeSane(b, q, r.time);
    }
  }

  /** One request and the time until it, against the rest of the run. */
  lemma PotentialPays(st: State, q: Quota, cap: Option<nat>, r: Request, key: string, s: real, t: real, rest: real)
    requires ValidQuota(q) && Sane(st, q, s) && s <= r.time <= t
    requires var next := Handle(st, q, cap, r.key, r.time).0; key in st.buckets ==> key in next.buckets
    requires rest <= Potential(Handle(st, q, cap, r.key, r.time).0, q, key, r.time) + Gain(q, t - r.time)
    ensures var paid := if r.key == key && Handle(st, q, cap, r.key, r.time).1 == Admitted then 1.0 else 0.0;
            rest + paid <= Potential(st, q, key, s) + Gain(q, t - s)
  {
    SaneLater(st, q, s, r.time);
    PotentialStep(st, q, cap, r, key);
    PotentialGrowth(st, q, key, s, r.time);
    GainFacts(q, r.time - s, t - r.time);
    assert t - s == (r.time - s) + (t - r.time);
  }

  /** The first request of a run and the rest. */
  lemma RunUnfolds(st: State, q: Quota, cap: Option<nat>, reqs: seq<Request>, key: string)
    requires WellFormed(st) && ValidQuota(q) && reqs != [] && NeverEvicted(st, q, cap, reqs, key)
    ensures var h := Handle(st, q, cap, reqs[0].key, reqs[0].time);
            && WellFormed(h.0) && NeverEvicted(h.0, q, cap, reqs[1..], key)
            && (key in st.buckets ==> key in h.0.buckets)
            && AdmittedFor(key, reqs, Run(st, q, cap, reqs))
               == AdmittedFor(key, reqs[1..], Run(h.0, q, cap, reqs[1..])) +
                 (if reqs[0].key == key && h.1 == Admitted then 1 else 0)
  {
    HandleWellFormed(st, q, cap, reqs[0].key, reqs[0].time);
    var h := Handle(st, q, cap, reqs[0].key, reqs[0].time);
    assert Run(st, q, cap, reqs)[1..] == Run(h.0, q, cap, reqs[1..]);
  }

  /** What a key is admitted is paid for by its potential and the time that passes. */
  lemma {:induction false} AdmissionPotential(
    st: State, q: Quota, cap: Option<nat>, reqs: seq<Request>, key: string, s: real, t: real)
    requires ValidQuota(q) && Sane(st, q, s) && Ordered(reqs, s) && s <= t
    requires forall i :: 0 <= i < |reqs| ==> reqs[i].time <= t
    requires NeverEvicted(st, q, cap, reqs, key)
    ensures AdmittedFor(key, reqs, Run(st, q, cap, reqs)) as real <= Potential(st, q, key, s) + Gain(q, t - s)
    decreases |reqs|
  {
    if reqs == [] {
      PotentialGrowth(st, q, key, s, t);
      GainFacts(q, t - s, 0.0);
    } else {
      var r := reqs[0];
      SaneLater(st, q, s, r.time);
      HandleSane(st, q, cap, r.key, r.time);
      var next := Handle(st, q, cap, r.key, r.time).0;
      RunUnfolds(st, q, cap, reqs, key);
      AdmissionPotential(next, q, cap, reqs[1..], key, r.time, t);
      var rest := AdmittedFor(key, reqs[1..], Run(next, q, cap, reqs[1..]));
      PotentialPays(st, q, cap, r, key, s, t, rest as real);
    }
  }

  /** A key whose bucket is not evicted during [s, t] is admitted at most
      max + (t - s) * max / windowMs times, in every run of every reachable limiter. */
  lemma AdmissionBound(st: State, q: Quota, cap: Option<nat>, reqs: seq<Request>, key: string, s: real, t: real)
    requires ValidQuota(q) && Sane(st, q, s) && Ordered(reqs, s) && s <= t
    requires forall i :: 0 <= i < |reqs| ==> reqs[i].time <= t
    requires NeverEvicted(st, q, cap, reqs, key)
    ensures AdmittedFor(key, reqs, Run(st, q, cap, reqs)) as real <= q.max + Gain(q, t - s)
  {
    AdmissionPotential(st, q, cap, reqs, key, s, t);
    PotentialGrowth(st, q, key, s, s);
  }

  // ------------------------------------------------------------------ nothing is rejected without cause

  /** After a while a bucket holds what it held and what it earned, or is full. */
  lemma PotentialAfter(st: State, q: Quota, key: string, now: real, later: real)
    requires ValidQuota(q) && Sane(st, q, now) && now <= later
    ensures Potential(st, q, key, later) == q.max ||
      Potential(st, q, key, later) >= Potential(st, q, key, now) + Gain(q, later - now)
  {
    if key in st.buckets {
      var b := st.buckets[key];
      GainFacts(q, now - b.lastRefill, later - now);
      GainFacts(q, later - now, 0.0);
      assert later - b.lastRefill == (now - b.lastRefill) + (later - now);
    }
  }

  /** A request takes one token at most, and only if it is admitted. */
  lemma PotentialFalls(st: State, q: Quota, cap: Option<nat>, r: Request, key: string)
    requires ValidQuota(q) && Sane(st, q, r.time)
    ensures var h := Handle(st, q, cap, r.key, r.time);
      Potential(h.0, q, key, r.time) >=
        Potential(st, q, key, r.time) - (if r.key == key && h.1 == Admitted then 1.0 else 0.0)
  {
    var h := Handle(st, q, cap, r.key, r.time);
    HandleWellFormed(st, q, cap, r.key, r.time);
    if key in st.buckets ==> key in h.0.buckets {
      PotentialStep(st, q, cap, r, key);
    } else {
      PotentialGrowth(st, q, key, r.time, r.time);
    }
  }

  /** How many of the requests from `i` up to `n` were admitted for the key. */
  function AdmittedBetween(key: string, reqs: seq<Request>, ds: seq<Decision>, i: nat, n: nat): nat
    requires i <= n <= |reqs| == |ds|
  {
    AdmittedFor(key, reqs[i..n], ds[i..n])
  }

  /** Since request `i` the key has been admitted so often that one more at request `n` would exceed a full bucket and
      all it earned. */
  predicate SpentSince(q: Quota, key: string, reqs: seq<Request>, ds: seq<Decision>, i: nat, n: nat)
    requires ValidQuota(q) && i <= n < |reqs| == |ds|
  {
    AdmittedBetween(key, reqs, ds, i, n) as real + 1.0 > q.max + Gain(q, reqs[n].time - reqs[i].time)
  }

  lemma AdmittedShifts(key: string, reqs: seq<Request>, ds: seq<Decision>, i: nat, n: nat)
    requires i <= n < |reqs| == |ds|
    ensures n > 0 && i > 0 ==>
      AdmittedBetween(key, reqs[1..], ds[1..], i - 1, n - 1) == AdmittedBetween(key, reqs, ds, i, n)
    ensures n > 0 && i == 0 ==>
      AdmittedBetween(key, reqs, ds, 0, n) == AdmittedBetween(key, reqs[1..], ds[1..], 0, n - 1) +
        (if reqs[0].key == key && ds[0] == Admitted then 1 else 0)
  {
    if n > 0 && i > 0 {
      assert reqs[1..][i - 1..n - 1] == reqs[i..n] && ds[1..][i - 1..n - 1] == ds[i..n];
    }
    if n > 0 && i == 0 {
      assert reqs[0..n][1..] == reqs[1..][0..n - 1] && ds[0..n][1..] == ds[1..][0..n - 1];
    }
  }

  lemma RejectedAtOnce(st: State, q: Quota, cap: Option<nat>, r: Request)
    requires ValidQuota(q) && Sane(st, q, r.time) && Handle(st, q, cap, r.key, r.time).1.Rejected?
    ensures Potential(st, q, r.key, r.time) < 1.0 && Gain(q, r.time - r.time) == 0.0
  {
    GainFacts(q, 0.0, 0.0);
    ServeSane(if r.key in st.buckets then st.buckets[r.key] else Fresh(q, r.time), q, r.time);
  }

  /** From a state in which the key has at least `least`: a rejection means that this and what was earned is spent, or
      that a full bucket has been since. */
  lemma {:induction false} RejectionExplained(
    st: State, q: Quota, cap: Option<nat>, reqs: seq<Request>, n: nat, s: real, least: real)
    returns (i: int)
    requires ValidQuota(q) && Sane(st, q, s) && Ordered(reqs, s) && n < |reqs|
    requires Potential(st, q, reqs[n].key, s) >= least
    requires Run(st, q, cap, reqs)[n].Rejected?
    ensures -1 <= i <= n
    ensures i >= 0 ==> SpentSince(q, reqs[n].key, reqs, Run(st, q, cap, reqs), i, n)
    ensures i == -1 ==>
      AdmittedBetween(reqs[n].key, reqs, Run(st, q, cap, reqs), 0, n) as real + 1.0 >
        least + Gain(q, reqs[n].time - s)
    decreases |reqs|
  {
    var key, ds := reqs[n].key, Run(st, q, cap, reqs);
    var full, held := HeldAt(st, q, reqs[0], key, s, least);
    if n == 0 {
      RejectedAtOnce(st, q, cap, reqs[0]);
      i := if full then 0 else -1;
    } else {
      var next := HeldAfter(st, q, cap, reqs[0], key, held);
      assert ds[1..] == Run(next, q, cap, reqs[1..]);
      var paid := if reqs[0].key == key && ds[0] == Admitted then 1.0 else 0.0;
      var j := RejectionExplained(next, q, cap, reqs[1..], n - 1, reqs[0].time, held - paid);
      if j >= 0 {
        i := j + 1;
        SpentShifts(q, key, reqs, ds, j, n);
      } else {
        i := if full then 0 else -1;
        SpentFrom(q, key, reqs, ds, n, s, least, full, held);
      }
    }
  }

  /** What the key has at the next request: all of a full bucket, or what it had and earned. */
  lemma HeldAt(st: State, q: Quota, r: Request, key: string, s: real, least: real) returns (full: bool, held: real)
    requires ValidQuota(q) && Sane(st, q, s) && s <= r.time && Potential(st, q, key, s) >= least
    ensures Sane(st, q, r.time) && Potential(st, q, key, r.time) >= held
    ensures held == if full then q.max else least + Gain(q, r.time - s)
  {
    SaneLater(st, q, s, r.time);
    PotentialAfter(st, q, key, s, r.time);
    full := Potential(st, q, key, r.time) == q.max;
    held := if full then q.max else least + Gain(q, r.time - s);
  }

  lemma HeldAfter(st: State, q: Quota, cap: Option<nat>, r: Request, key: string, held: real) returns (next: State)
    requires ValidQuota(q) && Sane(st, q, r.time) && Potential(st, q, key, r.time) >= held
    ensures next == Handle(st, q, cap, r.key, r.time).0 && Sane(next, q, r.time)
    ensures Potential(next, q, key, r.time) >=
      held - (if r.key == key && Handle(st, q, cap, r.key, r.time).1 == Admitted then 1.0 else 0.0)
  {
    next := Handle(st, q, cap, r.key, r.time).0;
    HandleSane(st, q, cap, r.key, r.time);
    PotentialFalls(st, q, cap, r, key);
  }

  lemma SpentFrom(
    q: Quota, key: string, reqs: seq<Request>, ds: seq<Decision>, n: nat, s: real, least: real, full: bool, held: real)
    requires ValidQuota(q) && 0 < n < |reqs| == |ds|
    requires held == if full then q.max else least + Gain(q, reqs[0].time - s)
    requires AdmittedBetween(key, reqs[1..], ds[1..], 0, n - 1) as real + 1.0 >
      held - (if reqs[0].key == key && ds[0] == Admitted then 1.0 else 0.0) + Gain(q, reqs[n].time - reqs[0].time)
    ensures full ==> SpentSince(q, key, reqs, ds, 0, n)
    ensures !full ==> AdmittedBetween(key, reqs, ds, 0, n) as real + 1.0 > least + Gain(q, reqs[n].time - s)
  {
    SpentEarlier(key, reqs, ds, n, held, Gain(q, reqs[n].time - reqs[0].time));
    GainSplits(q, s, reqs[0].time, reqs[n].time);
  }

  lemma SpentShifts(q: Quota, key: string, reqs: seq<Request>, ds: seq<Decision>, j: nat, n: nat)
    requires ValidQuota(q) && 0 < n < |reqs| == |ds| && j < n && SpentSince(q, key, reqs[1..], ds[1..], j, n - 1)
    ensures SpentSince(q, key, reqs, ds, j + 1, n)
  {
    AdmittedShifts(key, reqs, ds, j + 1, n);
    assert reqs[1..][n - 1] == reqs[n] && reqs[1..][j] == reqs[j + 1];
  }

  /** One request earlier: what was held then, less what this request took. */
  lemma SpentEarlier(key: string, reqs: seq<Request>, ds: seq<Decision>, n: nat, held: real, earned: real)
    requires 0 < n < |reqs| == |ds|
    requires AdmittedBetween(key, reqs[1..], ds[1..], 0, n - 1) as real + 1.0 >
      held - (if reqs[0].key == key && ds[0] == Admitted then 1.0 else 0.0) + earned
    ensures AdmittedBetween(key, reqs, ds, 0, n) as real + 1.0 > held + earned
  {
    AdmittedShifts(key, reqs, ds, 0, n);
  }

  lemma GainSplits(q: Quota, a: real, b: real, c: real)
    requires ValidQuota(q)
    ensures Gain(q, b - a) + Gain(q, c - b) == Gain(q, c - a)
  {
    GainFacts(q, b - a, c - b);
    assert c - a == (b - a) + (c - b);
  }

  /** The bound is tight. In every run of an empty limiter a rejected request comes after an interval in which the key
      was admitted so often that one more would break max + elapsed * max / windowMs. */
  lemma RejectedOnlyWhenSpent(q: Quota, cap: Option<nat>, reqs: seq<Request>, n: nat) returns (i: nat)
    requires ValidQuota(q) && n < |reqs| && Ordered(reqs, reqs[0].time) && Run(EMPTY, q, cap, reqs)[n].Rejected?
    ensures i <= n
    ensures SpentSince(q, reqs[n].key, reqs, Run(EMPTY, q, cap, reqs), i, n)
  {
    var j := RejectionExplained(EMPTY, q, cap, reqs, n, reqs[0].time, q.max);
    i := if j == -1 then 0 else j;
  }

  // ------------------------------------------------------------------ the size cap

  /** The `j`-th bucket was used before every one inserted earlier. */
  predicate StrictlyOldest(st: State, j: nat)
    requires j < |st.order| && forall i :: 0 <= i <= j ==> st.order[i] in st.buckets
  {
    forall i :: 0 <= i < j ==> st.buckets[st.order[j]].lastAccess < st.buckets[st.order[i]].lastAccess
  }

  /** The bucket evicted is the least recently used, and the first inserted of those. */
  lemma {:induction false} OldestIsFirst(st: State, n: nat)
    requires n <= |st.order| && forall i :: 0 <= i < n ==> st.order[i] in st.buckets
    ensures n > 0 ==> exists j :: 0 <= j < n && OldestOf(st, n) == Some(st.order[j]) && StrictlyOldest(st, j)
  {
    if n > 1 {
      OldestIsFirst(st, n - 1);
      var j :| 0 <= j < n - 1 && OldestOf(st, n - 1) == Some(st.order[j]) && StrictlyOldest(st, j);
      if OldestOf(st, n) != OldestOf(st, n - 1) { assert OldestOf(st, n) == Some(st.order[n - 1]); }
    } else if n == 1 {
      assert OldestOf(st, 0).None? && OldestOf(st, 1) == Some(st.order[0]);
    }
  }

  lemma {:induction false} WithoutLength(order: seq<string>, key: string)
    requires Distinct(order) && key in order
    ensures |Without(order, key)| == |order| - 1
  {
    if order[0] == key {
      WithoutAbsent(order[1..], key);
    } else {
      WithoutLength(order[1..], key);
    }
  }

  lemma {:induction false} WithoutAbsent(order: seq<string>, key: string)
    requires key !in order
    ensures Without(order, key) == order
  {
    if order != [] { WithoutAbsent(order[1..], key); }
  }

  /** The map never outgrows its cap, and nothing is evicted before it is full: a known key changes no other bucket,
      a new one takes a free place, or that of one bucket. */
  lemma CapIsKept(st: State, q: Quota, cap: nat, key: string, now: real)
    requires WellFormed(st) && ValidQuota(q) && cap >= 1 && |st.order| <= cap
    ensures var next := Handle(st, q, Some(cap), key, now).0;
            && |next.order| <= cap && key in next.buckets
            && (key in st.buckets || |st.order| < cap ==> forall k :: k in st.buckets ==> k in next.buckets)
            && (key !in st.buckets && |st.order| == cap ==> |next.order| == cap)
            && (forall k :: k in next.buckets && k != key ==> k in st.buckets && next.buckets[k] == st.buckets[k])
  {
    EvictWellFormed(st);
    var k := OldestOf(st, |st.order|);
    if k.Some? { WithoutLength(st.order, k.value); }
  }

  /** A bucket left alone for a whole window is as good as new. */
  predicate Idle(b: Bucket, q: Quota, now: real) {
    b.lastAccess + q.windowMs <= now
  }

  /** Every bucket this run evicts has been idle for a whole window. */
  predicate EvictsOnlyIdle(st: State, q: Quota, cap: Option<nat>, reqs: seq<Request>)
    requires WellFormed(st) && ValidQuota(q)
    decreases |reqs|
  {
    reqs == [] ||
    (HandleWellFormed(st, q, cap, reqs[0].key, reqs[0].time);
     var next := Handle(st, q, cap, reqs[0].key, reqs[0].time).0;
     (forall k :: k in st.buckets && k !in next.buckets ==> Idle(st.buckets[k], q, reqs[0].time))
     && EvictsOnlyIdle(next, q, cap, reqs[1..]))
  }

  /** The capped map agrees with the unbounded one up to buckets that are idle by now. */
  ghost predicate Agree(capped: State, full: State, q: Quota, now: real) {
    && (forall k :: k in capped.buckets ==> k in full.buckets && full.buckets[k] == capped.buckets[k])
    && (forall k :: k in full.buckets && k !in capped.buckets ==> Idle(full.buckets[k], q, now))
  }

  lemma IdleServesLikeFresh(b: Bucket, q: Quota, now: real)
    requires ValidQuota(q) && SaneBucket(b, q, now) && Idle(b, q, now)
    ensures Serve(b, q, now) == Serve(Fresh(q, now), q, now)
  {
    GainFacts(q, 0.0, now - b.lastRefill);
  }

  lemma AgreeStep(capped: State, full: State, q: Quota, cap: Option<nat>, r: Request)
    requires ValidQuota(q) && Sane(capped, q, r.time) && Sane(full, q, r.time) && Agree(capped, full, q, r.time)
    requires var next := Handle(capped, q, cap, r.key, r.time).0;
      forall k :: k in capped.buckets && k !in next.buckets ==> Idle(capped.buckets[k], q, r.time)
    ensures Handle(capped, q, cap, r.key, r.time).1 == Handle(full, q, None, r.key, r.time).1
    ensures Agree(Handle(capped, q, cap, r.key, r.time).0, Handle(full, q, None, r.key, r.time).0, q, r.time)
  {
    if r.key !in capped.buckets && r.key in full.buckets {
      IdleServesLikeFresh(full.buckets[r.key], q, r.time);
    }
  }

  lemma AgreeLater(capped: State, full: State, q: Quota, now: real, later: real)
    requires Agree(capped, full, q, now) && now <= later
    ensures Agree(capped, full, q, later)
  {
  }

  /** The size-capped map makes the same decisions as an unbounded one in every run in which each
      evicted bucket had been idle for a whole window. */
  lemma {:induction false} CapIsInvisible(
    capped: State, full: State, q: Quota, cap: Option<nat>, reqs: seq<Request>, now: real)
    requires ValidQuota(q) && Sane(capped, q, now) && Sane(full, q, now) && Agree(capped, full, q, now)
    requires Ordered(reqs, now) && EvictsOnlyIdle(capped, q, cap, reqs)
    ensures Run(capped, q, cap, reqs) == Run(full, q, None, reqs)
    decreases |reqs|
  {
    if reqs != [] {
      var r := reqs[0];
      SaneLater(capped, q, now, r.time);
      SaneLater(full, q, now, r.time);
      AgreeLater(capped, full, q, now, r.time);
      AgreeStep(capped, full, q, cap, r);
      HandleSane(capped, q, cap, r.key, r.time);
      HandleSane(full, q, None, r.key, r.time);
      CapIsInvisible(Handle(capped, q, cap, r.key, r.time).0, Handle(full, q, None, r.key, r.time).0, q, cap, reqs[1..],
        r.time);
    }
  }

  // ------------------------------------------------------------------ Retry-After

  lemma CeilingBound(x: real)
    ensures x <= Ceiling(x) as real
  {
  }

  lemma RetryAfterRefills(b: Bucket, q: Quota)
    requires ValidQuota(q) && b.tokens < 1.0
    ensures RetryAfter(b, q) >= 1
    ensures b.tokens + Gain(q, 1000.0 * RetryAfter(b, q) as real) >= 1.0
  {
    var rate := q.max / q.windowMs;
    var need := 1.0 - b.tokens;
    var sec := RetryAfter(b, q) as real;
    CeilingBound(need / rate / 1000.0);
    assert sec >= need / rate / 1000.0;
    assert 1000.0 * sec >= need / rate;
    assert rate > 0.0;
    assert 1000.0 * sec * rate >= need by {
      assert need / rate * rate == need;
      assert (1000.0 * sec - need / rate) * rate >= 0.0;
    }
    assert Gain(q, 1000.0 * sec) == 1000.0 * sec * rate;
  }

  /** And no less will do: after a second less than Retry-After there is no whole token yet, unless it is the least
      answer of one second. */
  lemma RetryAfterIsLeast(b: Bucket, q: Quota)
    requires ValidQuota(q) && b.tokens < 1.0 && RetryAfter(b, q) > 1
    ensures b.tokens + Gain(q, 1000.0 * (RetryAfter(b, q) - 1) as real) < 1.0
  {
    var rate := q.max / q.windowMs;
    var need := 1.0 - b.tokens;
    var sec := RetryAfter(b, q);
    CeilingLeast(need / rate / 1000.0);
    assert (sec - 1) as real < need / rate / 1000.0;
    var x := 1000.0 * (sec - 1) as real;
    assert x < need / rate;
    assert x * rate < need by {
      assert need / rate * rate == need;
      assert (need / rate - x) * rate > 0.0;
    }
    assert Gain(q, x) == x * rate;
  }

  lemma CeilingLeast(x: real)
    ensures (Ceiling(x) - 1) as real < x
  {
  }

  /** The state after a run. */
  function After(st: State, q: Quota, cap: Option<nat>, reqs: seq<Request>): (r: State)
    requires WellFormed(st) && ValidQuota(q)
    ensures WellFormed(r)
    decreases |reqs|
  {
    if reqs == [] then st else
      HandleWellFormed(st, q, cap, reqs[0].key, reqs[0].time);
      After(Handle(st, q, cap, reqs[0].key, reqs[0].time).0, q, cap, reqs[1..])
  }

  /** Requests of other keys leave a bucket as it is, or evict it. */
  lemma {:induction false} OthersLeaveBucket(st: State, q: Quota, cap: Option<nat>, reqs: seq<Request>, key: string)
    requires WellFormed(st) && ValidQuota(q)
    requires forall i :: 0 <= i < |reqs| ==> reqs[i].key != key
    ensures var end := After(st, q, cap, reqs);
      key in end.buckets ==> key in st.buckets && end.buckets[key] == st.buckets[key]
    decreases |reqs|
  {
    if reqs != [] {
      HandleWellFormed(st, q, cap, reqs[0].key, reqs[0].time);
      OthersLeaveBucket(Handle(st, q, cap, reqs[0].key, reqs[0].time).0, q, cap, reqs[1..], key);
    }
  }

  /** After a 429, a client that waits Retry-After seconds without sending is admitted, whatever
      other keys do meanwhile, exactly when the quota allows a whole token at all. */
  lemma RetryAfterGuarantee(
    st: State, q: Quota, cap: Option<nat>, key: string, now: real, others: seq<Request>, later: real)
    requires ValidQuota(q) && Sane(st, q, now)
    requires Handle(st, q, cap, key, now).1.Rejected?
    requires forall i :: 0 <= i < |others| ==> others[i].key != key
    requires later >= now + 1000.0 * Handle(st, q, cap, key, now).1.retryAfterSec as real
    ensures WellFormed(Handle(st, q, cap, key, now).0)
    ensures var end := After(Handle(st, q, cap, key, now).0, q, cap, others);
      Handle(end, q, cap, key, later).1 == Admitted <==> q.max >= 1.0
  {
    HandleSane(st, q, cap, key, now);
    var first := Handle(st, q, cap, key, now);
    var end := After(first.0, q, cap, others);
    OthersLeaveBucket(first.0, q, cap, others, key);
    var before := if key in st.buckets then st.buckets[key] else Fresh(q, now);
    assert first.0.buckets[key] == Serve(before, q, now).0;
    if key in end.buckets {
      WaitServes(before, q, now, later);
    }
  }

  lemma WaitServes(b: Bucket, q: Quota, now: real, later: real)
    requires ValidQuota(q) && SaneBucket(b, q, now) && Serve(b, q, now).1.Rejected?
    requires later >= now + 1000.0 * Serve(b, q, now).1.retryAfterSec as real
    ensures Serve(Serve(b, q, now).0, q, later).1 == Admitted <==> q.max >= 1.0
  {
    ServeSane(b, q, now);
    var r := Serve(b, q, now).0;
    RetryAfterRefills(r, q);
    var wait := 1000.0 * RetryAfter(r, q) as real;
    GainFacts(q, later - now - wait, wait);
    assert later - now == (later - now - wait) + wait;
    assert Refill(r, q, later).tokens == MinReal(q.max, r.tokens + Gain(q, later - now));
  }
}
