/** The rolling latency window: a ring of reused time buckets against a plain time-stamped log.

    A t-digest is abstracted to the multiset of its samples, and clock readings are real numbers
    that never decrease. */
module RollingWindow {
  import opened Common

  datatype Sample = Sample(time: real, ms: real)

  /** `count` buckets of `width` milliseconds; the window is their product. */
  datatype Ring = Ring(count: int, width: real)

  predicate ValidRing(g: Ring) {
    g.count >= 1 && g.width > 0.0
  }

  // ------------------------------------------------------------------ slots

  function Slot(g: Ring, t: real): int
    requires ValidRing(g)
  {
    (t / g.width).Floor
  }

  /** Dafny's remainder is never negative, so the second modulo of the original is not needed. */
  function Index(g: Ring, slot: int): (i: int)
    requires ValidRing(g)
    ensures 0 <= i < g.count
  {
    slot % g.count
  }

  function SlotStart(g: Ring, slot: int): real {
    slot as real * g.width
  }

  lemma SlotBounds(g: Ring, t: real)
    requires ValidRing(g)
    ensures SlotStart(g, Slot(g, t)) <= t < SlotStart(g, Slot(g, t) + 1)
  {
    var k := Slot(g, t);
    FloorBounds(t / g.width, k);
    DivideBack(t, g.width);
    Between(g.width, k as real, t / g.width, (k + 1) as real, t);
  }

  lemma Between(w: real, a: real, x: real, b: real, t: real)
    requires w > 0.0 && a <= x < b && x * w == t
    ensures a * w <= t < b * w
  {
    ScaleOrder(w, a, x);
    ScaleOrder(w, x, b);
  }

  lemma FloorBounds(x: real, k: int)
    requires k == x.Floor
    ensures k as real <= x < (k + 1) as real
  {
  }

  lemma DivideBack(t: real, w: real)
    requires w > 0.0
    ensures t / w * w == t
  {
  }

  lemma ScaleOrder(w: real, a: real, b: real)
    requires w > 0.0
    ensures a <= b ==> a * w <= b * w
    ensures a < b ==> a * w < b * w
  {
    assert (b - a) * w == b * w - a * w;
  }

  lemma StartOrder(g: Ring, a: int, b: int)
    requires ValidRing(g) && a <= b
    ensures SlotStart(g, a) <= SlotStart(g, b)
  {
    assert (b - a) as real * g.width >= 0.0;
  }

  lemma StartAfter(g: Ring, slot: int, n: int)
    ensures SlotStart(g, slot + n) == SlotStart(g, slot) + n as real * g.width
  {
  }

  lemma SlotMonotone(g: Ring, s: real, t: real)
    requires ValidRing(g) && s <= t
    ensures Slot(g, s) <= Slot(g, t)
  {
    SlotBounds(g, s);
    SlotBounds(g, t);
    if Slot(g, t) < Slot(g, s) {
      StartOrder(g, Slot(g, t) + 1, Slot(g, s));
    }
  }

  /** Two slots that share a bucket are the same or a whole turn apart. */
  lemma WholeTurn(g: Ring, a: int, b: int)
    requires ValidRing(g) && Index(g, a) == Index(g, b) && a < b
    ensures b >= a + g.count
  {
    var qa, qb := a / g.count, b / g.count;
    assert b - a == g.count * (qb - qa);
    MulSign(g.count, qb - qa);
  }

  lemma MulSign(n: int, x: int)
    requires n >= 1
    ensures x >= 1 ==> n * x >= n
    ensures x <= 0 ==> n * x <= 0
  {
  }

  // ------------------------------------------------------------------ the log

  function Pick(log: seq<Sample>, p: Sample -> bool): multiset<real> {
    if log == [] then multiset{}
    else Pick(log[..|log| - 1], p) + (if p(log[|log| - 1]) then multiset{log[|log| - 1].ms} else multiset{})
  }

  lemma {:induction false} PickSubset(log: seq<Sample>, p: Sample -> bool, q: Sample -> bool)
    requires forall x :: x in log && p(x) ==> q(x)
    ensures Pick(log, p) <= Pick(log, q)
  {
    if log != [] {
      PickSubset(log[..|log| - 1], p, q);
    }
  }

  lemma PickSame(log: seq<Sample>, p: Sample -> bool, q: Sample -> bool)
    requires forall x :: x in log ==> p(x) == q(x)
    ensures Pick(log, p) == Pick(log, q)
  {
    PickSubset(log, p, q);
    PickSubset(log, q, p);
  }

  lemma {:induction false} PickUnion(log: seq<Sample>, p: Sample -> bool, q: Sample -> bool, both: Sample -> bool)
    requires forall x :: x in log ==> both(x) == (p(x) || q(x)) && !(p(x) && q(x))
    ensures Pick(log, both) == Pick(log, p) + Pick(log, q)
  {
    if log != [] {
      PickUnion(log[..|log| - 1], p, q, both);
    }
  }

  function InSlot(g: Ring, slot: int): Sample -> bool
    requires ValidRing(g)
  {
    (x: Sample) => Slot(g, x.time) == slot
  }

  /** The last slot recorded into bucket `i`. */
  function Latest(g: Ring, log: seq<Sample>, i: int): (k: Option<int>)
    requires ValidRing(g)
    ensures k.Some? ==> Index(g, k.value) == i
  {
    if log == [] then None
    else if Index(g, Slot(g, log[|log| - 1].time)) == i then Some(Slot(g, log[|log| - 1].time))
    else Latest(g, log[..|log| - 1], i)
  }

  predicate InOrder(log: seq<Sample>) {
    forall a, b :: 0 <= a <= b < |log| ==> log[a].time <= log[b].time
  }

  lemma {:induction false} LatestBounds(g: Ring, log: seq<Sample>, x: Sample)
    requires ValidRing(g) && InOrder(log) && x in log
    ensures var k := Latest(g, log, Index(g, Slot(g, x.time)));
      k.Some? && Slot(g, x.time) <= k.value && k.value <= Slot(g, log[|log| - 1].time)
  {
    var last := log[|log| - 1];
    SlotMonotone(g, x.time, last.time);
    if Index(g, Slot(g, last.time)) != Index(g, Slot(g, x.time)) {
      var front := log[..|log| - 1];
      LatestBounds(g, front, x);
      SlotMonotone(g, front[|front| - 1].time, last.time);
    }
  }

  /** What bucket `i` holds: the samples of its latest slot. */
  function BucketOf(g: Ring, log: seq<Sample>, i: int): multiset<real>
    requires ValidRing(g)
  {
    match Latest(g, log, i)
    case None => multiset{}
    case Some(k) => Pick(log, InSlot(g, k))
  }

  function Cutoff(g: Ring, t: real): real {
    t - g.count as real * g.width
  }

  predicate Unexpired(g: Ring, slot: int, t: real) {
    SlotStart(g, slot) + g.width > Cutoff(g, t)
  }

  /** A sample is visible at `t` if its slot is unexpired and has not been overwritten. */
  predicate IsVisible(g: Ring, log: seq<Sample>, t: real, x: Sample)
    requires ValidRing(g)
  {
    var k := Slot(g, x.time);
    Latest(g, log, Index(g, k)) == Some(k) && Unexpired(g, k, t)
  }

  function Visible(g: Ring, log: seq<Sample>, t: real): Sample -> bool
    requires ValidRing(g)
  {
    (x: Sample) => IsVisible(g, log, t, x)
  }

  function VisibleBelow(g: Ring, log: seq<Sample>, t: real, n: int): Sample -> bool
    requires ValidRing(g)
  {
    (x: Sample) => IsVisible(g, log, t, x) && Index(g, Slot(g, x.time)) < n
  }

  function Kept(g: Ring, log: seq<Sample>, t: real, i: int): multiset<real>
    requires ValidRing(g)
  {
    match Latest(g, log, i)
    case None => multiset{}
    case Some(k) => if Unexpired(g, k, t) then Pick(log, InSlot(g, k)) else multiset{}
  }

  /** Merging one more bucket adds exactly its visible samples. */
  lemma MergeBucket(g: Ring, log: seq<Sample>, t: real, i: int)
    requires ValidRing(g) && 0 <= i < g.count && InOrder(log)
    ensures Pick(log, VisibleBelow(g, log, t, i + 1)) == Pick(log, VisibleBelow(g, log, t, i)) + Kept(g, log, t, i)
  {
    var k := Latest(g, log, i);
    var here: Sample -> bool := (x: Sample) => k.Some? && Slot(g, x.time) == k.value && Unexpired(g, k.value, t);
    forall x | x in log
      ensures VisibleBelow(g, log, t, i + 1)(x) == (VisibleBelow(g, log, t, i)(x) || here(x))
      ensures !(VisibleBelow(g, log, t, i)(x) && here(x))
    {
    }
    PickUnion(log, VisibleBelow(g, log, t, i), here, VisibleBelow(g, log, t, i + 1));
    if k.Some? && Unexpired(g, k.value, t) {
      PickSame(log, here, InSlot(g, k.value));
    } else {
      PickNothing(log, here);
    }
  }

  lemma {:induction false} PickNothing(log: seq<Sample>, p: Sample -> bool)
    requires forall x :: x in log ==> !p(x)
    ensures Pick(log, p) == multiset{}
  {
    if log != [] {
      PickNothing(log[..|log| - 1], p);
    }
  }

  lemma {:induction false} LatestIsLast(g: Ring, log: seq<Sample>, i: int)
    requires ValidRing(g) && InOrder(log) && Latest(g, log, i).Some?
    ensures exists y :: y in log && Slot(g, y.time) == Latest(g, log, i).value
  {
    var last := log[|log| - 1];
    if Index(g, Slot(g, last.time)) == i {
      assert last in log;
    } else {
      LatestIsLast(g, log[..|log| - 1], i);
      var y :| y in log[..|log| - 1] && Slot(g, y.time) == Latest(g, log[..|log| - 1], i).value;
      assert y in log;
    }
  }

  /** Which samples a snapshot shows: those whose bucket ends after the start of the window, t less count widths, and
      was not taken over since by a later slot. */
  lemma VisibleMeaning(g: Ring, log: seq<Sample>, t: real, x: Sample)
    requires ValidRing(g) && InOrder(log) && x in log
    ensures IsVisible(g, log, t, x) <==>
      && SlotStart(g, Slot(g, x.time)) + g.width > t - g.count as real * g.width
      && forall y :: y in log && Slot(g, y.time) > Slot(g, x.time) ==>
          Slot(g, y.time) % g.count != Slot(g, x.time) % g.count
  {
    var k := Slot(g, x.time);
    LatestBounds(g, log, x);
    var m := Latest(g, log, Index(g, k));
    LatestIsLast(g, log, Index(g, k));
    forall y | y in log && Index(g, Slot(g, y.time)) == Index(g, k) ensures Slot(g, y.time) <= m.value {
      LatestBounds(g, log, y);
    }
  }

  // ------------------------------------------------------------------ bounds on age

  function NoOlderThan(t: real, age: real): Sample -> bool {
    (x: Sample) => t - x.time <= age
  }

  function YoungerThan(t: real, age: real): Sample -> bool {
    (x: Sample) => t - x.time < age
  }

  /** A sample at least one bucket younger than the window has not been overwritten. */
  lemma YoungIsVisible(g: Ring, log: seq<Sample>, t: real, x: Sample)
    requires ValidRing(g) && InOrder(log) && x in log && log[|log| - 1].time <= t
    requires t - x.time <= (g.count - 1) as real * g.width
    ensures IsVisible(g, log, t, x)
  {
    var k := Slot(g, x.time);
    LatestBounds(g, log, x);
    YoungSlot(g, x.time, t);
    var m := Latest(g, log, Index(g, k)).value;
    SlotMonotone(g, log[|log| - 1].time, t);
    if k < m {
      WholeTurn(g, k, m);
    }
  }

  /** At most the window less one width later, the next turn of the ring has not begun. */
  lemma YoungSlot(g: Ring, s: real, t: real)
    requires ValidRing(g) && t - s <= (g.count - 1) as real * g.width
    ensures Slot(g, t) < Slot(g, s) + g.count && Unexpired(g, Slot(g, s), t)
  {
    var k := Slot(g, s);
    SlotBounds(g, s);
    SlotBounds(g, t);
    StartAfter(g, k, 1);
    StartAfter(g, k, g.count);
    WindowLess(g);
    if k + g.count <= Slot(g, t) {
      StartOrder(g, k + g.count, Slot(g, t));
    }
  }

  lemma WindowLess(g: Ring)
    ensures (g.count - 1) as real * g.width == g.count as real * g.width - g.width
    ensures (g.count + 1) as real * g.width == g.count as real * g.width + g.width
  {
  }

  lemma VisibleIsYoung(g: Ring, log: seq<Sample>, t: real, x: Sample)
    requires ValidRing(g) && IsVisible(g, log, t, x)
    ensures t - x.time < (g.count + 1) as real * g.width
  {
    SlotBounds(g, x.time);
    WindowLess(g);
  }

  /** A snapshot at `t` holds every sample of age at most the window less one bucket width, and
      none of age the window plus one bucket width or more. */
  lemma SnapshotBounds(g: Ring, log: seq<Sample>, t: real)
    requires ValidRing(g) && InOrder(log) && (log != [] ==> log[|log| - 1].time <= t)
    ensures Pick(log, NoOlderThan(t, (g.count - 1) as real * g.width)) <= Pick(log, Visible(g, log, t))
    ensures Pick(log, Visible(g, log, t)) <= Pick(log, YoungerThan(t, (g.count + 1) as real * g.width))
  {
    forall x | x in log && t - x.time <= (g.count - 1) as real * g.width ensures Visible(g, log, t)(x) {
      YoungIsVisible(g, log, t, x);
    }
    PickSubset(log, NoOlderThan(t, (g.count - 1) as real * g.width), Visible(g, log, t));
    forall x | x in log && Visible(g, log, t)(x) ensures t - x.time < (g.count + 1) as real * g.width {
      VisibleIsYoung(g, log, t, x);
    }
    PickSubset(log, Visible(g, log, t), YoungerThan(t, (g.count + 1) as real * g.width));
  }

  // ------------------------------------------------------------------ recording

  /** Bucket `i` of the ring represents the log: its start is that of its latest slot (absent while
      it is minus infinity) and its contents are the samples of that slot. */
  predicate Represents(g: Ring, log: seq<Sample>, i: int, start: Option<real>, digest: multiset<real>)
    requires ValidRing(g)
  {
    && digest == BucketOf(g, log, i)
    && (match Latest(g, log, i) case None => start == None case Some(k) => start == Some(SlotStart(g, k)))
  }

  lemma OtherBucketUnchanged(g: Ring, log: seq<Sample>, x: Sample, i: int, start: Option<real>, digest: multiset<real>)
    requires ValidRing(g) && Represents(g, log, i, start, digest) && Index(g, Slot(g, x.time)) != i
    ensures Represents(g, log + [x], i, start, digest)
  {
    assert (log + [x])[..|log|] == log;
  }

  /** Recording either extends the current slot of the bucket or restarts it. */
  lemma OwnBucket(g: Ring, log: seq<Sample>, x: Sample, start: Option<real>, digest: multiset<real>)
    requires ValidRing(g) && InOrder(log + [x])
    requires Represents(g, log, Index(g, Slot(g, x.time)), start, digest)
    ensures var k := Slot(g, x.time);
      var reset := start.None? || x.time - start.value >= g.width;
      Represents(g, log + [x], Index(g, k), if reset then Some(SlotStart(g, k)) else start,
                 (if reset then multiset{} else digest) + multiset{x.ms})
  {
    var k := Slot(g, x.time);
    var log' := log + [x];
    assert log'[..|log|] == log;
    SlotBounds(g, x.time);
    StartAfter(g, k, 1);
    assert Latest(g, log', Index(g, k)) == Some(k);
    match Latest(g, log, Index(g, k)) {
      case None =>
        NothingInSlot(g, log, k);
      case Some(m) =>
        LatestIsPast(g, log, x, Index(g, k));
        if m == k {
        } else {
          StartAfter(g, m, 1);
          StartOrder(g, m + 1, k);
          NothingInSlot(g, log, k);
        }
    }
  }

  lemma {:induction false} LatestIsPast(g: Ring, log: seq<Sample>, x: Sample, i: int)
    requires ValidRing(g) && InOrder(log + [x]) && Latest(g, log, i).Some?
    ensures Latest(g, log, i).value <= Slot(g, x.time)
    decreases |log|
  {
    var last := log[|log| - 1];
    assert (log + [x])[|log| - 1] == last && (log + [x])[|log|] == x;
    SlotMonotone(g, last.time, x.time);
    if Index(g, Slot(g, last.time)) != i {
      var front := log[..|log| - 1];
      assert forall a :: 0 <= a < |front| ==> (front + [x])[a] == (log + [x])[a];
      LatestIsPast(g, front, x, i);
    }
  }

  lemma NothingInSlot(g: Ring, log: seq<Sample>, k: int)
    requires ValidRing(g) && InOrder(log)
    requires var m := Latest(g, log, Index(g, k)); m.None? || m.value < k
    ensures Pick(log, InSlot(g, k)) == multiset{}
  {
    forall x | x in log ensures Slot(g, x.time) != k {
      LatestBounds(g, log, x);
    }
    PickNothing(log, InSlot(g, k));
  }

  ghost predicate RepresentsAll(g: Ring, log: seq<Sample>, starts: seq<Option<real>>, digests: seq<multiset<real>>) {
    && ValidRing(g) && InOrder(log) && |starts| == |digests| == g.count
    && forall i :: 0 <= i < g.count ==> Represents(g, log, i, starts[i], digests[i])
  }

  lemma RecordKeepsRing(g: Ring, log: seq<Sample>, x: Sample, starts: seq<Option<real>>, digests: seq<multiset<real>>)
    requires RepresentsAll(g, log, starts, digests) && InOrder(log + [x])
    ensures var k := Slot(g, x.time);
      var i := Index(g, k);
      var reset := starts[i].None? || x.time - starts[i].value >= g.width;
      RepresentsAll(g, log + [x],
        if reset then starts[i := Some(SlotStart(g, k))] else starts,
        digests[i := (if reset then multiset{} else digests[i]) + multiset{x.ms}])
  {
    var idx := Index(g, Slot(g, x.time));
    OwnBucket(g, log, x, starts[idx], digests[idx]);
    forall i | 0 <= i < g.count && i != idx ensures Represents(g, log + [x], i, starts[i], digests[i]) {
      OtherBucketUnchanged(g, log, x, i, starts[i], digests[i]);
    }
  }

  lemma KeptBucket(g: Ring, log: seq<Sample>, t: real, i: int, start: Option<real>, digest: multiset<real>)
    requires ValidRing(g) && Represents(g, log, i, start, digest)
    ensures Kept(g, log, t, i) ==
      if start.Some? && start.value + g.width > Cutoff(g, t) then digest else multiset{}
  {
  }

  lemma AllBelowCount(g: Ring, log: seq<Sample>, t: real)
    requires ValidRing(g)
    ensures Pick(log, VisibleBelow(g, log, t, 0)) == multiset{}
    ensures Pick(log, VisibleBelow(g, log, t, g.count)) == Pick(log, Visible(g, log, t))
  {
    PickNothing(log, VisibleBelow(g, log, t, 0));
    PickSame(log, VisibleBelow(g, log, t, g.count), Visible(g, log, t));
  }

  class LatencyTracker {
    const ring: Ring
    const digests: array<multiset<real>>
    const bucketStarts: array<Option<real>>
    ghost var log: seq<Sample>

    ghost predicate Valid()
      reads this, digests, bucketStarts
    {
      RepresentsAll(ring, log, bucketStarts[..], digests[..])
    }

    constructor (ring: Ring)
      requires ValidRing(ring)
      ensures Valid() && fresh(digests) && fresh(bucketStarts) && this.ring == ring && log == []
    {
      this.ring := ring;
      digests := new multiset<real>[ring.count](i => multiset{});
      bucketStarts := new Option<real>[ring.count](i => None);
      log := [];
    }

    /** Records a sample; a negative one is dropped. */
    method Record(ms: real, t: real)
      requires Valid() && (log != [] ==> log[|log| - 1].time <= t)
      modifies this, digests, bucketStarts
      ensures Valid()
      ensures log == if ms < 0.0 then old(log) else old(log) + [Sample(t, ms)]
    {
      if ms < 0.0 {
        return;
      }
      ghost var x := Sample(t, ms);
      var idx := Index(ring, Slot(ring, t));
      var start := bucketStarts[idx];
      ghost var starts, contents := bucketStarts[..], digests[..];
      var reset := start.None? || t - start.value >= ring.width;
      RecordKeepsRing(ring, log, x, starts, contents);
      if reset {
        digests[idx] := multiset{};
        bucketStarts[idx] := Some(SlotStart(ring, Slot(ring, t)));
      }
      digests[idx] := digests[idx] + multiset{ms};
      assert digests[..] == contents[idx := (if reset then multiset{} else contents[idx]) + multiset{ms}];
      assert bucketStarts[..] == if reset then starts[idx := Some(SlotStart(ring, Slot(ring, t)))] else starts;
      log := log + [x];
    }

    /** Merges the unexpired buckets: exactly the visible samples of the log. */
    method Snapshot(t: real) returns (merged: multiset<real>)
      requires Valid() && (log != [] ==> log[|log| - 1].time <= t)
      ensures merged == Pick(log, Visible(ring, log, t))
    {
      var cutoff := Cutoff(ring, t);
      merged := multiset{};
      var i := 0;
      AllBelowCount(ring, log, t);
      while i < ring.count
        invariant 0 <= i <= ring.count
        invariant merged == Pick(log, VisibleBelow(ring, log, t, i))
      {
        MergeBucket(ring, log, t, i);
        KeptBucket(ring, log, t, i, bucketStarts[..][i], digests[..][i]);
        var start := bucketStarts[i];
        if start.Some? && start.value + ring.width > cutoff {
          merged := merged + digests[i];
        }
        i := i + 1;
      }
    }
  }
}
