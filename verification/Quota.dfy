/** The sender's quota under concurrency: any interleaving of reserve and release steps against a tracker
    that returns the live total and records the reservation in one atomic step. */
module Quota {
  import opened Capabilities
  import opened Reservations

  /** One principal's metric over one window. */
  datatype Key = Key(principal: string, metric: string, windowStart: int)

  /** A live reservation; `accepted` is the orchestrator's own verdict against the token's limit. */
  datatype Live = Live(id: RecordId, amount: real, accepted: bool)

  type Ledger = seq<Live>

  datatype Step =
    | Reserve(key: Key, id: RecordId, amount: real, max: real)
    | Release(key: Key, id: RecordId)     // a cancel, or the tracker's own clean-up

  type State = map<Key, Ledger>

  function At(s: State, key: Key): Ledger {
    if key in s then s[key] else []
  }

  function Total(l: Ledger): real {
    if l == [] then 0.0 else Total(l[..|l| - 1]) + l[|l| - 1].amount
  }

  /** The part of the total that belongs to accepted requests. */
  function AcceptedTotal(l: Ledger): real {
    if l == [] then 0.0 else AcceptedTotal(l[..|l| - 1]) + (if l[|l| - 1].accepted then l[|l| - 1].amount else 0.0)
  }

  function Without(l: Ledger, id: RecordId): Ledger {
    if l == [] then [] else Without(l[..|l| - 1], id) + (if l[|l| - 1].id == id then [] else [l[|l| - 1]])
  }

  /** The orchestrator's decision on the total the tracker returned. */
  predicate Accepts(l: Ledger, amount: real, max: real) {
    !Refused(Replied(true, Total(l)), amount, max)
  }

  /** The reservation is in the ledger whether or not it is accepted; an over-limit one stays until it is
      released, and for a metric that counts every attempt it stays for good. */
  function Next(s: State, e: Step): State {
    match e
    case Reserve(key, id, amount, max) => s[key := At(s, key) + [Live(id, amount, Accepts(At(s, key), amount, max))]]
    case Release(key, id) => s[key := Without(At(s, key), id)]
  }

  function Run(steps: seq<Step>): State
    decreases |steps|
  {
    if steps == [] then map[] else Next(Run(steps[..|steps| - 1]), steps[|steps| - 1])
  }

  predicate NonNegative(steps: seq<Step>) {
    forall i :: 0 <= i < |steps| && steps[i].Reserve? ==> steps[i].amount >= 0.0
  }

  predicate AmountsNonNegative(l: Ledger) {
    forall i :: 0 <= i < |l| ==> l[i].amount >= 0.0
  }

  lemma {:induction false} AcceptedWithinTotal(l: Ledger)
    requires AmountsNonNegative(l)
    ensures 0.0 <= AcceptedTotal(l) <= Total(l)
    decreases |l|
  {
    if l != [] {
      AcceptedWithinTotal(l[..|l| - 1]);
    }
  }

  lemma {:induction false} WithoutShrinks(l: Ledger, id: RecordId)
    requires AmountsNonNegative(l)
    ensures AmountsNonNegative(Without(l, id)) && AcceptedTotal(Without(l, id)) <= AcceptedTotal(l)
    decreases |l|
  {
    if l != [] {
      var rest := Without(l[..|l| - 1], id);
      WithoutShrinks(l[..|l| - 1], id);
      if l[|l| - 1].id == id {
        assert rest + [] == rest;
      } else {
        assert (rest + [l[|l| - 1]])[..|rest|] == rest;
      }
    }
  }

  lemma {:induction false} RunNonNegative(steps: seq<Step>, key: Key)
    requires NonNegative(steps)
    ensures AmountsNonNegative(At(Run(steps), key))
    decreases |steps|
  {
    if steps != [] {
      var before := steps[..|steps| - 1];
      assert forall i :: 0 <= i < |before| ==> before[i] == steps[i];
      RunNonNegative(before, key);
      var e := steps[|steps| - 1];
      if e.Release? && e.key == key {
        WithoutShrinks(At(Run(before), key), e.id);
      }
    }
  }

  lemma AppendTotals(l: Ledger, x: Live)
    ensures Total(l + [x]) == Total(l) + x.amount
    ensures AcceptedTotal(l + [x]) == AcceptedTotal(l) + (if x.accepted then x.amount else 0.0)
  {
    assert (l + [x])[..|l|] == l;
  }

  /** Step `i` is a reservation that its own limit accepts. */
  predicate AcceptedAt(steps: seq<Step>, i: nat) {
    i < |steps| && steps[i].Reserve? && Accepts(At(Run(steps[..i]), steps[i].key), steps[i].amount, steps[i].max)
  }

  /** Right after every acceptance, the live reservations of accepted requests are within the limit it was
      accepted under, whatever over-limit reservations are in the ledger at that moment. */
  lemma QuotaHolds(steps: seq<Step>, i: nat)
    requires NonNegative(steps) && AcceptedAt(steps, i)
    ensures AcceptedTotal(At(Run(steps[..i + 1]), steps[i].key)) <= steps[i].max
  {
    var e := steps[i];
    var before := At(Run(steps[..i]), e.key);
    assert steps[..i + 1][..i] == steps[..i];
    var x := Live(e.id, e.amount, true);
    assert At(Run(steps[..i + 1]), e.key) == before + [x];
    AppendTotals(before, x);
    assert NonNegative(steps[..i]);
    RunNonNegative(steps[..i], e.key);
    AcceptedWithinTotal(before);
  }

  /** All reservations of a key are made under one limit. */
  predicate UniformMax(steps: seq<Step>, key: Key, max: real) {
    forall i :: 0 <= i < |steps| && steps[i].Reserve? && steps[i].key == key ==> steps[i].max == max
  }

  /** Under one limit the bound holds at every moment of every run. */
  lemma {:induction false} UniformQuotaHolds(steps: seq<Step>, key: Key, max: real)
    requires NonNegative(steps) && UniformMax(steps, key, max) && max >= 0.0
    ensures AcceptedTotal(At(Run(steps), key)) <= max
    decreases |steps|
  {
    if steps != [] {
      var n := |steps| - 1;
      var before := steps[..n];
      assert forall i :: 0 <= i < n ==> before[i] == steps[i];
      UniformQuotaHolds(before, key, max);
      var e := steps[n];
      RunNonNegative(before, key);
      if e.key == key && e.Release? {
        WithoutShrinks(At(Run(before), key), e.id);
      } else if e.key == key && AcceptedAt(steps, n) {
        assert steps[..n + 1] == steps;
        QuotaHolds(steps, n);
      } else if e.key == key {
        AppendTotals(At(Run(before), key), Live(e.id, e.amount, false));
      }
    }
  }

  lemma RunOfTwo(key: Key, a: RecordId, b: RecordId, x: real, y: real, m: real, n: real)
    ensures var steps := [Reserve(key, a, x, m), Reserve(key, b, y, n)];
            && At(Run(steps[..0]), key) == []
            && At(Run(steps[..1]), key) == [Live(a, x, Accepts([], x, m))]
            && At(Run(steps), key) ==
                [Live(a, x, Accepts([], x, m)), Live(b, y, Accepts([Live(a, x, Accepts([], x, m))], y, n))]
  {
    var first := Reserve(key, a, x, m);
    var steps := [first, Reserve(key, b, y, n)];
    assert steps[..0] == [] && steps[..1] == [first] && [first][..0] == [];
    assert Run([first]) == Next(map[], first);
    assert Run(steps) == Next(Run([first]), steps[1]);
  }

  lemma TotalOfOne(x: Live)
    ensures Total([]) == 0.0 && Total([x]) == x.amount && AcceptedTotal([x]) == if x.accepted then x.amount else 0.0
  {
    assert [x][..0] == [];
  }

  lemma TotalOfTwo(x: Live, y: Live)
    ensures AcceptedTotal([x, y]) == (if x.accepted then x.amount else 0.0) + (if y.accepted then y.amount else 0.0)
  {
    assert [x, y][..1] == [x];
    TotalOfOne(x);
  }

  /** Two refused reservations, the release of the first, and one more reservation. */
  function NegativeRun(key: Key, a: RecordId, b: RecordId, c: RecordId, x: real, max: real): seq<Step> {
    [Reserve(key, a, max - 2.0 * x, max), Reserve(key, b, x, max), Release(key, a), Reserve(key, c, max - x, max)]
  }

  lemma NegativeLedger(key: Key, a: RecordId, b: RecordId, c: RecordId, x: real, max: real)
    requires x < 0.0 && max >= 0.0 && a != b
    ensures At(Run(NegativeRun(key, a, b, c, x, max)[..3]), key) == [Live(b, x, false)]
  {
    var steps := NegativeRun(key, a, b, c, x, max);
    var first, second := Live(a, max - 2.0 * x, false), Live(b, x, false);
    TotalOfOne(first);
    RunOfTwo(key, a, b, max - 2.0 * x, x, max, max);
    assert steps[..2] == [steps[0], steps[1]] && steps[..3][..2] == steps[..2];
    assert At(Run(steps[..2]), key) == [first, second];
    assert [first, second][..1] == [first] && [first][..0] == [];
    assert Without([first, second], a) == Without([first], a) + [second] && Without([first], a) == [];
  }

  /** With any negative amount and any legal limit the bound fails: while a refused reservation of that
      amount is live, it hides as much of the total. */
  lemma NegativeAmountBreaks(key: Key, a: RecordId, b: RecordId, c: RecordId, x: real, max: real)
    requires x < 0.0 && max >= 0.0 && a != b
    ensures var steps := NegativeRun(key, a, b, c, x, max);
            AcceptedAt(steps, 3) && AcceptedTotal(At(Run(steps), key)) > max
  {
    var steps := NegativeRun(key, a, b, c, x, max);
    NegativeLedger(key, a, b, c, x, max);
    TotalOfOne(Live(b, x, false));
    TotalOfTwo(Live(b, x, false), Live(c, max - x, true));
    assert At(Run(steps), key) == [Live(b, x, false), Live(c, max - x, true)];
  }

  /** Every amount is at least `low`, and every limit is one that a token may carry. */
  predicate Admissible(steps: seq<Step>, low: real) {
    forall i :: 0 <= i < |steps| && steps[i].Reserve? ==> steps[i].amount >= low && steps[i].max >= 0.0
  }

  ghost predicate BoundedAfter(steps: seq<Step>, i: nat) {
    AcceptedAt(steps, i) ==> AcceptedTotal(At(Run(steps[..i + 1]), steps[i].key)) <= steps[i].max
  }

  /** Non-negativity is the exact condition: a lower bound on amounts secures the quota in every run if
      and only if it is at least zero. */
  lemma QuotaIsExact(low: real)
    ensures (forall steps, i: nat :: Admissible(steps, low) ==> BoundedAfter(steps, i)) <==> low >= 0.0
  {
    if low >= 0.0 {
      forall steps, i: nat | Admissible(steps, low) ensures BoundedAfter(steps, i) {
        if AcceptedAt(steps, i) { QuotaHolds(steps, i); }
      }
    } else {
      var key, id := Key("", "transaction_amount", 0), (p: string) => RecordId(p, "transaction_amount", Day);
      var steps := NegativeRun(key, id("a"), id("b"), id("c"), low, 0.0);
      NegativeAmountBreaks(key, id("a"), id("b"), id("c"), low, 0.0);
      assert steps[..4] == steps;
      assert Admissible(steps, low) && !BoundedAfter(steps, 3);
    }
  }

  /** The bound is about the moment of acceptance: under any larger limit a later reservation is accepted
      that takes the total past the smaller one. */
  lemma LargerLimitLater(key: Key, a: RecordId, b: RecordId, max: real, larger: real)
    requires 0.0 <= max < larger
    ensures var steps := [Reserve(key, a, max, max), Reserve(key, b, larger - max, larger)];
            AcceptedAt(steps, 0) && AcceptedAt(steps, 1) && AcceptedTotal(At(Run(steps), key)) == larger
  {
    RunOfTwo(key, a, b, max, larger - max, max, larger);
    TotalOfOne(Live(a, max, true));
    TotalOfTwo(Live(a, max, true), Live(b, larger - max, true));
  }
}
