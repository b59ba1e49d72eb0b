/** Sender-side quota reservations: reserving for every cumulative scope of a token, and the
    compensating cancels. Calls to the tracker are recorded as a log of events. */
module Reservations {
  import opened Common
  import opened Capabilities

  /** Which outcomes of a request a metric counts: successes alone, or every attempt. */
  datatype CountFilter = SuccessOnly | Everything

  datatype Meter = Meter(counts: bool, filter: CountFilter)

  function MeterFieldRegistry(metric: string): Option<Meter> {
    if metric == "transaction_amount" then Some(Meter(false, SuccessOnly))
    else if metric == "api_call_count" then Some(Meter(true, Everything))
    else None
  }

  /** Made of the id drawn for this delivery, the metric and the window. */
  datatype RecordId = RecordId(pending: string, metric: string, window: Period)

  datatype Reservation = Reservation(id: RecordId, filter: CountFilter)

  datatype Event =
    | Reserved(reservation: Reservation)
    | CancelAttempted(id: RecordId)
    | ExecutorSucceeded(pending: string)

  datatype Error = Error(invalidMessage: bool, detail: string)

  datatype TrackerReply = Replied(allowed: bool, current: real) | TrackerThrows(error: Error)

  datatype CumulativeScope = CumulativeScope(source: string, metric: string, window: Period, max: real)

  // ------------------------------------------------------------------ open reservations of a log

  /** Success-only reservations made and not cancelled since. */
  function OpenStep(open: set<RecordId>, e: Event): set<RecordId> {
    match e
    case Reserved(r) => if r.filter.SuccessOnly? then open + {r.id} else open
    case CancelAttempted(id) => open - {id}
    case ExecutorSucceeded(_) => open
  }

  function OpenFrom(open: set<RecordId>, log: seq<Event>): set<RecordId>
    decreases |log|
  {
    if log == [] then open else OpenStep(OpenFrom(open, log[..|log| - 1]), log[|log| - 1])
  }

  function Open(log: seq<Event>): set<RecordId> {
    OpenFrom({}, log)
  }

  lemma {:induction false} OpenConcat(open: set<RecordId>, a: seq<Event>, b: seq<Event>)
    ensures OpenFrom(open, a + b) == OpenFrom(OpenFrom(open, a), b)
    decreases |b|
  {
    if b == [] {
      assert a + b == a;
    } else {
      var last := |b| - 1;
      OpenConcat(open, a, b[..last]);
      assert (a + b)[..|a + b| - 1] == a + b[..last];
    }
  }

  lemma OpenAppend(a: seq<Event>, e: Event)
    ensures Open(a + [e]) == OpenStep(Open(a), e)
  {
    assert (a + [e])[..|a|] == a;
  }

  function SuccessIds(rs: seq<Reservation>): set<RecordId> {
    set r | r in rs && r.filter.SuccessOnly? :: r.id
  }

  predicate NoCancels(log: seq<Event>) {
    forall e :: e in log ==> !e.CancelAttempted?
  }

  /** Only this delivery's reservations of success-only metrics are ever cancelled. */
  predicate CancelsAreOurs(log: seq<Event>, pending: string) {
    forall e :: e in log && e.CancelAttempted? ==>
      e.id.pending == pending && MeterFieldRegistry(e.id.metric) == Some(Meter(false, SuccessOnly))
  }

  /** A reservation as this module makes them. */
  predicate Ours(r: Reservation, pending: string) {
    && r.id.pending == pending && MeterFieldRegistry(r.id.metric).Some?
    && MeterFieldRegistry(r.id.metric).value.filter == r.filter
  }

  predicate AllOurs(rs: seq<Reservation>, pending: string) {
    forall r :: r in rs ==> Ours(r, pending)
  }

  predicate ReservationsAreOurs(log: seq<Event>, pending: string) {
    forall e :: e in log && e.Reserved? ==> Ours(e.reservation, pending)
  }

  lemma {:induction false} OpenIsOurs(log: seq<Event>, pending: string, id: RecordId)
    requires ReservationsAreOurs(log, pending) && id in Open(log)
    ensures id.pending == pending
    decreases |log|
  {
    if log != [] {
      var last := |log| - 1;
      if id in Open(log[..last]) {
        OpenIsOurs(log[..last], pending, id);
      } else {
        assert log[last] in log;
      }
    }
  }

  /** A success-only reservation is still open or a cancel was attempted after it. */
  lemma {:induction false} OpenOrCancelled(log: seq<Event>, a: nat)
    requires a < |log| && log[a].Reserved? && log[a].reservation.filter.SuccessOnly?
    ensures log[a].reservation.id in Open(log) || exists b ::
      a < b < |log| && log[b] == CancelAttempted(log[a].reservation.id)
    decreases |log|
  {
    var last := |log| - 1;
    if a < last {
      OpenOrCancelled(log[..last], a);
      if !(log[a].reservation.id in Open(log[..last])) {
        var b :| a < b < last && log[..last][b] == CancelAttempted(log[..last][a].reservation.id);
        assert log[b] == CancelAttempted(log[a].reservation.id);
      }
    }
  }

  // ------------------------------------------------------------------ cancelling

  function CancelLog(supported: bool, rs: seq<Reservation>): seq<Event>
    decreases |rs|
  {
    if !supported || rs == [] then [] else
      var last := |rs| - 1;
      CancelLog(supported, rs[..last]) + (if rs[last].filter.SuccessOnly? then [CancelAttempted(rs[last].id)] else [])
  }

  /** Every attempt is made; a failing one is logged by the orchestrator and changes nothing else. */
  method CancelReservedRecords(supported: bool, rs: seq<Reservation>) returns (log: seq<Event>)
    ensures log == CancelLog(supported, rs)
  {
    log := [];
    if !supported { return; }
    for i := 0 to |rs|
      invariant log == CancelLog(supported, rs[..i])
    {
      assert rs[..i + 1][..i] == rs[..i];
      if rs[i].filter.SuccessOnly? { log := log + [CancelAttempted(rs[i].id)]; }
    }
    assert rs[..|rs|] == rs;
  }

  lemma SuccessIdsStep(rs: seq<Reservation>, r: Reservation)
    ensures SuccessIds(rs + [r]) == SuccessIds(rs) + (if r.filter.SuccessOnly? then {r.id} else {})
  {
    forall id | id in SuccessIds(rs) + (if r.filter.SuccessOnly? then {r.id} else {})
      ensures id in SuccessIds(rs + [r])
    {
      if id in SuccessIds(rs) {
        var x :| x in rs && x.filter.SuccessOnly? && x.id == id;
        assert x in rs + [r];
      } else {
        assert r in rs + [r];
      }
    }
  }

  /** Cancelling releases exactly the success-only reservations of the list. */
  lemma {:induction false} CancelReleases(open: set<RecordId>, rs: seq<Reservation>)
    ensures OpenFrom(open, CancelLog(true, rs)) == open - SuccessIds(rs)
    decreases |rs|
  {
    if rs != [] {
      var last := |rs| - 1;
      CancelReleases(open, rs[..last]);
      assert rs == rs[..last] + [rs[last]];
      SuccessIdsStep(rs[..last], rs[last]);
      var before := CancelLog(true, rs[..last]);
      if rs[last].filter.SuccessOnly? {
        assert (before + [CancelAttempted(rs[last].id)])[..|before|] == before;
      } else {
        assert before + [] == before;
      }
    }
  }

  lemma {:induction false} CancelLogIsOurs(supported: bool, rs: seq<Reservation>, pending: string)
    requires AllOurs(rs, pending)
    ensures CancelsAreOurs(CancelLog(supported, rs), pending)
    ensures (forall e :: e in CancelLog(supported, rs) ==> e.CancelAttempted?)
    decreases |rs|
  {
    if supported && rs != [] {
      var last := |rs| - 1;
      CancelLogIsOurs(supported, rs[..last], pending);
      assert Ours(rs[last], pending);
    }
  }

  // ------------------------------------------------------------------ reserving

  /** `amount` is the request's amount field, when it is a number. */
  datatype Request = Request(pending: string, amount: Option<real>, cancelSupported: bool, reply: nat -> TrackerReply)

  datatype Evaluation =
    | Passed(reservations: seq<Reservation>)
    | Denied(reservations: seq<Reservation>)
    | Failed(error: Error)

  function ReserveAmount(m: Meter, amount: Option<real>): Option<real> {
    if m.counts then Some(1.0) else amount
  }

  /** What a log must look like after each kind of evaluation. */
  predicate EvaluationLog(q: Request, r: Evaluation, log: seq<Event>) {
    && CancelsAreOurs(log, q.pending) && ReservationsAreOurs(log, q.pending)
    && (forall e :: e in log ==> !e.ExecutorSucceeded?)
    && match r
       case Passed(rs) => AllOurs(rs, q.pending) && NoCancels(log) && Open(log) == SuccessIds(rs)
       case Denied(rs) => AllOurs(rs, q.pending) && (q.cancelSupported ==> Open(log) <= SuccessIds(rs))
       case Failed(_) => q.cancelSupported ==> Open(log) == {}
  }

  lemma FailedLog(q: Request, rs: seq<Reservation>, log: seq<Event>, error: Error)
    requires EvaluationLog(q, Passed(rs), log)
    ensures EvaluationLog(q, Failed(error), log + CancelLog(q.cancelSupported, rs))
  {
    CancelLogIsOurs(q.cancelSupported, rs, q.pending);
    if q.cancelSupported {
      OpenConcat({}, log, CancelLog(true, rs));
      CancelReleases(Open(log), rs);
    }
  }

  lemma OverLimitLog(q: Request, rs: seq<Reservation>, log: seq<Event>, r: Reservation)
    requires EvaluationLog(q, Passed(rs), log) && Ours(r, q.pending)
    ensures EvaluationLog(q, Denied(rs), log + [Reserved(r)] + CancelLog(q.cancelSupported, [r]))
  {
    CancelLogIsOurs(q.cancelSupported, [r], q.pending);
    OpenAppend(log, Reserved(r));
    if q.cancelSupported {
      OpenConcat({}, log + [Reserved(r)], CancelLog(true, [r]));
      CancelReleases(Open(log + [Reserved(r)]), [r]);
      assert [] + [r] == [r];
      SuccessIdsStep([], r);
    }
  }

  lemma ReservedLog(q: Request, rs: seq<Reservation>, log: seq<Event>, r: Reservation)
    requires EvaluationLog(q, Passed(rs), log) && Ours(r, q.pending)
    ensures EvaluationLog(q, Passed(rs + [r]), log + [Reserved(r)])
  {
    OpenAppend(log, Reserved(r));
    SuccessIdsStep(rs, r);
  }

  predicate Refused(reply: TrackerReply, amount: real, max: real)
    requires reply.Replied?
  {
    !reply.allowed || reply.current + amount > max
  }

  /** A scope for which the tracker is asked. */
  predicate Metered(s: CumulativeScope, q: Request) {
    && s.source == "action_record" && MeterFieldRegistry(s.metric).Some?
    && ReserveAmount(MeterFieldRegistry(s.metric).value, q.amount).Some?
  }

  /** The tracker grants the scope: it reserved, and the total stays within the token's own limit. */
  predicate Grants(s: CumulativeScope, q: Request, i: nat) {
    && Metered(s, q) && q.reply(i).Replied?
    && !Refused(q.reply(i), ReserveAmount(MeterFieldRegistry(s.metric).value, q.amount).value, s.max)
  }

  function FilterOf(metric: string): CountFilter {
    if MeterFieldRegistry(metric).Some? then MeterFieldRegistry(metric).value.filter else Everything
  }

  function ReservationFor(s: CumulativeScope, q: Request): Reservation {
    Reservation(RecordId(q.pending, s.metric, s.window), FilterOf(s.metric))
  }

  /** Every scope has its reservation in the log. */
  predicate AllReserved(scopes: seq<CumulativeScope>, q: Request, log: seq<Event>) {
    forall i :: 0 <= i < |scopes| ==> Reserved(ReservationFor(scopes[i], q)) in log
  }

  /** A scope is granted exactly when its source and metric are known, the tracker lets it, and the total with this
      request's own share is within the limit: one for a call, the amount for a transaction. */
  lemma GrantsMeaning(s: CumulativeScope, q: Request, i: nat)
    ensures Grants(s, q, i) <==>
      && s.source == "action_record" && q.reply(i).Replied? && q.reply(i).allowed
      && ((s.metric == "api_call_count" && q.reply(i).current + 1.0 <= s.max) ||
          (s.metric == "transaction_amount" && q.amount.Some? && q.reply(i).current + q.amount.value <= s.max))
  {
  }

  /** Only transactions are reserved for success alone; a call counts whatever becomes of it. */
  lemma FilterMeaning(metric: string)
    ensures FilterOf(metric).SuccessOnly? <==> metric == "transaction_amount"
    ensures MeterFieldRegistry(metric) == Some(Meter(false, SuccessOnly)) <==> metric == "transaction_amount"
  {
  }

  /** A reservation is named by delivery, metric and window, so no two scopes of different ones share one. */
  lemma RecordIdMeaning(s: CumulativeScope, q: Request, s': CumulativeScope, q': Request)
    ensures ReservationFor(s, q).id == ReservationFor(s', q').id <==>
      q.pending == q'.pending && s.metric == s'.metric && s.window == s'.window
  {
  }

  function ReservationsOf(scopes: seq<CumulativeScope>, q: Request, n: nat): seq<Reservation>
    requires n <= |scopes|
  {
    seq(n, i requires 0 <= i < n => ReservationFor(scopes[i], q))
  }

  function ReservedOf(scopes: seq<CumulativeScope>, q: Request, n: nat): seq<Event>
    requires n <= |scopes|
  {
    seq(n, i requires 0 <= i < n => Reserved(ReservationFor(scopes[i], q)))
  }

  /** How many scopes are granted before the first that is not. */
  function GrantedUpTo(scopes: seq<CumulativeScope>, q: Request, i: nat): (k: nat)
    requires i <= |scopes|
    ensures i <= k <= |scopes|
    ensures forall j: nat :: i <= j < k ==> Grants(scopes[j], q, j)
    ensures k < |scopes| ==> !Grants(scopes[k], q, k)
    decreases |scopes| - i
  {
    if i == |scopes| || !Grants(scopes[i], q, i) then i else GrantedUpTo(scopes, q, i + 1)
  }

  /** What the evaluation returns and logs once `k` scopes are granted and the next is not: nothing more for a scope
      that cannot be metered or that the tracker refuses, a cancel of everything when the tracker throws, and a
      reservation cancelled at once when it takes the total over the limit. */
  predicate EvaluationAt(scopes: seq<CumulativeScope>, q: Request, k: nat, r: Evaluation, log: seq<Event>)
    requires k <= |scopes|
  {
    var held, events := ReservationsOf(scopes, q, k), ReservedOf(scopes, q, k);
    if k == |scopes| then r == Passed(held) && log == events
    else if !Metered(scopes[k], q) then r == Denied(held) && log == events
    else match q.reply(k)
      case TrackerThrows(error) => r == Failed(error) && log == events + CancelLog(q.cancelSupported, held)
      case Replied(allowed, _) =>
        var own := ReservationFor(scopes[k], q);
        r == Denied(held) &&
        log == if allowed then events + [Reserved(own)] + CancelLog(q.cancelSupported, [own]) else events
  }

  lemma {:induction false} ReservedOfLog(scopes: seq<CumulativeScope>, q: Request, k: nat)
    requires k <= |scopes| && forall j: nat :: j < k ==> Grants(scopes[j], q, j)
    ensures EvaluationLog(q, Passed(ReservationsOf(scopes, q, k)), ReservedOf(scopes, q, k))
  {
    if k == 0 {
      assert Open([]) == SuccessIds([]);
    } else {
      ReservedOfLog(scopes, q, k - 1);
      assert Grants(scopes[k - 1], q, k - 1);
      var own := ReservationFor(scopes[k - 1], q);
      ReservedLog(q, ReservationsOf(scopes, q, k - 1), ReservedOf(scopes, q, k - 1), own);
      assert ReservationsOf(scopes, q, k) == ReservationsOf(scopes, q, k - 1) + [own];
      assert ReservedOf(scopes, q, k) == ReservedOf(scopes, q, k - 1) + [Reserved(own)];
    }
  }

  lemma EvaluationAtLog(scopes: seq<CumulativeScope>, q: Request, k: nat, r: Evaluation, log: seq<Event>)
    requires k == GrantedUpTo(scopes, q, 0) && EvaluationAt(scopes, q, k, r, log)
    ensures EvaluationLog(q, r, log) && (r.Passed? <==> k == |scopes|)
    ensures r.Passed? ==> AllReserved(scopes, q, log)
  {
    var held, events := ReservationsOf(scopes, q, k), ReservedOf(scopes, q, k);
    ReservedOfLog(scopes, q, k);
    if k == |scopes| {
      assert forall i :: 0 <= i < k ==> events[i] == Reserved(ReservationFor(scopes[i], q));
    } else if Metered(scopes[k], q) && q.reply(k).TrackerThrows? {
      FailedLog(q, held, events, q.reply(k).error);
    } else if Metered(scopes[k], q) && q.reply(k).allowed {
      OverLimitLog(q, held, events, ReservationFor(scopes[k], q));
    }
  }

  /** Whatever the tracker reserved is in the log, the scope that goes over its limit included: only then can its
      cancel be accounted for. */
  lemma TrackedIsLogged(scopes: seq<CumulativeScope>, q: Request, r: Evaluation, log: seq<Event>, j: nat)
    requires EvaluationAt(scopes, q, GrantedUpTo(scopes, q, 0), r, log) && j < |scopes|
    requires forall i: nat :: i < j ==> Grants(scopes[i], q, i)
    requires Metered(scopes[j], q) && q.reply(j).Replied? && q.reply(j).allowed
    ensures Reserved(Reservation(RecordId(q.pending, scopes[j].metric, scopes[j].window), FilterOf(scopes[j].metric)))
      in log
  {
    var k := GrantedUpTo(scopes, q, 0);
    var events := ReservedOf(scopes, q, k);
    if j < k {
      assert events[j] == Reserved(ReservationFor(scopes[j], q));
      assert forall e :: e in events ==> e in log;
    }
  }

  /** Scopes are evaluated in order until one is refused. */
  method EvaluateSenderCumulativeScopes(scopes: seq<CumulativeScope>, q: Request)
    returns (r: Evaluation, log: seq<Event>)
    ensures EvaluationAt(scopes, q, GrantedUpTo(scopes, q, 0), r, log)
    ensures EvaluationLog(q, r, log)
    ensures r.Passed? <==> forall i: nat :: i < |scopes| ==> Grants(scopes[i], q, i)
    ensures r.Passed? ==> AllReserved(scopes, q, log)
  {
    r, log := EvaluateInOrder(scopes, q);
    EvaluationAtLog(scopes, q, GrantedUpTo(scopes, q, 0), r, log);
  }

  method EvaluateInOrder(scopes: seq<CumulativeScope>, q: Request) returns (r: Evaluation, log: seq<Event>)
    ensures EvaluationAt(scopes, q, GrantedUpTo(scopes, q, 0), r, log)
  {
    log := [];
    var reserved: seq<Reservation> := [];
    for i := 0 to |scopes|
      invariant reserved == ReservationsOf(scopes, q, i) && log == ReservedOf(scopes, q, i)
      invariant GrantedUpTo(scopes, q, 0) == GrantedUpTo(scopes, q, i)
    {
      var s := scopes[i];
      if !Metered(s, q) { return Denied(reserved), log; }
      var meter := MeterFieldRegistry(s.metric).value;
      var amount := ReserveAmount(meter, q.amount).value;
      var reservation := Reservation(RecordId(q.pending, s.metric, s.window), meter.filter);
      var reply := q.reply(i);
      if reply.TrackerThrows? {
        var cancels := CancelReservedRecords(q.cancelSupported, reserved);
        return Failed(reply.error), log + cancels;
      }
      if Refused(reply, amount, s.max) {
        if reply.allowed {
          var cancels := CancelReservedRecords(q.cancelSupported, [reservation]);
          log := log + [Reserved(reservation)] + cancels;
        }
        return Denied(reserved), log;
      }
      log := log + [Reserved(reservation)];
      reserved := reserved + [reservation];
    }
    r := Passed(reserved);
  }

  /** Denying a request releases what its earlier scopes had reserved. */
  lemma DeniedReleases(q: Request, rs: seq<Reservation>, log: seq<Event>, error: Error)
    requires EvaluationLog(q, Denied(rs), log)
    ensures EvaluationLog(q, Failed(error), log + CancelLog(q.cancelSupported, rs))
  {
    CancelLogIsOurs(q.cancelSupported, rs, q.pending);
    if q.cancelSupported {
      OpenConcat({}, log, CancelLog(true, rs));
      CancelReleases(Open(log), rs);
    }
  }
}
