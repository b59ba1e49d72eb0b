/** The federated resolver between its `await`s.

    One `Slot` bundles what the resolver keeps per DID: the cache entry, the cache epoch, the
    single-flight promise, the suspended fan-outs, and the watermark persisted for it. Every event
    below is a stretch of code that runs without suspension. `clock`, `invalidatedAt`, `startedAt`
    and `answered` are history: they record what happened and decide nothing. */
module Resolver {
  import opened Common
  import opened Quorum

  type TaskId = nat

  datatype CacheEntry = CacheEntry(document: Document, expiresAt: int, startedAt: nat)

  /** Where a fan-out is suspended. */
  datatype Task =
    | Collecting(startEpoch: nat, startedAt: nat)
    | ReadingWatermark(startEpoch: nat, startedAt: nat, chosen: Document, cacheVersion: int)
    | WritingWatermark(startedAt: nat, chosen: Document)

  datatype Slot = Slot(
    cache: Option<CacheEntry>, epoch: nat, inflight: Option<TaskId>, active: map<TaskId, Task>,
    settled: map<TaskId, Option<Document>>, watermark: Option<int>, nextTask: TaskId,
    clock: nat, invalidatedAt: nat, answered: int)

  /** A slot with nothing in memory; a watermark may persist from earlier processes. */
  function Cold(watermark: Option<int>): Slot {
    Slot(None, 0, None, map[], map[], watermark, 0, 0, 0, 0)
  }

  datatype Event =
    /** A caller asks; `reachable` says whether enough nodes are healthy. */
    | Resolve(now: int, reachable: bool)
    /** Candidates are in and the election has run, or failed, or thrown. */
    | Elect(task: TaskId, result: Option<Document>, now: int)
    /** The persisted watermark has been read. */
    | WatermarkRead(task: TaskId, now: int, ttl: int)
    /** The new watermark has been persisted. */
    | WatermarkWritten(task: TaskId)
    /** The first caller resumes and forgets the promise. */
    | Forget(task: TaskId)
    | Invalidate

  /** What an event answers to callers: nothing yet, or a resolved promise. */
  datatype Answer = Silent | Null | Found(document: Document)

  function CachedAt(s: Slot, now: int): Option<CacheEntry> {
    if s.cache.Some? && now <= s.cache.value.expiresAt then s.cache else None
  }

  function StoredVersion(d: Option<CacheEntry>): int {
    if d.Some? && d.value.document.version.Some? then d.value.document.version.value else 0
  }

  function Persisted(s: Slot): int {
    if s.watermark.Some? then s.watermark.value else 0
  }

  /** The promise resolves; it stays registered, with its value, until its first caller resumes. */
  function Settle(s: Slot, t: TaskId, result: Option<Document>): Slot {
    s.(active := s.active - {t}, settled := s.settled[t := result])
  }

  /** A caller that joins a registered promise waits, or gets the value it has already resolved to. */
  function Join(s: Slot, t: TaskId): (Slot, Answer) {
    if t !in s.settled then (s, Silent)
    else if s.settled[t].None? then (s, Null)
    else (s.(answered := EffectiveVersion(s.settled[t].value)), Found(s.settled[t].value))
  }

  function Max(a: int, b: int): int {
    if a >= b then a else b
  }

  // ------------------------------------------------------------------ the atomic stretches

  function ResolveStep(s: Slot, now: int, reachable: bool): (Slot, Answer) {
    var hit := CachedAt(s, now);
    if hit.Some? then (s.(answered := EffectiveVersion(hit.value.document)), Found(hit.value.document))
    else if s.inflight.Some? then Join(s.(cache := None), s.inflight.value)
    else
      var t := s.nextTask;
      var s' := s.(cache := None, inflight := Some(t), nextTask := t + 1);
      if reachable then (s'.(active := s.active[t := Collecting(s.epoch, s.clock)]), Silent)
      else (s'.(settled := s.settled[t := None]), Null)
  }

  function ElectStep(s: Slot, t: TaskId, result: Option<Document>, now: int): (Slot, Answer) {
    if t !in s.active || !s.active[t].Collecting? then (s, Silent)
    else if result.None? then (Settle(s, t, None), Null)
    else
      var hit := CachedAt(s, now);
      var task := s.active[t];
      (s.(cache := hit, active :=
        s.active[t := ReadingWatermark(task.startEpoch, task.startedAt, result.value, StoredVersion(hit))]), Silent)
  }

  function WatermarkReadStep(s: Slot, t: TaskId, now: int, ttl: int): (Slot, Answer) {
    if t !in s.active || !s.active[t].ReadingWatermark? then (s, Silent)
    else
      var task := s.active[t];
      if Max(task.cacheVersion, Persisted(s)) > EffectiveVersion(task.chosen) then (Settle(s, t, None), Null)
      else if s.epoch != task.startEpoch then (Settle(s, t, None), Null)
      else
        (s.(cache := Some(CacheEntry(task.chosen, now + ttl, task.startedAt)),
            active := s.active[t := WritingWatermark(task.startedAt, task.chosen)]), Silent)
  }

  function WatermarkWrittenStep(s: Slot, t: TaskId): (Slot, Answer) {
    if t !in s.active || !s.active[t].WritingWatermark? then (s, Silent)
    else
      var chosen := s.active[t].chosen;
      (Settle(s, t, Some(chosen)).(watermark := Some(EffectiveVersion(chosen)), answered := EffectiveVersion(chosen)),
        Found(chosen))
  }

  /** `inflight.delete(did)` drops whatever promise is registered. */
  function ForgetStep(s: Slot, t: TaskId): Slot {
    if t in s.settled then s.(settled := s.settled - {t}, inflight := None) else s
  }

  function InvalidateStep(s: Slot): Slot {
    s.(cache := None, epoch := s.epoch + 1, invalidatedAt := s.clock)
  }

  function Step(s: Slot, e: Event): (Slot, Answer) {
    var r := match e
      case Resolve(now, reachable) => ResolveStep(s, now, reachable)
      case Elect(t, result, now) => ElectStep(s, t, result, now)
      case WatermarkRead(t, now, ttl) => WatermarkReadStep(s, t, now, ttl)
      case WatermarkWritten(t) => WatermarkWrittenStep(s, t)
      case Forget(t) => (ForgetStep(s, t), Silent)
      case Invalidate => (InvalidateStep(s), Silent);
    (r.0.(clock := s.clock + 1), r.1)
  }

  // ------------------------------------------------------------------ invariant

  /** The only tasks that exist are the one behind the registered promise. */
  predicate SingleFlight(s: Slot) {
    && s.active.Keys !! s.settled.Keys
    && (s.inflight.None? ==> s.active == map[] && s.settled == map[])
    && (s.inflight.Some? ==> s.active.Keys + s.settled.Keys == {s.inflight.value})
  }

  /** A fan-out whose epoch is still current began after the latest invalidation. */
  predicate TaskFresh(s: Slot, task: Task) {
    task.startedAt <= s.clock &&
    (!task.WritingWatermark? ==>
      task.startEpoch <= s.epoch && (task.startEpoch == s.epoch ==> s.invalidatedAt <= task.startedAt))
  }

  /** The version that the latest successful fan-out settled on: the persisted watermark, or the
      document whose watermark is being written. */
  function Current(s: Slot): int {
    if s.inflight.Some? && s.inflight.value in s.active && s.active[s.inflight.value].WritingWatermark?
    then EffectiveVersion(s.active[s.inflight.value].chosen)
    else Persisted(s)
  }

  ghost predicate Inv(s: Slot) {
    && SingleFlight(s) && s.invalidatedAt <= s.clock
    && (forall t :: t in s.active ==> TaskFresh(s, s.active[t]))
    && (s.cache.Some? ==> EffectiveVersion(s.cache.value.document) == Current(s))
    && (s.cache.Some? ==> s.invalidatedAt <= s.cache.value.startedAt)
    && (forall t :: t in s.settled && s.settled[t].Some? ==> EffectiveVersion(s.settled[t].value) == Current(s))
    && s.answered <= Current(s) && Persisted(s) <= Current(s)
  }

  /** What every event keeps: the invariant, a watermark that does not fall, and answers that do
      not fall below an earlier one. */
  ghost predicate Sound(s: Slot, s': Slot, answer: Answer) {
    && Inv(s'.(clock := s.clock + 1))
    && Current(s) <= Current(s') && Persisted(s) <= Persisted(s')
    && (if answer.Found? then s.answered <= s'.answered == EffectiveVersion(answer.document) else
        s'.answered == s.answered)
  }

  lemma ColdInv(watermark: Option<int>)
    requires watermark.Some? ==> watermark.value >= 0
    ensures Inv(Cold(watermark))
  {
  }

  lemma TheTask(s: Slot, t: TaskId)
    requires SingleFlight(s) && t in s.active
    ensures s.inflight == Some(t) && s.active.Keys == {t} && s.settled == map[]
  {
    assert t in s.active.Keys + s.settled.Keys;
    assert forall u :: u in s.settled.Keys ==> u in s.active.Keys + s.settled.Keys;
    assert forall u :: u in s.active.Keys ==> u in s.active.Keys + s.settled.Keys;
  }

  lemma JoinInv(s: Slot)
    requires Inv(s) && s.inflight.Some?
    ensures var r := Join(s.(cache := None), s.inflight.value); Sound(s, r.0, r.1)
  {
    if s.inflight.value in s.active {
      TheTask(s, s.inflight.value);
    }
  }

  lemma StartInv(s: Slot, t: TaskId)
    requires Inv(s) && s.inflight.None?
    ensures Sound(s, s.(cache := None, inflight := Some(t), nextTask := t + 1,
      active := s.active[t := Collecting(s.epoch, s.clock)]), Silent)
    ensures Sound(s, s.(cache := None, inflight := Some(t), nextTask := t + 1, settled := s.settled[t := None]), Null)
  {
  }

  lemma ResolveInv(s: Slot, now: int, reachable: bool)
    requires Inv(s)
    ensures var r := ResolveStep(s, now, reachable); Sound(s, r.0, r.1)
  {
    if CachedAt(s, now).None? {
      if s.inflight.Some? {
        JoinInv(s);
      } else {
        StartInv(s, s.nextTask);
      }
    }
  }

  /** Settling the only task without a document, the watermark untouched. */
  lemma SettleNullInv(s: Slot, t: TaskId)
    requires Inv(s) && t in s.active && !s.active[t].WritingWatermark?
    ensures Sound(s, Settle(s, t, None), Null)
  {
    TheTask(s, t);
  }

  lemma ElectInv(s: Slot, t: TaskId, result: Option<Document>, now: int)
    requires Inv(s)
    ensures var r := ElectStep(s, t, result, now); Sound(s, r.0, r.1)
  {
    if t in s.active && s.active[t].Collecting? {
      if result.None? {
        SettleNullInv(s, t);
      } else {
        TheTask(s, t);
        assert TaskFresh(s, s.active[t]);
      }
    }
  }

  /** Rollback check and epoch check passed: the document enters the cache. */
  lemma CacheInv(s: Slot, t: TaskId, now: int, ttl: int)
    requires Inv(s) && t in s.active && s.active[t].ReadingWatermark?
    requires Persisted(s) <= EffectiveVersion(s.active[t].chosen) && s.epoch == s.active[t].startEpoch
    ensures var task := s.active[t];
            Sound(s, s.(cache := Some(CacheEntry(task.chosen, now + ttl, task.startedAt)),
              active := s.active[t := WritingWatermark(task.startedAt, task.chosen)]), Silent)
  {
    TheTask(s, t);
    assert TaskFresh(s, s.active[t]);
  }

  lemma WatermarkReadInv(s: Slot, t: TaskId, now: int, ttl: int)
    requires Inv(s)
    ensures var r := WatermarkReadStep(s, t, now, ttl); Sound(s, r.0, r.1)
  {
    if t in s.active && s.active[t].ReadingWatermark? {
      var task := s.active[t];
      if Max(task.cacheVersion, Persisted(s)) > EffectiveVersion(task.chosen) || s.epoch != task.startEpoch {
        SettleNullInv(s, t);
      } else {
        CacheInv(s, t, now, ttl);
      }
    }
  }

  lemma WatermarkWrittenInv(s: Slot, t: TaskId)
    requires Inv(s)
    ensures var r := WatermarkWrittenStep(s, t); Sound(s, r.0, r.1)
  {
    if t in s.active {
      TheTask(s, t);
    }
  }

  lemma ForgetInv(s: Slot, t: TaskId)
    requires Inv(s)
    ensures Sound(s, ForgetStep(s, t), Silent)
  {
    if t in s.settled {
      assert t in s.active.Keys + s.settled.Keys;
      assert forall u :: u in s.active.Keys ==> u in s.active.Keys + s.settled.Keys;
      assert forall u :: u in s.settled.Keys ==> u in s.active.Keys + s.settled.Keys;
    }
  }

  lemma InvalidateInv(s: Slot)
    requires Inv(s)
    ensures Sound(s, InvalidateStep(s), Silent)
  {
  }

  /** Every event keeps the invariant, never lowers the persisted watermark, and never answers with
      a version below one answered before. */
  lemma StepInv(s: Slot, e: Event)
    requires Inv(s)
    ensures Inv(Step(s, e).0) && Sound(s, Step(s, e).0, Step(s, e).1)
  {
    match e {
      case Resolve(now, reachable) => ResolveInv(s, now, reachable);
      case Elect(t, result, now) => ElectInv(s, t, result, now);
      case WatermarkRead(t, now, ttl) => WatermarkReadInv(s, t, now, ttl);
      case WatermarkWritten(t) => WatermarkWrittenInv(s, t);
      case Forget(t) => ForgetInv(s, t);
      case Invalidate => InvalidateInv(s);
    }
  }

  // ------------------------------------------------------------------ runs

  function Run(s: Slot, events: seq<Event>): Slot {
    if events == [] then s else Step(Run(s, events[..|events| - 1]), events[|events| - 1]).0
  }

  function AnswerAt(s: Slot, events: seq<Event>, i: nat): Answer
    requires i < |events|
  {
    Step(Run(s, events[..i]), events[i]).1
  }

  lemma {:induction false} RunInv(s: Slot, events: seq<Event>)
    requires Inv(s)
    ensures Inv(Run(s, events))
  {
    if events != [] {
      RunInv(s, events[..|events| - 1]);
      StepInv(Run(s, events[..|events| - 1]), events[|events| - 1]);
    }
  }

  /** Over every interleaving at most one fan-out is active for a DID. */
  lemma AtMostOneFanOut(s: Slot, events: seq<Event>)
    requires Inv(s)
    ensures |Run(s, events).active| <= 1
  {
    RunInv(s, events);
    var end := Run(s, events);
    if end.inflight.Some? && end.inflight.value in end.active {
      TheTask(end, end.inflight.value);
      assert |end.active| == |end.active.Keys| == 1;
    } else {
      assert end.active.Keys <= end.active.Keys + end.settled.Keys;
      assert end.active == map[];
    }
  }

  /** Over every interleaving the persisted watermark never decreases. */
  lemma {:induction false} WatermarkNeverDecreases(s: Slot, events: seq<Event>, i: nat)
    requires Inv(s) && i <= |events|
    ensures Persisted(Run(s, events[..i])) <= Persisted(Run(s, events))
    decreases |events|
  {
    if i < |events| {
      var front := events[..|events| - 1];
      WatermarkNeverDecreases(s, front, i);
      assert front[..i] == events[..i];
      RunInv(s, front);
      StepInv(Run(s, front), events[|events| - 1]);
    } else {
      assert events[..i] == events;
    }
  }

  lemma {:induction false} AnsweredNeverDecreases(s: Slot, events: seq<Event>, i: nat)
    requires Inv(s) && i <= |events|
    ensures Run(s, events[..i]).answered <= Run(s, events).answered
    decreases |events|
  {
    if i < |events| {
      var front := events[..|events| - 1];
      AnsweredNeverDecreases(s, front, i);
      assert front[..i] == events[..i];
      RunInv(s, front);
      StepInv(Run(s, front), events[|events| - 1]);
    } else {
      assert events[..i] == events;
    }
  }

  /** Over every interleaving the versions returned, from cache, by a fan-out or by joining a promise that
      has already resolved, never decrease. */
  lemma VersionsNeverDecrease(s: Slot, events: seq<Event>, i: nat, j: nat)
    requires Inv(s) && i < j < |events|
    requires AnswerAt(s, events, i).Found? && AnswerAt(s, events, j).Found?
    ensures EffectiveVersion(AnswerAt(s, events, i).document) <= EffectiveVersion(AnswerAt(s, events, j).document)
  {
    RunInv(s, events[..i]);
    StepInv(Run(s, events[..i]), events[i]);
    RunInv(s, events[..j]);
    StepInv(Run(s, events[..j]), events[j]);
    AnsweredNeverDecreases(s, events[..j], i + 1);
    assert events[..j][..i + 1] == events[..i + 1];
    assert events[..i + 1][..i] == events[..i];
  }

  /** The number of the latest invalidation in a run that starts cold, zero if there was none. */
  function LastInvalidation(events: seq<Event>): nat {
    if events == [] then 0
    else if events[|events| - 1].Invalidate? then |events| - 1
    else LastInvalidation(events[..|events| - 1])
  }

  lemma {:induction false} HistoryIsTrue(watermark: Option<int>, events: seq<Event>)
    ensures var end := Run(Cold(watermark), events);
      end.clock == |events| && end.invalidatedAt == LastInvalidation(events)
  {
    if events != [] {
      HistoryIsTrue(watermark, events[..|events| - 1]);
    }
  }

  /** The cache never holds a document whose fan-out began before the latest invalidation. */
  lemma CacheIsNeverStale(watermark: Option<int>, events: seq<Event>)
    requires watermark.Some? ==> watermark.value >= 0
    ensures var end := Run(Cold(watermark), events);
      end.cache.Some? ==> LastInvalidation(events) <= end.cache.value.startedAt
  {
    ColdInv(watermark);
    RunInv(Cold(watermark), events);
    HistoryIsTrue(watermark, events);
  }

  // ------------------------------------------------------------------ what a caller gets

  /** Nothing to answer with at `now`, and nobody asking. */
  predicate Quiet(s: Slot, now: int) {
    s.inflight.None? && (s.cache.Some? ==> s.cache.value.expiresAt < now)
  }

  /** The version is no lower than the persisted one, and not negative. */
  predicate NoRollback(s: Slot, d: Document) {
    EffectiveVersion(d) >= 0 && (s.watermark.Some? ==> s.watermark.value <= EffectiveVersion(d))
  }

  /** The slot after a fan-out for one document has come as far as reading the watermark. */
  predicate Elected(s: Slot, s': Slot, d: Document, epoch: nat) {
    && s'.inflight == Some(s.nextTask) && s'.cache.None? && s'.watermark == s.watermark && s'.settled == map[]
    && s'.active.Keys == {s.nextTask} && s'.active[s.nextTask].ReadingWatermark?
    && s'.active[s.nextTask].chosen == d && s'.active[s.nextTask].cacheVersion == 0
    && s'.active[s.nextTask].startEpoch == s.epoch && s'.epoch == epoch
  }

  /** A first caller starts a fan-out and waits; its election is awaited too. */
  lemma FanOutStarts(s: Slot, d: Document, asked: int, elected: int)
    requires Inv(s) && Quiet(s, asked)
    ensures var a := Step(s, Resolve(asked, true));
            var b := Step(a.0, Elect(s.nextTask, Some(d), elected));
            && a.1 == Silent && b.1 == Silent && Elected(s, b.0, d, s.epoch)
            && a.0.active.Keys == {s.nextTask} && a.0.active[s.nextTask].Collecting? && a.0.settled == map[]
  {
  }

  /** The fan-out answers with the elected document exactly when its version is no rollback; it is then cached
      for its time to live and its version persisted. Otherwise the answer is null and nothing is kept. */
  lemma FanOutAnswers(s: Slot, d: Document, asked: int, elected: int, read: int, ttl: int)
    requires Inv(s) && Quiet(s, asked)
    ensures var t := s.nextTask;
            var b := Step(Step(s, Resolve(asked, true)).0, Elect(t, Some(d), elected));
            var c := Step(b.0, WatermarkRead(t, read, ttl));
            var e := Step(c.0, WatermarkWritten(t));
            if NoRollback(s, d) then
              && c.1 == Silent && e.1 == Found(d) && e.0.watermark == Some(EffectiveVersion(d))
              && e.0.cache.Some? && e.0.cache.value.document == d && e.0.cache.value.expiresAt == read + ttl
              && e.0.active == map[] && e.0.settled == map[t := Some(d)]
            else
              && c.1 == Null && e.1 == Silent && e.0.cache.None? && e.0.watermark == s.watermark
              && e.0.active == map[] && e.0.settled == map[t := None]
  {
    FanOutStarts(s, d, asked, elected);
  }

  /** An invalidation at any moment before the watermark is read turns the answer into null. */
  lemma InvalidationWins(s: Slot, d: Document, asked: int, elected: int, read: int, ttl: int)
    requires Inv(s) && Quiet(s, asked)
    ensures var t, a := s.nextTask, Step(s, Resolve(asked, true)).0;
            var early := Step(Step(a, Invalidate).0, Elect(t, Some(d), elected)).0;
            var late := Step(Step(a, Elect(t, Some(d), elected)).0, Invalidate).0;
            forall b :: b == early || b == late ==>
              Step(b, WatermarkRead(t, read, ttl)).1 == Null && Step(b, WatermarkRead(t, read, ttl)).0.cache.None?
  {
    FanOutStarts(s, d, asked, elected);
    var t, a := s.nextTask, Step(s, Resolve(asked, true)).0;
    assert Elected(s, Step(Step(a, Elect(t, Some(d), elected)).0, Invalidate).0, d, s.epoch + 1);
    assert Elected(s, Step(Step(a, Invalidate).0, Elect(t, Some(d), elected)).0, d, s.epoch + 1);
  }

  /** Until it expires a cached document is answered at once and nothing is started; once it has expired, or was
      invalidated, the next caller starts a fan-out, or gets null when too few nodes are healthy. */
  lemma CacheAnswers(s: Slot, now: int)
    requires Inv(s)
    ensures var r := Step(s, Resolve(now, true)); var down := Step(s, Resolve(now, false));
            && (s.cache.Some? && now <= s.cache.value.expiresAt ==>
                r.1 == Found(s.cache.value.document) == down.1 && r.0.active == s.active && r.0.cache == s.cache)
            && (Quiet(s, now) ==> r.1 == Silent && r.0.active.Keys == {s.nextTask} && r.0.cache.None?)
            && (Quiet(s, now) ==> down.1 == Null && down.0.active == map[] && down.0.cache.None?)
    ensures Step(s, Invalidate).0.cache.None?
  {
  }

  /** A caller who comes while a fan-out is under way waits for it and starts none; one who comes when it has
      settled gets its value; forgetting the promise lets the next caller start afresh. */
  lemma CallersJoin(s: Slot, now: int, reachable: bool)
    requires Inv(s) && s.inflight.Some? && (s.cache.Some? ==> s.cache.value.expiresAt < now)
    ensures var t, r := s.inflight.value, Step(s, Resolve(now, reachable));
            && r.0.active == s.active && r.0.settled == s.settled && r.0.inflight == s.inflight
            && (t in s.active ==> r.1 == Silent)
            && (t in s.settled ==> r.1 == match s.settled[t] case None => Null case Some(d) => Found(d))
            && (t in s.settled ==> Step(s, Forget(t)).0.inflight.None? && Step(s, Forget(t)).0.settled == map[])
  {
    if s.inflight.value in s.active { TheTask(s, s.inflight.value); }
    assert forall u :: u in s.settled ==> u in s.active.Keys + s.settled.Keys;
  }

  /** A failed election answers null and leaves the watermark as it is. */
  lemma FailedElection(s: Slot, t: TaskId, now: int)
    requires Inv(s) && t in s.active && s.active[t].Collecting?
    ensures var r := Step(s, Elect(t, None, now));
            r.1 == Null && r.0.active == map[] && r.0.watermark == s.watermark && r.0.settled == map[t := None]
  {
    TheTask(s, t);
  }

  // ------------------------------------------------------------------ the resolver object

  /** The maps of the resolver, keyed by DID. */
  class FederatedResolver {
    var slots: map<string, Slot>

    ghost predicate Valid()
      reads this
    {
      forall did :: did in slots ==> Inv(slots[did])
    }

    constructor (watermarks: map<string, int>)
      requires forall did :: did in watermarks ==> watermarks[did] >= 0
      ensures Valid() && slots.Keys == watermarks.Keys
    {
      slots := map did | did in watermarks :: Cold(Some(watermarks[did]));
      forall did | did in watermarks ensures Inv(Cold(Some(watermarks[did]))) {
        ColdInv(Some(watermarks[did]));
      }
    }

    function SlotOf(did: string): Slot
      reads this
    {
      if did in slots then slots[did] else Cold(None)
    }

    /** One event on one DID; no other DID is affected. */
    method Handle(did: string, e: Event) returns (answer: Answer)
      requires Valid()
      modifies this
      ensures Valid() && slots == old(slots)[did := Step(old(SlotOf(did)), e).0]
      ensures answer == Step(old(SlotOf(did)), e).1
    {
      var s := SlotOf(did);
      ColdInv(None);
      StepInv(s, e);
      var s';
      s', answer := Dispatch(s, e);
      slots := slots[did := s'];
    }

    static method Dispatch(s: Slot, e: Event) returns (s': Slot, answer: Answer)
      ensures (s', answer) == Step(s, e)
    {
      s', answer := s, Silent;
      match e {
        case Resolve(now, reachable) =>
          s', answer := ResolveEntry(s, now, reachable);
        case Elect(t, result, now) =>
          var r := ElectStep(s, t, result, now);
          s', answer := r.0, r.1;
        case WatermarkRead(t, now, ttl) =>
          s', answer := CheckAndCache(s, t, now, ttl);
        case WatermarkWritten(t) =>
          var r := WatermarkWrittenStep(s, t);
          s', answer := r.0, r.1;
        case Forget(t) =>
          s' := ForgetStep(s, t);
        case Invalidate =>
          s' := InvalidateStep(s);
      }
      s' := s'.(clock := s.clock + 1);
    }

    /** Cache hit, join the promise in flight, or start a fan-out. */
    static method ResolveEntry(s: Slot, now: int, reachable: bool) returns (s': Slot, answer: Answer)
      ensures (s', answer) == ResolveStep(s, now, reachable)
    {
      s', answer := s, Silent;
      if s'.cache.Some? {
        if now > s'.cache.value.expiresAt {
          s' := s'.(cache := None);
        } else {
          var doc := s'.cache.value.document;
          s', answer := s'.(answered := EffectiveVersion(doc)), Found(doc);
          return;
        }
      }
      if s'.inflight.Some? {
        var joined := Join(s', s'.inflight.value);
        s', answer := joined.0, joined.1;
        return;
      }
      var t := s'.nextTask;
      s' := s'.(nextTask := t + 1);
      if reachable {
        s' := s'.(active := s'.active[t := Collecting(s'.epoch, s'.clock)]);
      } else {
        s', answer := s'.(settled := s'.settled[t := None]), Null;
      }
      s' := s'.(inflight := Some(t));
    }

    /** Rollback check, epoch check, then the cache write, without suspension in between. */
    static method CheckAndCache(s: Slot, t: TaskId, now: int, ttl: int) returns (s': Slot, answer: Answer)
      ensures (s', answer) == WatermarkReadStep(s, t, now, ttl)
    {
      s', answer := s, Silent;
      if t !in s.active || !s.active[t].ReadingWatermark? {
        return;
      }
      var task := s.active[t];
      var watermark := Max(task.cacheVersion, Persisted(s));
      if watermark > EffectiveVersion(task.chosen) {
        s', answer := Settle(s, t, None), Null;
        return;
      }
      if s.epoch != task.startEpoch {
        s', answer := Settle(s, t, None), Null;
        return;
      }
      s' := s'.(cache := Some(CacheEntry(task.chosen, now + ttl, task.startedAt)));
      s' := s'.(active := s'.active[t := WritingWatermark(task.startedAt, task.chosen)]);
    }
  }
}
