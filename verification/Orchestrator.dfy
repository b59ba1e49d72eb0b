/** Handling one envelope: authorisation with quota reservation, policy-guarded execution, response and
    response cache, over every pattern of failures. A delivery carries what each step will do. */
module Orchestrator {
  import opened Common
  import opened Reservations
  import opened ResponseCache

  datatype Step = Fine | Throws(error: Error)

  datatype Verification = Verified | NotVerified(reason: string) | VerificationThrows(error: Error)

  /** The sender's token up to its cumulative scopes. */
  datatype TokenCheck =
    | NoToken
    | Refuses(reason: string)
    | CheckThrows(error: Error)
    | Meters(scopes: seq<CumulativeScope>)

  datatype GuardReply = Permits | Forbids(reason: string) | GuardThrows(error: Error)

  datatype ExecutorReply = Succeeds(data: string) | ExecutorThrows(error: Error)

  /** `senderDid` and `sessionId` are those of the header as received (the agent's own DID and no session
      when there is no readable header). */
  datatype Delivery = Delivery(
    envelopeId: string, senderDid: string, sessionId: Option<string>, sequenceNumber: Option<int>,
    action: string, requestId: Option<string>,
    parse: Step, verify: Verification, extract: Step,
    token: TokenCheck, trackerInjected: bool, quota: Request,
    rejectionRecorder: Step, guard: GuardReply, denialRecorder: Step,
    executor: ExecutorReply, successRecorder: Step, errorRecorder: Step,
    build: Step, errorBuild: Step, catchBuild: Step, rebuild: Step,
    checkedAt: int, recordedAt: int)

  function Pending(d: Delivery): string {
    d.quota.pending
  }

  // ------------------------------------------------------------------ step 3.5

  datatype CapabilityResult =
    Allowed(reservations: seq<Reservation>) | Rejected(reason: string) | CapabilityThrew(error: Error)

  predicate CapabilityAllows(d: Delivery) {
    match d.token
    case NoToken => true
    case Meters(scopes) => scopes == [] ||
        (d.trackerInjected && forall i: nat :: i < |scopes| ==> Grants(scopes[i], d.quota, i))
    case _ => false
  }

  /** The log after the capability check: reservations of an allowed request are open, those of any
      other are released. */
  predicate CapabilityLog(d: Delivery, r: CapabilityResult, log: seq<Event>) {
    if r.Allowed? then EvaluationLog(d.quota, Passed(r.reservations), log)
    else EvaluationLog(d.quota, Failed(Error(false, "")), log)
  }

  predicate ReservedForToken(d: Delivery, log: seq<Event>) {
    d.token.Meters? ==> AllReserved(d.token.scopes, d.quota, log)
  }

  /** The verdict on the sender's token: a refusal or an error of the token check is passed on; metered scopes need a
      tracker, must all be granted, and an error of the tracker is passed on. */
  function CapabilityOutcome(d: Delivery): CapabilityResult {
    match d.token
    case NoToken => Allowed([])
    case Refuses(reason) => Rejected(reason)
    case CheckThrows(error) => CapabilityThrew(error)
    case Meters(scopes) =>
      var k := GrantedUpTo(scopes, d.quota, 0);
      if scopes == [] then Allowed([])
      else if !d.trackerInjected then Rejected("delegation_cumulative_limit_unverifiable")
      else if k == |scopes| then Allowed(ReservationsOf(scopes, d.quota, k))
      else if Metered(scopes[k], d.quota) && d.quota.reply(k).TrackerThrows? then
        CapabilityThrew(d.quota.reply(k).error)
      else Rejected("delegation_cumulative_limit_exceeded")
  }

  method VerifyCapability(d: Delivery) returns (r: CapabilityResult, log: seq<Event>)
    ensures r == CapabilityOutcome(d)
    ensures CapabilityLog(d, r, log) && (r.Allowed? ==> ReservedForToken(d, log))
    ensures r.Allowed? <==> CapabilityAllows(d)
  {
    log := [];
    match d.token
    case NoToken => r := Allowed([]);
    case Refuses(reason) => r := Rejected(reason);
    case CheckThrows(error) => r := CapabilityThrew(error);
    case Meters(scopes) =>
      if scopes == [] { return Allowed([]), log; }
      if !d.trackerInjected { return Rejected("delegation_cumulative_limit_unverifiable"), log; }
      var e;
      e, log := EvaluateSenderCumulativeScopes(scopes, d.quota);
      match e
      case Passed(reservations) => r := Allowed(reservations);
      case Failed(error) => r := CapabilityThrew(error);
      case Denied(reservations) =>
        DeniedReleases(d.quota, reservations, log, Error(false, ""));
        var cancels := CancelReservedRecords(d.quota.cancelSupported, reservations);
        log := log + cancels;
        r := Rejected("delegation_cumulative_limit_exceeded");
  }

  // ------------------------------------------------------------------ step 4

  datatype PolicyResult = Executed(data: string) | NotExecuted(reason: string) | PolicyThrew(error: Error)

  predicate ExecutorRuns(d: Delivery) {
    d.guard.Permits? && d.executor.Succeeds?
  }

  /** The error that surfaces when the executor or the recorder fails: that of recording the failure, if
      this fails too. */
  function Surfaced(d: Delivery, error: Error): Error {
    if d.errorRecorder.Throws? then d.errorRecorder.error else error
  }

  /** A denial is recorded before it is returned; a failing executor or recorder is recorded as an error. */
  function PolicyOutcome(d: Delivery): PolicyResult {
    match (d.guard, d.executor)
    case (GuardThrows(error), _) => PolicyThrew(error)
    case (Forbids(reason), _) =>
      if d.denialRecorder.Throws? then PolicyThrew(d.denialRecorder.error) else NotExecuted(reason)
    case (Permits, ExecutorThrows(error)) => PolicyThrew(Surfaced(d, error))
    case (Permits, Succeeds(data)) =>
      if d.successRecorder.Throws? then PolicyThrew(Surfaced(d, d.successRecorder.error)) else Executed(data)
  }

  /** `committed` is what the success hook sets: the executor has succeeded, whatever follows. */
  method ExecuteWithPolicy(d: Delivery) returns (r: PolicyResult, committed: bool, log: seq<Event>)
    ensures committed <==> ExecutorRuns(d)
    ensures log == if committed then [ExecutorSucceeded(Pending(d))] else []
    ensures r == PolicyOutcome(d)
    ensures r.Executed? ==> committed
  {
    committed, log := false, [];
    if d.guard.GuardThrows? { return PolicyThrew(d.guard.error), committed, log; }
    if d.guard.Forbids? {
      if d.denialRecorder.Throws? { return PolicyThrew(d.denialRecorder.error), committed, log; }
      return NotExecuted(d.guard.reason), committed, log;
    }
    if d.executor.ExecutorThrows? { return PolicyThrew(Surfaced(d, d.executor.error)), committed, log; }
    log := [ExecutorSucceeded(Pending(d))];
    committed := true;
    if d.successRecorder.Throws? { return PolicyThrew(Surfaced(d, d.successRecorder.error)), committed, log; }
    r := Executed(d.executor.data);
  }

  // ------------------------------------------------------------------ the whole delivery

  /** How the guarded part ends: with a response, or with an error for the outer handler. */
  datatype Inner =
    | Answered(response: Response, cacheable: bool, spec: Option<ResponseSpec>)
    | Raised(error: Error, reservations: seq<Reservation>)

  datatype Outcome = Outcome(response: Option<Response>, executed: bool, recorded: Option<ResponseSpec>,
    log: seq<Event>)

  function ErrorAnswer(agent: string, d: Delivery, kind: ErrorKind, message: string): ResponseSpec {
    ErrorSpec(kind, agent, d.senderDid, d.sessionId, Some(d.envelopeId), Some(message))
  }

  function SuccessAnswer(agent: string, d: Delivery, data: string): ResponseSpec {
    SuccessSpec(agent, d.senderDid, d.sessionId, if d.requestId.Some? then d.requestId.value else d.envelopeId,
                d.action, data, Pending(d), NextSequenceNumber(d.sequenceNumber))
  }

  function NextSequenceNumber(n: Option<int>): Option<int> {
    if n.Some? then Some(n.value + 1) else None
  }

  predicate Executes(d: Delivery) {
    d.extract.Fine? && CapabilityAllows(d) && ExecutorRuns(d)
  }

  /** What fails after the executor has succeeded. */
  function PostError(d: Delivery): Option<Error> {
    if d.successRecorder.Throws? then Some(Surfaced(d, d.successRecorder.error))
    else if d.build.Throws? then Some(d.build.error)
    else None
  }

  /** After a success, nothing fails, or what fails is not reported as an invalid message and the error
      response can be built. */
  predicate WellBehaved(d: Delivery) {
    PostError(d).None? || (!PostError(d).value.invalidMessage && d.catchBuild.Fine?)
  }

  /** The log of a part of a delivery that did not commit, or of one that did. */
  predicate DeliveryLog(d: Delivery, executed: bool, log: seq<Event>) {
    && CancelsAreOurs(log, Pending(d)) && ReservationsAreOurs(log, Pending(d))
    && (forall e :: e in log && e.ExecutorSucceeded? ==> e.pending == Pending(d))
    && (executed <==> ExecutorSucceeded(Pending(d)) in log)
    && (executed ==> NoCancels(log))
    && (!executed && d.quota.cancelSupported ==> Open(log) == {})
  }

  /** Before the outer handler, an uncommitted error may leave the reservations it carries open. */
  predicate InnerLog(d: Delivery, committed: bool, r: Inner, log: seq<Event>) {
    if r.Answered? || committed then DeliveryLog(d, committed, log)
    else EvaluationLog(d.quota, Denied(r.reservations), log)
  }

  lemma ExecutedLog(d: Delivery, rs: seq<Reservation>, log: seq<Event>)
    requires EvaluationLog(d.quota, Passed(rs), log)
    ensures DeliveryLog(d, true, log + [ExecutorSucceeded(Pending(d))])
  {
  }

  lemma QuietLog(d: Delivery, log: seq<Event>, error: Error)
    requires EvaluationLog(d.quota, Failed(error), log)
    ensures DeliveryLog(d, false, log)
  {
  }

  const AUDIT_FAILED := "audit record persistence failed during authorization rejection"

  /** How a rejection ends: as an internal error that is not cached when it could not be recorded. */
  function RejectionEnd(agent: string, d: Delivery, reason: string): Inner {
    if d.errorBuild.Throws? then Raised(d.errorBuild.error, [])
    else if d.rejectionRecorder.Throws? then
      Answered(RebuildEnvelopeFromSpec(ErrorAnswer(agent, d, InternalError, AUDIT_FAILED)), false, None)
    else Answer(ErrorAnswer(agent, d, AuthorizationInsufficient, reason))
  }

  /** A step 3.5 rejection: recorded, then answered. */
  method AnswerRejection(agent: string, d: Delivery, reason: string) returns (r: Inner)
    ensures r == RejectionEnd(agent, d, reason)
  {
    if d.rejectionRecorder.Throws? {
      if d.errorBuild.Throws? { return Raised(d.errorBuild.error, []); }
      var response :=
        BuildErrorEnvelope(InternalError, agent, d.senderDid, d.sessionId, Some(d.envelopeId), Some(AUDIT_FAILED));
      return Answered(response, false, None);
    }
    if d.errorBuild.Throws? { return Raised(d.errorBuild.error, []); }
    var spec := ErrorAnswer(agent, d, AuthorizationInsufficient, reason);
    r := Answered(BuildErrorEnvelope(AuthorizationInsufficient, agent, d.senderDid, d.sessionId, Some(d.envelopeId),
      Some(reason)), true, Some(spec));
  }

  /** An answer's response is what its specification rebuilds. */
  predicate Faithful(r: Inner) {
    r.Answered? && r.spec.Some? ==>
      r.response == RebuildEnvelopeFromSpec(r.spec.value) &&
      (r.spec.value.ErrorSpec? ==> r.spec.value.kind != InternalError)
  }

  function Answer(spec: ResponseSpec): Inner {
    Answered(RebuildEnvelopeFromSpec(spec), true, Some(spec))
  }

  /** How steps 4 and 5 end: a denial and a success are answered and may be cached, unless their response
      cannot be built; everything else goes to the outer handler with the reservations. */
  function ExecutionEnd(agent: string, d: Delivery, rs: seq<Reservation>): Inner {
    match PolicyOutcome(d)
    case PolicyThrew(error) => Raised(error, rs)
    case NotExecuted(reason) =>
      if d.errorBuild.Throws? then Raised(d.errorBuild.error, rs)
      else Answer(ErrorAnswer(agent, d, AuthorizationInsufficient, reason))
    case Executed(data) =>
      if d.build.Throws? then Raised(d.build.error, rs) else Answer(SuccessAnswer(agent, d, data))
  }

  method Execute(agent: string, d: Delivery, rs: seq<Reservation>, before: seq<Event>)
    returns (r: Inner, committed: bool, log: seq<Event>)
    requires EvaluationLog(d.quota, Passed(rs), before) && ReservedForToken(d, before)
    ensures committed <==> ExecutorRuns(d)
    ensures InnerLog(d, committed, r, log) && Faithful(r) && ReservedForToken(d, log)
    ensures r == ExecutionEnd(agent, d, rs)
  {
    var p, events;
    p, committed, events := ExecuteWithPolicy(d);
    log := before + events;
    if committed {
      ExecutedLog(d, rs, before);
    } else {
      assert before + [] == before;
    }
    match p
    case PolicyThrew(error) => r := Raised(error, rs);
    case NotExecuted(reason) =>
      DeniedReleases(d.quota, rs, log, Error(false, ""));
      var cancels := CancelReservedRecords(d.quota.cancelSupported, rs);
      log := log + cancels;
      QuietLog(d, log, Error(false, ""));
      if d.errorBuild.Throws? { return Raised(d.errorBuild.error, rs), committed, log; }
      var response := BuildErrorEnvelope(
        AuthorizationInsufficient, agent, d.senderDid, d.sessionId, Some(d.envelopeId), Some(reason));
      r := Answered(response, true, Some(ErrorAnswer(agent, d, AuthorizationInsufficient, reason)));
    case Executed(data) =>
      if d.build.Throws? { return Raised(d.build.error, rs), committed, log; }
      var requestId := if d.requestId.Some? then d.requestId.value else d.envelopeId;
      var response := BuildSuccessEnvelope(
        agent, d.senderDid, d.sessionId, requestId, d.action, data, Pending(d), NextSequenceNumber(d.sequenceNumber));
      r := Answered(response, true, Some(SuccessAnswer(agent, d, data)));
  }

  /** How steps 3 to 5 end. */
  function ProcessEnd(agent: string, d: Delivery): Inner {
    if d.extract.Throws? then Raised(d.extract.error, []) else
      match CapabilityOutcome(d)
      case CapabilityThrew(error) => Raised(error, [])
      case Rejected(reason) => RejectionEnd(agent, d, reason)
      case Allowed(reservations) => ExecutionEnd(agent, d, reservations)
  }

  /** Steps 3 to 5, after a cache miss. */
  method Process(agent: string, d: Delivery) returns (r: Inner, committed: bool, log: seq<Event>)
    ensures committed <==> Executes(d)
    ensures r == ProcessEnd(agent, d)
    ensures InnerLog(d, committed, r, log) && Faithful(r) && (committed ==> ReservedForToken(d, log))
    ensures committed && PostError(d).Some? ==> r.Raised? && r.error == PostError(d).value
    ensures committed && PostError(d).None? ==> r == Answer(SuccessAnswer(agent, d, d.executor.data))
  {
    if d.extract.Throws? { return Raised(d.extract.error, []), false, []; }
    var c;
    c, log := VerifyCapability(d);
    match c
    case CapabilityThrew(error) =>
      r, committed := Raised(error, []), false;
    case Rejected(reason) =>
      r := AnswerRejection(agent, d, reason);
      committed := false;
    case Allowed(reservations) =>
      r, committed, log := Execute(agent, d, reservations, log);
  }

  /** An error response names an invalid message as such and everything else as internal. */
  function CatchAnswer(agent: string, d: Delivery, error: Error): Response {
    var kind := if error.invalidMessage then InvalidEnvelope else InternalError;
    RebuildEnvelopeFromSpec(ErrorAnswer(agent, d, kind, error.detail))
  }

  /** Only an error after a success is kept, and not when it is reported as an invalid message. */
  function CatchRecord(agent: string, d: Delivery, error: Error, committed: bool): Option<ResponseSpec> {
    if committed && !error.invalidMessage && d.catchBuild.Fine?
    then Some(ErrorAnswer(agent, d, InternalError, error.detail)) else None
  }

  /** The outer handler: compensate unless committed, answer with an error, and let only an error after
      a success be cached. */
  method Catch(agent: string, d: Delivery, error: Error, rs: seq<Reservation>, committed: bool, before: seq<Event>)
    returns (response: Option<Response>, spec: Option<ResponseSpec>, log: seq<Event>)
    requires InnerLog(d, committed, Raised(error, rs), before)
    ensures DeliveryLog(d, committed, log) && (committed ==> log == before)
    ensures response == if d.catchBuild.Throws? then None else Some(CatchAnswer(agent, d, error))
    ensures spec == CatchRecord(agent, d, error, committed)
    ensures spec.Some? ==> response == Some(RebuildEnvelopeFromSpec(spec.value))
  {
    log := before;
    if !committed {
      DeniedReleases(d.quota, rs, before, error);
      var cancels := CancelReservedRecords(d.quota.cancelSupported, rs);
      log := log + cancels;
      QuietLog(d, log, error);
    }
    if d.catchBuild.Throws? { return None, None, log; }
    var kind := if error.invalidMessage then InvalidEnvelope else InternalError;
    response := Some(BuildErrorEnvelope(kind, agent, d.senderDid, d.sessionId, Some(d.envelopeId), Some(error.detail)));
    spec :=
      if committed && !error.invalidMessage then Some(ErrorAnswer(agent, d, InternalError, error.detail)) else None;
  }

  function KeyOf(agent: string, d: Delivery): string {
    BuildKey(IdempotencyKey(agent, d.senderDid, d.sessionId, d.envelopeId))
  }

  predicate Authentic(d: Delivery) {
    d.parse.Fine? && d.verify.Verified?
  }

  function StoreAfter(agent: string, ttl: int, s: Store, d: Delivery, recorded: Option<ResponseSpec>): Store {
    var checked := AfterCheck(s, ttl, KeyOf(agent, d), d.checkedAt);
    if recorded.Some? then AfterRecord(checked, ttl, KeyOf(agent, d), recorded.value, d.recordedAt) else checked
  }

  function CatchResponse(agent: string, d: Delivery, error: Error): Option<Response> {
    if d.catchBuild.Throws? then None else Some(CatchAnswer(agent, d, error))
  }

  /** What a delivery that misses the cache answers, and what it records. */
  function MissResponse(agent: string, d: Delivery): Option<Response> {
    match ProcessEnd(agent, d)
    case Answered(response, _, _) => Some(response)
    case Raised(error, _) => CatchResponse(agent, d, error)
  }

  function MissRecord(agent: string, d: Delivery): Option<ResponseSpec> {
    match ProcessEnd(agent, d)
    case Answered(_, cacheable, spec) => if cacheable then spec else None
    case Raised(error, _) => CatchRecord(agent, d, error, Executes(d))
  }

  /** What is answered before the cache is looked at: an error in reading or verifying, or a failed verification. */
  function EarlyResponse(agent: string, d: Delivery): Option<Response> {
    if d.parse.Throws? then CatchResponse(agent, d, d.parse.error)
    else match d.verify
      case VerificationThrows(error) => CatchResponse(agent, d, error)
      case NotVerified(reason) =>
        if d.errorBuild.Throws? then CatchResponse(agent, d, d.errorBuild.error)
        else Some(RebuildEnvelopeFromSpec(ErrorAnswer(agent, d, IdentityVerificationFailed, reason)))
      case Verified => None
  }

  /** What one delivery does to the cache and what it answers. */
  predicate DeliverySpec(agent: string, ttl: int, s: Store, d: Delivery, s': Store, o: Outcome) {
    && DeliveryLog(d, o.executed, o.log) && (o.executed ==> ReservedForToken(d, o.log))
    && (!Authentic(d) ==> !o.executed && s' == s && o.recorded.None? && o.response == EarlyResponse(agent, d))
    && (Authentic(d) ==>
          var hit := Lookup(s, ttl, KeyOf(agent, d), d.checkedAt);
          if hit.Some? then
            && !o.executed && s' == s && o.recorded.None?
            && o.response == if d.rebuild.Fine? then Some(RebuildEnvelopeFromSpec(hit.value))
                             else CatchResponse(agent, d, d.rebuild.error)
          else
            && o.response == MissResponse(agent, d) && o.recorded == MissRecord(agent, d)
            && (o.executed <==> Executes(d)) && s' == StoreAfter(agent, ttl, s, d, o.recorded)
            && (o.executed ==> (o.recorded.Some? <==> WellBehaved(d)))
            && (o.recorded.Some? ==> o.response == Some(RebuildEnvelopeFromSpec(o.recorded.value)))
            && (o.recorded.Some? && o.recorded.value.ErrorSpec? && o.recorded.value.kind == InternalError ==>
                o.executed))
  }

  lemma EmptyLog(d: Delivery)
    ensures DeliveryLog(d, false, []) && EvaluationLog(d.quota, Denied([]), [])
  {
  }

  /** Steps 3 to 5 under the outer handler. */
  method Guarded(agent: string, d: Delivery) returns (o: Outcome)
    ensures DeliveryLog(d, o.executed, o.log) && (o.executed <==> Executes(d))
    ensures (o.executed ==> ReservedForToken(d, o.log))
    ensures o.executed ==> (o.recorded.Some? <==> WellBehaved(d))
    ensures o.recorded.Some? ==> o.response == Some(RebuildEnvelopeFromSpec(o.recorded.value))
    ensures o.recorded.Some? && o.recorded.value.ErrorSpec? && o.recorded.value.kind == InternalError ==> o.executed
    ensures o.response == MissResponse(agent, d) && o.recorded == MissRecord(agent, d)
  {
    var r, committed, log := Process(agent, d);
    if r.Answered? {
      return Outcome(Some(r.response), committed, if r.cacheable then r.spec else None, log);
    }
    var response, spec, log' := Catch(agent, d, r.error, r.reservations, committed, log);
    o := Outcome(response, committed, spec, log');
  }

  method RaisedEarly(agent: string, d: Delivery, error: Error) returns (o: Outcome)
    ensures DeliveryLog(d, false, o.log) && !o.executed && o.recorded.None?
    ensures o.response == CatchResponse(agent, d, error)
  {
    EmptyLog(d);
    var response, spec, log := Catch(agent, d, error, [], false, []);
    o := Outcome(response, false, spec, log);
  }

  class AgentOrchestrator {
    const agentDid: string
    const cache: InMemoryResponseIdempotencyCache

    constructor (agentDid: string, cache: InMemoryResponseIdempotencyCache)
      ensures this.agentDid == agentDid && this.cache == cache
    {
      this.agentDid, this.cache := agentDid, cache;
    }

    method HandleEnvelope(d: Delivery) returns (o: Outcome)
      modifies cache`store
      ensures DeliverySpec(agentDid, cache.ttlMs, old(cache.store), d, cache.store, o)
    {
      EmptyLog(d);
      if d.parse.Throws? {
        o := RaisedEarly(agentDid, d, d.parse.error);
        return;
      }
      if d.verify.VerificationThrows? {
        o := RaisedEarly(agentDid, d, d.verify.error);
        return;
      }
      if d.verify.NotVerified? {
        if d.errorBuild.Throws? {
          o := RaisedEarly(agentDid, d, d.errorBuild.error);
          return;
        }
        return Outcome(Some(BuildErrorEnvelope(IdentityVerificationFailed, agentDid, d.senderDid, d.sessionId,
          Some(d.envelopeId), Some(d.verify.reason))), false, None, []);
      }
      var key := KeyOf(agentDid, d);
      var hit := cache.Check(key, d.checkedAt);
      if hit.Some? {
        if d.rebuild.Throws? {
          o := RaisedEarly(agentDid, d, d.rebuild.error);
          return;
        }
        return Outcome(Some(RebuildEnvelopeFromSpec(hit.value)), false, None, []);
      }
      o := Guarded(agentDid, d);
      if o.recorded.Some? { cache.Record(key, o.recorded.value, d.recordedAt); }
    }
  }

  // ------------------------------------------------------------------ runs

  /** Deliveries one after the other, from `stores[0]`. */
  ghost predicate IsRun(agent: string, ttl: int, stores: seq<Store>, ds: seq<Delivery>, os: seq<Outcome>) {
    && |stores| == |ds| + 1 && |os| == |ds|
    && forall i :: 0 <= i < |ds| ==> DeliverySpec(agent, ttl, stores[i], ds[i], stores[i + 1], os[i])
  }

  /** What delivery `i` recorded has not outlived its time to live at any clock reading from then until
      the check of delivery `j`. */
  predicate WithinTtlOf(ttl: int, ds: seq<Delivery>, i: nat, j: nat)
    requires i < |ds| && j <= |ds|
  {
    && (forall m :: i < m < j ==>
        ds[m].checkedAt <= ds[i].recordedAt + ttl && ds[m].recordedAt <= ds[i].recordedAt + ttl)
    && (j < |ds| ==> ds[j].checkedAt <= ds[i].recordedAt + ttl)
  }

  predicate Holds(s: Store, key: string, e: Entry) {
    key in s && s[key] == e
  }

  /** A live entry survives any delivery. */
  lemma EntrySurvives(agent: string, ttl: int, s: Store, d: Delivery, s': Store, o: Outcome, key: string, e: Entry)
    requires DeliverySpec(agent, ttl, s, d, s', o) && Holds(s, key, e)
    requires !Expired(e, ttl, d.checkedAt) && !Expired(e, ttl, d.recordedAt)
    ensures Holds(s', key, e)
  {
  }

  /** Once a delivery has recorded its answer, every store holds it as long as it lives. */
  lemma {:induction false} EntryStays(
    agent: string, ttl: int, stores: seq<Store>, ds: seq<Delivery>, os: seq<Outcome>, i: nat, j: nat)
    requires IsRun(agent, ttl, stores, ds, os) && i < j <= |ds| && WithinTtlOf(ttl, ds, i, j)
    requires os[i].recorded.Some?
    ensures Holds(stores[j], KeyOf(agent, ds[i]), Entry(os[i].recorded.value, ds[i].recordedAt))
    decreases j - i
  {
    assert DeliverySpec(agent, ttl, stores[j - 1], ds[j - 1], stores[j - 1 + 1], os[j - 1]);
    if i + 1 < j {
      EntryStays(agent, ttl, stores, ds, os, i, j - 1);
      var e := Entry(os[i].recorded.value, ds[i].recordedAt);
      EntrySurvives(agent, ttl, stores[j - 1], ds[j - 1], stores[j], os[j - 1], KeyOf(agent, ds[i]), e);
    }
  }

  /** Sequential at-most-once. After a well-behaved run whose executor succeeded, no delivery with the same
      key executes while its answer lives, and every authentic one gets that header and body again. */
  lemma AtMostOnce(agent: string, ttl: int, stores: seq<Store>, ds: seq<Delivery>, os: seq<Outcome>, i: nat, j: nat)
    requires IsRun(agent, ttl, stores, ds, os) && i < j < |ds| && WithinTtlOf(ttl, ds, i, j)
    requires KeyOf(agent, ds[i]) == KeyOf(agent, ds[j]) && os[i].executed && WellBehaved(ds[i])
    ensures !os[j].executed
    ensures Authentic(ds[j]) && ds[j].rebuild.Fine? ==> os[i].response.Some? && os[j].response == os[i].response
  {
    assert DeliverySpec(agent, ttl, stores[i], ds[i], stores[i + 1], os[i]);
    assert DeliverySpec(agent, ttl, stores[j], ds[j], stores[j + 1], os[j]);
    EntryStays(agent, ttl, stores, ds, os, i, j);
  }

  /** A key that is absent stays absent while only other keys are delivered. */
  lemma {:induction false} KeyStaysAbsent(
    agent: string, ttl: int, stores: seq<Store>, ds: seq<Delivery>, os: seq<Outcome>, i: nat, j: nat, key: string)
    requires IsRun(agent, ttl, stores, ds, os) && i <= j <= |ds| && key !in stores[i]
    requires forall m :: i <= m < j ==> KeyOf(agent, ds[m]) != key
    ensures key !in stores[j]
    decreases j - i
  {
    if i < j {
      KeyStaysAbsent(agent, ttl, stores, ds, os, i, j - 1, key);
      assert DeliverySpec(agent, ttl, stores[j - 1], ds[j - 1], stores[j - 1 + 1], os[j - 1]);
    }
  }

  /** The condition is exact. In any run, let two deliveries with the same key both be such that they would
      execute, the first a cache miss, none with that key between them: the second executes again exactly
      when the first was not well behaved. */
  lemma RedeliveryExecutesAgain(
    agent: string, ttl: int, stores: seq<Store>, ds: seq<Delivery>, os: seq<Outcome>, i: nat, j: nat)
    requires IsRun(agent, ttl, stores, ds, os) && i < j < |ds| && WithinTtlOf(ttl, ds, i, j)
    requires KeyOf(agent, ds[i]) == KeyOf(agent, ds[j])
    requires forall m :: i < m < j ==> KeyOf(agent, ds[m]) != KeyOf(agent, ds[i])
    requires Lookup(stores[i], ttl, KeyOf(agent, ds[i]), ds[i].checkedAt).None?
    requires Authentic(ds[i]) && Executes(ds[i]) && Authentic(ds[j]) && Executes(ds[j])
    ensures os[i].executed && (os[j].executed <==> !WellBehaved(ds[i]))
  {
    assert DeliverySpec(agent, ttl, stores[i], ds[i], stores[i + 1], os[i]);
    assert DeliverySpec(agent, ttl, stores[j], ds[j], stores[j + 1], os[j]);
    if WellBehaved(ds[i]) {
      AtMostOnce(agent, ttl, stores, ds, os, i, j);
    } else {
      KeyStaysAbsent(agent, ttl, stores, ds, os, i + 1, j, KeyOf(agent, ds[i]));
    }
  }

  // ------------------------------------------------------------------ which deliveries execute

  function SessionOf(d: Delivery): string {
    if d.sessionId.Some? then d.sessionId.value else ""
  }

  predicate PlainIds(d: Delivery) {
    HashFree(d.senderDid) && HashFree(SessionOf(d))
  }

  /** One sender repeats itself: same sender, session and envelope id. */
  predicate SameMessage(d: Delivery, d': Delivery) {
    d.senderDid == d'.senderDid && SessionOf(d) == SessionOf(d') && d.envelopeId == d'.envelopeId
  }

  /** Two deliveries share a cache key exactly when they are the same message. */
  lemma KeyOfMeaning(agent: string, d: Delivery, d': Delivery)
    requires HashFree(agent) && PlainIds(d) && PlainIds(d')
    ensures KeyOf(agent, d) == KeyOf(agent, d') <==> SameMessage(d, d')
  {
    KeyInjective(IdempotencyKey(agent, d.senderDid, d.sessionId, d.envelopeId),
      IdempotencyKey(agent, d'.senderDid, d'.sessionId, d'.envelopeId));
  }

  /** Every cached answer was recorded by an earlier delivery with its key, at that delivery's time. */
  lemma {:induction false} EntryOrigin(
    agent: string, ttl: int, stores: seq<Store>, ds: seq<Delivery>, os: seq<Outcome>, n: nat, key: string)
    returns (i: nat)
    requires IsRun(agent, ttl, stores, ds, os) && stores[0] == map[] && n <= |ds| && key in stores[n]
    ensures i < n && KeyOf(agent, ds[i]) == key && os[i].recorded.Some?
    ensures stores[n][key] == Entry(os[i].recorded.value, ds[i].recordedAt)
    decreases n
  {
    assert DeliverySpec(agent, ttl, stores[n - 1], ds[n - 1], stores[n - 1 + 1], os[n - 1]);
    EntryStep(agent, ttl, stores[n - 1], ds[n - 1], stores[n], os[n - 1], key);
    if KeyOf(agent, ds[n - 1]) == key && os[n - 1].recorded.Some? {
      i := n - 1;
    } else {
      i := EntryOrigin(agent, ttl, stores, ds, os, n - 1, key);
    }
  }

  /** Delivery `i` recorded an answer that has not expired when delivery `j` is checked. */
  predicate Answers(ttl: int, ds: seq<Delivery>, os: seq<Outcome>, i: nat, j: nat)
    requires i < |ds| && j < |ds| && |os| == |ds|
  {
    os[i].recorded.Some? && ds[j].checkedAt <= ds[i].recordedAt + ttl
  }

  /** In any run that starts with an empty cache: a delivery whose message no earlier delivery has a live answer for
      executes exactly when everything on its way permits. In particular every new message does. */
  lemma NewMessageExecutes(agent: string, ttl: int, stores: seq<Store>, ds: seq<Delivery>, os: seq<Outcome>, j: nat)
    requires IsRun(agent, ttl, stores, ds, os) && stores[0] == map[] && j < |ds|
    requires HashFree(agent) && forall i :: 0 <= i <= j ==> PlainIds(ds[i])
    requires forall i :: 0 <= i < j && SameMessage(ds[i], ds[j]) ==> !Answers(ttl, ds, os, i, j)
    ensures os[j].executed <==> Authentic(ds[j]) && Executes(ds[j])
  {
    assert DeliverySpec(agent, ttl, stores[j], ds[j], stores[j + 1], os[j]);
    var key := KeyOf(agent, ds[j]);
    if key in stores[j] {
      var i := EntryOrigin(agent, ttl, stores, ds, os, j, key);
      KeyOfMeaning(agent, ds[i], ds[j]);
      assert !Answers(ttl, ds, os, i, j);
    }
  }

  // ------------------------------------------------------------------ what a caller is told

  /** An error envelope as the caller sees it. */
  function ErrorReply(agent: string, d: Delivery, kind: ErrorKind, text: string): Response {
    Response(agent, d.senderDid, d.sessionId, true,
             ErrorBody(kind, text, if d.envelopeId == "" then None else Some(d.envelopeId)), None)
  }

  /** A success envelope: the executor's data, the request's own id if it has one, the record made for it, and the
      next sequence number. */
  function SuccessReply(agent: string, d: Delivery, data: string): Response {
    Response(agent, d.senderDid, d.sessionId, false,
             SuccessBody(match d.requestId case Some(id) => id case None => d.envelopeId, d.action, data,
               d.quota.pending),
             match d.sequenceNumber case Some(n) => Some(n + 1) case None => None)
  }

  /** An authentic message that is not in the cache and can be read. */
  predicate Misses(agent: string, ttl: int, s: Store, d: Delivery) {
    Authentic(d) && Lookup(s, ttl, KeyOf(agent, d), d.checkedAt).None? && d.extract.Fine?
  }

  /** The token stands in the way of nothing. */
  predicate TokenPermits(d: Delivery) {
    d.token.NoToken? || (d.token.Meters? && (d.token.scopes == [] ||
      (d.trackerInjected && forall i: nat :: i < |d.token.scopes| ==> Grants(d.token.scopes[i], d.quota, i))))
  }

  /** The reply, and what is recorded rebuilds it; or nothing is recorded. */
  predicate Replies(o: Outcome, response: Response, keeps: bool) {
    && o.response == Some(response) && (o.recorded.Some? <==> keeps)
    && (keeps ==> RebuildEnvelopeFromSpec(o.recorded.value) == response)
  }

  /** A permitted execution is answered with its data; if it cannot be recorded or answered the caller is told of
      an internal error, which is kept so that the message does not execute again. When recording the failure fails
      too, it is that error. */
  lemma ExecutedReply(agent: string, ttl: int, s: Store, d: Delivery, s': Store, o: Outcome)
    requires DeliverySpec(agent, ttl, s, d, s', o) && Misses(agent, ttl, s, d)
    requires TokenPermits(d) && d.guard.Permits? && d.executor.Succeeds?
    ensures o.executed
    ensures d.successRecorder.Fine? && d.build.Fine? ==> Replies(o, SuccessReply(agent, d, d.executor.data), true)
    ensures d.successRecorder.Throws? && d.catchBuild.Fine? ==>
      var error := match d.errorRecorder case Fine => d.successRecorder.error case Throws(second) => second;
      Replies(o, ErrorReply(agent, d, if error.invalidMessage then InvalidEnvelope else InternalError, error.detail),
        !error.invalidMessage)
    ensures d.successRecorder.Fine? && d.build.Throws? && d.catchBuild.Fine? ==>
      var error := d.build.error;
      Replies(o, ErrorReply(agent, d, if error.invalidMessage then InvalidEnvelope else InternalError, error.detail),
        !error.invalidMessage)
  {
    assert CapabilityAllows(d);
  }

  /** A refusal by the token, for want of a tracker, or by a limit is told as such and kept, once it is on record. */
  lemma RefusedReply(agent: string, ttl: int, s: Store, d: Delivery, s': Store, o: Outcome)
    requires DeliverySpec(agent, ttl, s, d, s', o) && Misses(agent, ttl, s, d) && d.errorBuild.Fine?
    requires RefusalOf(d).Some?
    ensures !o.executed
    ensures d.rejectionRecorder.Fine? ==>
      Replies(o, ErrorReply(agent, d, AuthorizationInsufficient, RefusalOf(d).value), true)
    ensures d.rejectionRecorder.Throws? ==> Replies(o, ErrorReply(agent, d, InternalError, AUDIT_FAILED), false)
  {
    RefusalIsOutcome(d);
  }

  lemma RefusalIsOutcome(d: Delivery)
    requires RefusalOf(d).Some?
    ensures CapabilityOutcome(d) == Rejected(RefusalOf(d).value) && !CapabilityAllows(d)
  {
    if d.token.Meters? { var k := GrantedUpTo(d.token.scopes, d.quota, 0); }
  }

  /** Why the token check turns a delivery down, if it does. */
  function RefusalOf(d: Delivery): Option<string> {
    match d.token
    case Refuses(reason) => Some(reason)
    case Meters(scopes) =>
      if scopes != [] && !d.trackerInjected then Some("delegation_cumulative_limit_unverifiable")
      else if LimitRefuses(d) then Some("delegation_cumulative_limit_exceeded")
      else None
    case _ => None
  }

  /** Some scope is refused before the tracker throws. */
  predicate LimitRefuses(d: Delivery)
    requires d.token.Meters?
  {
    exists k: nat :: k < |d.token.scopes| && !Grants(d.token.scopes[k], d.quota, k) &&
      (Metered(d.token.scopes[k], d.quota) ==> d.quota.reply(k).Replied?) &&
      forall j: nat :: j < k ==> Grants(d.token.scopes[j], d.quota, j)
  }

  /** A denial by the recipient's own policy is told as such and kept. */
  lemma DeniedReply(agent: string, ttl: int, s: Store, d: Delivery, s': Store, o: Outcome)
    requires DeliverySpec(agent, ttl, s, d, s', o) && Misses(agent, ttl, s, d) && d.errorBuild.Fine?
    requires TokenPermits(d) && d.guard.Forbids? && d.denialRecorder.Fine?
    ensures !o.executed && Replies(o, ErrorReply(agent, d, AuthorizationInsufficient, d.guard.reason), true)
  {
    assert CapabilityAllows(d);
  }

  /** Anything that goes wrong before the executor has succeeded is told and forgotten, so that the message may be
      sent again. */
  lemma FailedReply(agent: string, ttl: int, s: Store, d: Delivery, s': Store, o: Outcome, error: Error)
    requires DeliverySpec(agent, ttl, s, d, s', o) && d.catchBuild.Fine?
    requires
      || (d.parse == Throws(error))
      || (d.parse.Fine? && d.verify == VerificationThrows(error))
      || (Authentic(d) && Lookup(s, ttl, KeyOf(agent, d), d.checkedAt).None? && d.extract == Throws(error))
      || (Misses(agent, ttl, s, d) && d.token == CheckThrows(error))
      || (Misses(agent, ttl, s, d) && TokenPermits(d) && d.guard == GuardThrows(error))
      || (Misses(agent, ttl, s, d) && TokenPermits(d) && d.guard.Permits? && d.executor == ExecutorThrows(error) &&
          d.errorRecorder.Fine?)
      || (Misses(agent, ttl, s, d) && TokenPermits(d) && d.guard.Permits? && d.executor.ExecutorThrows? &&
          d.errorRecorder == Throws(error))
      || (Misses(agent, ttl, s, d) && TokenPermits(d) && d.guard.Forbids? && d.denialRecorder == Throws(error))
    ensures !o.executed && Replies(o,
      ErrorReply(agent, d, if error.invalidMessage then InvalidEnvelope else InternalError, error.detail), false)
  {
    if TokenPermits(d) { assert CapabilityAllows(d); }
  }

  /** A message that does not verify is told so, and neither looked up nor executed. */
  lemma UnverifiedReply(agent: string, ttl: int, s: Store, d: Delivery, s': Store, o: Outcome)
    requires DeliverySpec(agent, ttl, s, d, s', o) && d.parse.Fine? && d.verify.NotVerified? && d.errorBuild.Fine?
    ensures !o.executed && s' == s
    ensures Replies(o, ErrorReply(agent, d, IdentityVerificationFailed, d.verify.reason), false)
  {
  }

  predicate IsInternalError(e: Entry) {
    e.spec.ErrorSpec? && e.spec.kind == InternalError
  }

  /** A cached INTERNAL_ERROR comes from a run whose executor succeeded: transient failures are not cached. */
  lemma CachedErrorsCommitted(
    agent: string, ttl: int, stores: seq<Store>, ds: seq<Delivery>, os: seq<Outcome>, n: nat, key: string)
    returns (i: nat)
    requires IsRun(agent, ttl, stores, ds, os) && stores[0] == map[] && n <= |ds|
    requires key in stores[n] && IsInternalError(stores[n][key])
    ensures i < n && os[i].executed && KeyOf(agent, ds[i]) == key && os[i].recorded == Some(stores[n][key].spec)
  {
    i := EntryOrigin(agent, ttl, stores, ds, os, n, key);
    assert DeliverySpec(agent, ttl, stores[i], ds[i], stores[i + 1], os[i]);
  }

  /** An entry is what this delivery recorded under its key, or was there before. */
  lemma EntryStep(agent: string, ttl: int, s: Store, d: Delivery, s': Store, o: Outcome, key: string)
    requires DeliverySpec(agent, ttl, s, d, s', o) && key in s'
    ensures if KeyOf(agent, d) == key && o.recorded.Some? then s'[key] == Entry(o.recorded.value, d.recordedAt)
            else key in s && s[key] == s'[key]
  {
  }

  // ------------------------------------------------------------------ reservations over runs

  function Ledger(os: seq<Outcome>): seq<Event>
    decreases |os|
  {
    if os == [] then [] else Ledger(os[..|os| - 1]) + os[|os| - 1].log
  }

  predicate FreshIds(ds: seq<Delivery>) {
    forall i, j :: 0 <= i < j < |ds| ==> Pending(ds[i]) != Pending(ds[j])
  }

  /** A reservation left open over a whole run belongs to a delivery whose executor succeeded. */
  lemma {:induction false} OpenAreCommitted(
    agent: string, ttl: int, stores: seq<Store>, ds: seq<Delivery>, os: seq<Outcome>, n: nat, id: RecordId)
    returns (i: nat)
    requires IsRun(agent, ttl, stores, ds, os) && n <= |ds|
    requires (forall i :: 0 <= i < n ==> ds[i].quota.cancelSupported) && id in Open(Ledger(os[..n]))
    ensures i < n && os[i].executed && id.pending == Pending(ds[i])
    decreases n
  {
    if n > 0 {
      var last := n - 1;
      assert os[..n][..last] == os[..last];
      assert DeliverySpec(agent, ttl, stores[last], ds[last], stores[last + 1], os[last]);
      OpenConcat({}, Ledger(os[..last]), os[last].log);
      OpenShrinks(Open(Ledger(os[..last])), os[last].log);
      if id in Open(os[last].log) {
        OpenIsOurs(os[last].log, Pending(ds[last]), id);
        i := last;
      } else {
        i := OpenAreCommitted(agent, ttl, stores, ds, os, last, id);
      }
    }
  }

  /** What is open after a log was open before it or opened by it. */
  lemma {:induction false} OpenShrinks(open: set<RecordId>, log: seq<Event>)
    ensures OpenFrom(open, log) <= open + Open(log)
    decreases |log|
  {
    if log != [] {
      OpenShrinks(open, log[..|log| - 1]);
    }
  }

  /** When the executor did not succeed, every success-only reservation of the delivery has had a cancel
      attempted after it. */
  lemma UncommittedAreCancelled(agent: string, ttl: int, s: Store, d: Delivery, s': Store, o: Outcome, a: nat)
    requires DeliverySpec(agent, ttl, s, d, s', o) && !o.executed && d.quota.cancelSupported
    requires a < |o.log| && o.log[a].Reserved? && o.log[a].reservation.filter.SuccessOnly?
    ensures exists b :: a < b < |o.log| && o.log[b] == CancelAttempted(o.log[a].reservation.id)
  {
    OpenOrCancelled(o.log, a);
  }

  /** No reservation of a delivery whose executor succeeded is cancelled, in any delivery of the run, and
      no reservation of a metric that counts every attempt is cancelled at all. */
  lemma CommittedNeverCancelled(
    agent: string, ttl: int, stores: seq<Store>, ds: seq<Delivery>, os: seq<Outcome>, i: nat, j: nat, id: RecordId)
    requires IsRun(agent, ttl, stores, ds, os) && FreshIds(ds) && i < |ds| && j < |ds|
    requires CancelAttempted(id) in os[j].log
    ensures os[i].executed ==> id.pending != Pending(ds[i])
    ensures id.metric == "transaction_amount"
  {
    FilterMeaning(id.metric);
    assert DeliverySpec(agent, ttl, stores[i], ds[i], stores[i + 1], os[i]);
    assert DeliverySpec(agent, ttl, stores[j], ds[j], stores[j + 1], os[j]);
    assert CancelsAreOurs(os[j].log, Pending(ds[j]));
    var e := CancelAttempted(id);
    assert e in os[j].log && e.id.pending == Pending(ds[j]);
    assert i < j ==> Pending(ds[i]) != Pending(ds[j]);
    assert j < i ==> Pending(ds[j]) != Pending(ds[i]);
  }
}
