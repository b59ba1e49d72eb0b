/** The response idempotency cache: logical responses, their rebuilding, and the in-memory store. */
module ResponseCache {
  import opened Common

  // ------------------------------------------------------------------ responses

  datatype ErrorKind = AuthorizationInsufficient | IdentityVerificationFailed | InvalidEnvelope | InternalError

  datatype Body =
    | SuccessBody(requestId: string, action: string, data: string, recordId: string)
    | ErrorBody(code: ErrorKind, message: string, relatedEnvelopeId: Option<string>)

  /** An envelope without what every signing renews: its id, timestamp and signature. */
  datatype Response = Response(
    senderDid: string, recipientDid: string, sessionId: Option<string>, isError: bool, body: Body,
      sequenceNumber: Option<int>)

  datatype ResponseSpec =
    | SuccessSpec(agentDid: string, originalSenderDid: string, sessionId: Option<string>, requestId: string,
                  action: string, data: string, recordId: string, sequenceNumber: Option<int>)
    | ErrorSpec(kind: ErrorKind, agentDid: string, originalSenderDid: string, sessionId: Option<string>,
                relatedEnvelopeId: Option<string>, message: Option<string>)

  function DefaultMessage(kind: ErrorKind): string {
    match kind
    case AuthorizationInsufficient => "Authorization insufficient for the requested action."
    case IdentityVerificationFailed => "Identity verification failed."
    case InvalidEnvelope => "The received envelope is invalid."
    case InternalError => "Internal server error."
  }

  function BuildErrorEnvelope(
    kind: ErrorKind, agent: string, recipient: string, session: Option<string>, related: Option<string>,
    message: Option<string>): Response
  {
    var text := if message.Some? then message.value else DefaultMessage(kind);
    var about := if related == Some("") then None else related;
    Response(agent, recipient, session, true, ErrorBody(kind, text, about), None)
  }

  function BuildSuccessEnvelope(
    agent: string, recipient: string, session: Option<string>, requestId: string, action: string, data: string,
    recordId: string, sequence: Option<int>): Response
  {
    Response(agent, recipient, session, false, SuccessBody(requestId, action, data, recordId), sequence)
  }

  function RebuildEnvelopeFromSpec(spec: ResponseSpec): Response {
    match spec
    case SuccessSpec(agent, recipient, session, requestId, action, data, recordId, sequence) =>
      BuildSuccessEnvelope(agent, recipient, session, requestId, action, data, recordId, sequence)
    case ErrorSpec(kind, agent, recipient, session, related, message) =>
      BuildErrorEnvelope(kind, agent, recipient, session, related, message)
  }

  // ------------------------------------------------------------------ keys

  datatype IdempotencyKey =
    IdempotencyKey(recipientDid: string, senderDid: string, sessionId: Option<string>, envelopeId: string)

  function SessionText(k: IdempotencyKey): string {
    if k.sessionId.Some? then k.sessionId.value else ""
  }

  function BuildKey(k: IdempotencyKey): string {
    k.recipientDid + "#" + (k.senderDid + "#" + (SessionText(k) + "#" + k.envelopeId))
  }

  predicate HashFree(s: string) {
    '#' !in s
  }

  lemma FirstHash(a: string, x: string)
    requires HashFree(a)
    ensures var s := a + "#" + x; s[|a|] == '#' && forall i :: 0 <= i < |a| ==> s[i] != '#'
  {
    var s := a + "#" + x;
    forall i | 0 <= i < |a| ensures s[i] != '#' {
      assert s[i] == a[i] && a[i] in a;
    }
  }

  /** The first separator splits a text in only one way. */
  lemma SplitAtHash(a: string, b: string, x: string, y: string)
    requires HashFree(a) && HashFree(b) && a + "#" + x == b + "#" + y
    ensures a == b && x == y
  {
    var s := a + "#" + x;
    FirstHash(a, x);
    FirstHash(b, y);
    assert s == b + "#" + y;
    assert |a| == |b|;
    assert s[..|a|] == a && s[..|b|] == b;
    assert s[|a| + 1..] == x && s[|b| + 1..] == y;
  }

  /** Keys whose DIDs and session ids have no separator are told apart, except that no session and an
      empty session id are the same. */
  lemma KeyInjective(k: IdempotencyKey, k': IdempotencyKey)
    requires HashFree(k.recipientDid) && HashFree(k.senderDid) && HashFree(SessionText(k))
    requires HashFree(k'.recipientDid) && HashFree(k'.senderDid) && HashFree(SessionText(k'))
    ensures BuildKey(k) == BuildKey(k') <==>
      k'.recipientDid == k.recipientDid && k'.senderDid == k.senderDid && SessionText(k') == SessionText(k) &&
      k'.envelopeId == k.envelopeId
  {
    if BuildKey(k) == BuildKey(k') {
      var x, x' := k.senderDid + "#" + (SessionText(k) + "#" + k.envelopeId),
        k'.senderDid + "#" + (SessionText(k') + "#" + k'.envelopeId);
      SplitAtHash(k.recipientDid, k'.recipientDid, x, x');
      var y, y' := SessionText(k) + "#" + k.envelopeId, SessionText(k') + "#" + k'.envelopeId;
      SplitAtHash(k.senderDid, k'.senderDid, y, y');
      SplitAtHash(SessionText(k), SessionText(k'), k.envelopeId, k'.envelopeId);
    }
  }

  // ------------------------------------------------------------------ the store

  datatype Entry = Entry(spec: ResponseSpec, createdAt: int)

  type Store = map<string, Entry>

  predicate Expired(e: Entry, ttl: int, now: int) {
    now - e.createdAt > ttl
  }

  function Lookup(store: Store, ttl: int, key: string, now: int): Option<ResponseSpec> {
    if key in store && !Expired(store[key], ttl, now) then Some(store[key].spec) else None
  }

  function AfterCheck(store: Store, ttl: int, key: string, now: int): Store {
    if key in store && Expired(store[key], ttl, now) then store - {key} else store
  }

  function Evicted(store: Store, ttl: int, now: int): Store {
    map k | k in store && !Expired(store[k], ttl, now) :: store[k]
  }

  function AfterRecord(store: Store, ttl: int, key: string, spec: ResponseSpec, now: int): Store {
    Evicted(store, ttl, now)[key := Entry(spec, now)]
  }

  class InMemoryResponseIdempotencyCache {
    const ttlMs: int
    var store: Store

    constructor (ttlMs: int)
      ensures this.ttlMs == ttlMs && store == map[]
    {
      this.ttlMs, this.store := ttlMs, map[];
    }

    method Check(key: string, now: int) returns (spec: Option<ResponseSpec>)
      modifies this`store
      ensures spec == Lookup(old(store), ttlMs, key, now)
      ensures store == AfterCheck(old(store), ttlMs, key, now)
    {
      if key !in store { return None; }
      if now - store[key].createdAt > ttlMs {
        store := store - {key};
        return None;
      }
      spec := Some(store[key].spec);
    }

    method Record(key: string, spec: ResponseSpec, now: int)
      modifies this`store
      ensures store == AfterRecord(old(store), ttlMs, key, spec, now)
    {
      var rest := store.Keys;
      while rest != {}
        invariant rest <= old(store).Keys && store.Keys <= old(store).Keys
        invariant forall k :: k in old(store) && k in rest ==> k in store
        invariant forall k :: k in old(store) && k !in rest ==> (k in store <==> !Expired(old(store)[k], ttlMs, now))
        invariant forall k :: k in store ==> store[k] == old(store)[k]
        decreases |rest|
      {
        assert (forall x :: x !in rest) ==> rest == {};
        var k :| k in rest;
        if now - store[k].createdAt > ttlMs { store := store - {k}; }
        rest := rest - {k};
      }
      assert store == Evicted(old(store), ttlMs, now);
      store := store[key := Entry(spec, now)];
    }
  }
}
