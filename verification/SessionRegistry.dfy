/** The encrypted session registry: one current key generation per session, and the previous one
    as well while a re-key is pending.

    Handles are references into an arena that never forgets one, so "every handle ever created" can
    be spoken of. Key material is abstracted to the key id it yields; `zeroized` records that it was
    erased. The pending timers of the runtime map a timer to its session. */
module SessionRegistry {
  import opened Common

  datatype Role = Initiator | Responder

  datatype HandleState = Active | PendingRekey | Closed

  datatype NewSessionData = NewSessionData(generation: nat, peerKeyId: string)

  /** SessionCryptoHandleImpl: fixed identity, a state and an erased flag. */
  datatype Handle = Handle(
    sessionId: string, generation: nat, role: Role, tokenId: Option<string>, peerKeyId: string,
    state: HandleState, zeroized: bool)

  type HandleRef = nat

  datatype Entry = Entry(current: HandleRef, previous: Option<HandleRef>, timer: Option<nat>)

  datatype State = State(
    entries: map<string, Entry>, handles: map<HandleRef, Handle>, timers: map<nat, string>,
    nextHandle: HandleRef, nextTimer: nat)

  const EMPTY := State(map[], map[], map[], 0, 0)

  datatype Outcome = Done | InternalError

  // ------------------------------------------------------------------ transitions

  function NewHandle(
    sid: string, role: Role, tokenId: Option<string>, data: NewSessionData, state: HandleState): Handle
  {
    Handle(sid, data.generation, role, tokenId, data.peerKeyId, state, false)
  }

  function CreateStep(st: State, sid: string, role: Role, tokenId: Option<string>, data: NewSessionData): State {
    if sid in st.entries then st else
      st.(handles := st.handles[st.nextHandle := NewHandle(sid, role, tokenId, data, Active)],
          nextHandle := st.nextHandle + 1,
          entries := st.entries[sid := Entry(st.nextHandle, None, None)])
  }

  predicate Pending(st: State, sid: string) {
    sid in st.entries && st.entries[sid].current in st.handles
    && st.handles[st.entries[sid].current].state == PendingRekey
  }

  function Opened(st: State, sid: string, data: NewSessionData): State
    requires sid in st.entries && st.entries[sid].current in st.handles
  {
    var before := st.entries[sid].current;
    var next := NewHandle(sid, st.handles[before].role, st.handles[before].tokenId, data, PendingRekey);
    st.(handles := st.handles[st.nextHandle := next],
        nextHandle := st.nextHandle + 1,
        timers := st.timers[st.nextTimer := sid],
        nextTimer := st.nextTimer + 1,
        entries := st.entries[sid := Entry(st.nextHandle, Some(before), Some(st.nextTimer))])
  }

  function SwapStep(st: State, sid: string, data: NewSessionData): State
    requires Inv(st)
  {
    if sid !in st.entries || Pending(st, sid) then st else
      assert EntryInv(st, sid);
      Opened(st, sid, data)
  }

  /** The next generation as the key schedule derives it from the current one. */
  function DerivedData(h: Handle, derive: (string, nat) -> string): NewSessionData {
    NewSessionData(h.generation + 1, derive(h.peerKeyId, h.generation))
  }

  function Zeroized(handles: map<HandleRef, Handle>, h: HandleRef): map<HandleRef, Handle> {
    if h !in handles || handles[h].zeroized then handles
    else handles[h := handles[h].(zeroized := true, state := Closed)]
  }

  function ZeroizedOpt(handles: map<HandleRef, Handle>, h: Option<HandleRef>): map<HandleRef, Handle> {
    if h.None? then handles else Zeroized(handles, h.value)
  }

  function CloseStep(st: State, sid: string): State {
    if sid !in st.entries then st else
      var e := st.entries[sid];
      st.(timers := if e.timer.Some? then st.timers - {e.timer.value} else st.timers,
          handles := ZeroizedOpt(Zeroized(st.handles, e.current), e.previous),
          entries := st.entries - {sid})
  }

  function Activated(handles: map<HandleRef, Handle>, h: HandleRef): map<HandleRef, Handle> {
    if h in handles && handles[h].state == PendingRekey then handles[h := handles[h].(state := Active)] else handles
  }

  function ExpireStep(st: State, sid: string): State {
    if sid !in st.entries then st else
      var e := st.entries[sid];
      st.(handles := Activated(ZeroizedOpt(st.handles, e.previous), e.current),
          entries := st.entries[sid := Entry(e.current, None, None)])
  }

  /** A pending timer fires: the runtime drops it and runs its callback. */
  function FireStep(st: State, timer: nat): State {
    if timer !in st.timers then st
    else ExpireStep(st.(timers := st.timers - {timer}), st.timers[timer])
  }

  // ------------------------------------------------------------------ invariant

  predicate LiveHandle(st: State, h: HandleRef, sid: string) {
    h in st.handles && st.handles[h].sessionId == sid && !st.handles[h].zeroized
  }

  /** Previous handle, pending state and timer come and go together, and generations of one
      session share role and token id. */
  predicate EntryInv(st: State, sid: string)
    requires sid in st.entries
  {
    var e := st.entries[sid];
    && LiveHandle(st, e.current, sid)
    && (e.previous.Some? <==> st.handles[e.current].state == PendingRekey)
    && (e.previous.None? <==> st.handles[e.current].state == Active)
    && (e.previous.Some? <==> e.timer.Some?)
    && (e.timer.Some? ==> e.timer.value in st.timers && st.timers[e.timer.value] == sid)
    && (e.previous.Some? ==> (
          && LiveHandle(st, e.previous.value, sid) && e.previous.value != e.current
          && st.handles[e.previous.value].state == Active
          && st.handles[e.previous.value].role == st.handles[e.current].role
          && st.handles[e.previous.value].tokenId == st.handles[e.current].tokenId))
  }

  /** Reachable from the live entry of its own session. */
  predicate ReachableHandle(st: State, h: HandleRef)
    requires h in st.handles
  {
    var sid := st.handles[h].sessionId;
    sid in st.entries && (st.entries[sid].current == h || st.entries[sid].previous == Some(h))
  }

  predicate HandleInv(st: State, h: HandleRef)
    requires h in st.handles
  {
    h < st.nextHandle && (ReachableHandle(st, h) || st.handles[h].zeroized)
  }

  predicate TimerInv(st: State, t: nat)
    requires t in st.timers
  {
    t < st.nextTimer && st.timers[t] in st.entries && st.entries[st.timers[t]].timer == Some(t)
  }

  ghost predicate Inv(st: State) {
    && (forall sid :: sid in st.entries ==> EntryInv(st, sid))
    && (forall h :: h in st.handles ==> HandleInv(st, h))
    && (forall t :: t in st.timers ==> TimerInv(st, t))
  }

  lemma CreateInv(st: State, sid: string, role: Role, tokenId: Option<string>, data: NewSessionData)
    requires Inv(st)
    ensures Inv(CreateStep(st, sid, role, tokenId, data))
  {
    var st' := CreateStep(st, sid, role, tokenId, data);
    forall s | s in st'.entries ensures EntryInv(st', s) {
      if s in st.entries { assert EntryInv(st, s); }
    }
    forall h | h in st'.handles ensures HandleInv(st', h) {
      if h in st.handles { assert HandleInv(st, h); }
    }
    forall t | t in st'.timers ensures TimerInv(st', t) {
      assert TimerInv(st, t);
    }
  }

  lemma SwapInv(st: State, sid: string, data: NewSessionData)
    requires Inv(st)
    ensures Inv(SwapStep(st, sid, data))
  {
    var st' := SwapStep(st, sid, data);
    forall s | s in st'.entries ensures EntryInv(st', s) {
      assert EntryInv(st, s);
    }
    forall h | h in st'.handles ensures HandleInv(st', h) {
      if h in st.handles { assert HandleInv(st, h); }
    }
    forall t | t in st'.timers ensures TimerInv(st', t) {
      if t in st.timers { assert TimerInv(st, t); }
    }
  }

  lemma CloseInv(st: State, sid: string)
    requires Inv(st)
    ensures Inv(CloseStep(st, sid))
  {
    var st' := CloseStep(st, sid);
    if sid in st.entries {
      assert EntryInv(st, sid);
    }
    forall s | s in st'.entries ensures EntryInv(st', s) {
      assert EntryInv(st, s);
    }
    forall h | h in st'.handles ensures HandleInv(st', h) {
      assert HandleInv(st, h);
    }
    forall t | t in st'.timers ensures TimerInv(st', t) {
      assert TimerInv(st, t);
    }
  }

  lemma FireInv(st: State, timer: nat)
    requires Inv(st)
    ensures Inv(FireStep(st, timer))
  {
    if timer in st.timers {
      assert TimerInv(st, timer);
      var st' := FireStep(st, timer);
      assert EntryInv(st, st.timers[timer]);
      forall s | s in st'.entries ensures EntryInv(st', s) {
        assert EntryInv(st, s);
      }
      forall h | h in st'.handles ensures HandleInv(st', h) {
        assert HandleInv(st, h);
      }
      forall t | t in st'.timers ensures TimerInv(st', t) {
        assert TimerInv(st, t);
      }
    }
  }

  // ------------------------------------------------------------------ runs

  /** The calls the outside world can make, and the timers it can let fire. */
  datatype Operation =
    | Create(sessionId: string, role: Role, tokenId: Option<string>, data: NewSessionData)
    | Swap(sessionId: string, data: NewSessionData)
    | SwapChain(sessionId: string, derive: (string, nat) -> string)
    | Close(sessionId: string)
    | Fire(timer: nat)

  function Step(st: State, op: Operation): (st': State)
    requires Inv(st)
    ensures Inv(st')
  {
    match op
    case Create(sid, role, tokenId, data) =>
      CreateInv(st, sid, role, tokenId, data);
      CreateStep(st, sid, role, tokenId, data)
    case Swap(sid, data) =>
      SwapInv(st, sid, data);
      SwapStep(st, sid, data)
    case SwapChain(sid, derive) =>
      if sid !in st.entries then st else
        assert EntryInv(st, sid);
        var data := DerivedData(st.handles[st.entries[sid].current], derive);
        SwapInv(st, sid, data);
        SwapStep(st, sid, data)
    case Close(sid) =>
      CloseInv(st, sid);
      CloseStep(st, sid)
    case Fire(t) =>
      FireInv(st, t);
      FireStep(st, t)
  }

  function Run(st: State, ops: seq<Operation>): State
    requires Inv(st)
    decreases |ops|
  {
    if ops == [] then st else Run(Step(st, ops[0]), ops[1..])
  }

  /** A dual-key window is open exactly while the current handle is pending a re-key, exactly
      while a timer is pending for the session; there is never a second timer. */
  ghost predicate WindowsPaired(st: State) {
    forall sid :: sid in st.entries ==> (
      var e := st.entries[sid];
      && e.current in st.handles
      && (e.previous.Some? <==> st.handles[e.current].state == PendingRekey)
      && (e.previous.Some? <==> exists t :: t in st.timers && st.timers[t] == sid)
      && (forall t, u :: t in st.timers && u in st.timers && st.timers[t] == sid == st.timers[u] ==> t == u))
  }

  /** Every handle ever created is reachable from a live entry or erased, never both. */
  ghost predicate KeysAccounted(st: State) {
    forall h :: h in st.handles ==> (ReachableHandle(st, h) <==> !st.handles[h].zeroized)
  }

  lemma InvPairsWindows(st: State)
    requires Inv(st)
    ensures WindowsPaired(st)
  {
    forall sid | sid in st.entries
      ensures EntryInv(st, sid)
      ensures forall t :: t in st.timers && st.timers[t] == sid ==> st.entries[sid].timer == Some(t)
    {
      forall t | t in st.timers && st.timers[t] == sid ensures st.entries[sid].timer == Some(t) {
        assert TimerInv(st, t);
      }
    }
  }

  lemma InvAccountsKeys(st: State)
    requires Inv(st)
    ensures KeysAccounted(st)
  {
    forall h | h in st.handles ensures ReachableHandle(st, h) <==> !st.handles[h].zeroized {
      assert HandleInv(st, h);
      if st.handles[h].sessionId in st.entries {
        assert EntryInv(st, st.handles[h].sessionId);
      }
    }
  }

  lemma StepKeepsHandles(st: State, op: Operation)
    requires Inv(st)
    ensures st.handles.Keys <= Step(st, op).handles.Keys
  {
  }

  /** In every state that any sequence of calls and timer firings reaches, windows are paired with
      timers and every key ever created is accounted for. */
  lemma {:induction false} ReachableStates(st: State, ops: seq<Operation>)
    requires Inv(st)
    ensures WindowsPaired(Run(st, ops)) && KeysAccounted(Run(st, ops))
    ensures Inv(Run(st, ops)) && st.handles.Keys <= Run(st, ops).handles.Keys
    decreases |ops|
  {
    if ops == [] {
      InvPairsWindows(st);
      InvAccountsKeys(st);
    } else {
      StepKeepsHandles(st, ops[0]);
      ReachableStates(Step(st, ops[0]), ops[1..]);
    }
  }

  /** Role and token id of the current generation. */
  function IdentityOf(st: State, sid: string): (Role, Option<string>)
    requires Inv(st) && sid in st.entries
  {
    assert EntryInv(st, sid);
    var h := st.handles[st.entries[sid].current];
    (h.role, h.tokenId)
  }

  predicate AlwaysLive(st: State, ops: seq<Operation>, sid: string)
    requires Inv(st)
    decreases |ops|
  {
    sid in st.entries && (ops == [] || AlwaysLive(Step(st, ops[0]), ops[1..], sid))
  }

  lemma SwapKeepsIdentity(st: State, s: string, data: NewSessionData, sid: string)
    requires Inv(st) && sid in st.entries && Inv(SwapStep(st, s, data))
    ensures sid in SwapStep(st, s, data).entries && IdentityOf(SwapStep(st, s, data), sid) == IdentityOf(st, sid)
  {
    assert EntryInv(st, sid);
    assert HandleInv(st, st.entries[sid].current);
  }

  lemma CloseKeepsIdentity(st: State, s: string, sid: string)
    requires Inv(st) && sid in st.entries && sid in CloseStep(st, s).entries && Inv(CloseStep(st, s))
    ensures IdentityOf(CloseStep(st, s), sid) == IdentityOf(st, sid)
  {
    assert EntryInv(st, sid);
    if s in st.entries {
      assert EntryInv(st, s);
    }
  }

  lemma FireKeepsIdentity(st: State, t: nat, sid: string)
    requires Inv(st) && sid in st.entries && Inv(FireStep(st, t))
    ensures sid in FireStep(st, t).entries && IdentityOf(FireStep(st, t), sid) == IdentityOf(st, sid)
  {
    assert EntryInv(st, sid);
    if t in st.timers {
      assert TimerInv(st, t) && EntryInv(st, st.timers[t]);
    }
  }

  lemma StepKeepsIdentity(st: State, op: Operation, sid: string)
    requires Inv(st) && sid in st.entries && sid in Step(st, op).entries
    ensures IdentityOf(Step(st, op), sid) == IdentityOf(st, sid)
  {
    match op {
      case Create(s, role, tokenId, data) =>
        assert EntryInv(st, sid);
        assert HandleInv(st, st.entries[sid].current);
      case Swap(s, data) =>
        SwapKeepsIdentity(st, s, data, sid);
      case SwapChain(s, derive) =>
        if s in st.entries {
          assert EntryInv(st, s);
          SwapKeepsIdentity(st, s, DerivedData(st.handles[st.entries[s].current], derive), sid);
        }
      case Close(s) =>
        CloseKeepsIdentity(st, s, sid);
      case Fire(t) =>
        FireKeepsIdentity(st, t, sid);
    }
  }

  /** Role and token id never change while a session lives, however often it is re-keyed. */
  lemma {:induction false} IdentityIsFixed(st: State, ops: seq<Operation>, sid: string)
    requires Inv(st) && AlwaysLive(st, ops, sid)
    ensures Inv(Run(st, ops)) && sid in Run(st, ops).entries
    ensures IdentityOf(Run(st, ops), sid) == IdentityOf(st, sid)
    decreases |ops|
  {
    if ops != [] {
      StepKeepsIdentity(st, ops[0], sid);
      IdentityIsFixed(Step(st, ops[0]), ops[1..], sid);
    }
  }

  // ------------------------------------------------------------------ what each call achieves

  /** Sessions other than `sid` keep their entry, and every handle of theirs is as it was. */
  ghost predicate OthersKept(st: State, st': State, sid: string) {
    && (forall s :: s != sid ==> (s in st'.entries <==> s in st.entries))
    && (forall s :: s in st.entries && s != sid ==> st'.entries[s] == st.entries[s])
    && (forall h :: h in st.handles && st.handles[h].sessionId != sid ==>
        h in st'.handles && st'.handles[h] == st.handles[h])
  }

  /** A new session has one fresh handle with what was asked for, active; a live id is left alone. */
  lemma CreateEffect(st: State, sid: string, role: Role, tokenId: Option<string>, data: NewSessionData)
    requires Inv(st)
    ensures var st' := Step(st, Create(sid, role, tokenId, data));
            if sid in st.entries then st' == st else
              && sid in st'.entries && OthersKept(st, st', sid) && st'.timers == st.timers
              && var e := st'.entries[sid];
                 && e.current !in st.handles && e.current in st'.handles && e.previous == None && e.timer == None
                 && st'.handles[e.current] ==
                    Handle(sid, data.generation, role, tokenId, data.peerKeyId, Active, false)
  {
    forall h | h in st.handles ensures h != st.nextHandle {
      assert HandleInv(st, h);
    }
  }

  /** The dual-key window opens on a fresh handle of the new generation, with role and token id of the old one, which
      stays live beside it under a new timer; without a session or within a window nothing happens. */
  lemma SwapEffect(st: State, sid: string, data: NewSessionData)
    requires Inv(st)
    ensures var st' := Step(st, Swap(sid, data));
            if sid !in st.entries || st.entries[sid].previous.Some? then st' == st else
              && sid in st'.entries && OthersKept(st, st', sid)
              && var e, before := st'.entries[sid], st.entries[sid].current;
                 && before in st.handles && e.current !in st.handles && e.current in st'.handles
                 && e.previous == Some(before) && st'.handles[before] == st.handles[before]
                 && st'.handles[e.current] == Handle(sid, data.generation, st.handles[before].role,
                      st.handles[before].tokenId, data.peerKeyId, PendingRekey, false)
                 && e.timer.Some? && e.timer.value !in st.timers && st'.timers == st.timers[e.timer.value := sid]
  {
    if sid in st.entries { assert EntryInv(st, sid); }
    forall h | h in st.handles ensures h != st.nextHandle {
      assert HandleInv(st, h);
    }
    forall t | t in st.timers ensures t != st.nextTimer {
      assert TimerInv(st, t);
    }
  }

  /** In chain mode the new generation is the next one, and its key comes from the current key and generation. */
  lemma SwapChainEffect(st: State, sid: string, derive: (string, nat) -> string)
    requires Inv(st) && sid in st.entries
    ensures st.entries[sid].current in st.handles
    ensures var h := st.handles[st.entries[sid].current];
            Step(st, SwapChain(sid, derive)) ==
              Step(st, Swap(sid, NewSessionData(h.generation + 1, derive(h.peerKeyId, h.generation))))
  {
    assert EntryInv(st, sid);
  }

  /** When its timer fires the window closes: the old generation is erased, the new one active and alone. */
  lemma FireEffect(st: State, timer: nat)
    requires Inv(st)
    ensures var st' := Step(st, Fire(timer));
            if timer !in st.timers then st' == st else
              var sid := st.timers[timer];
              && sid in st.entries && sid in st'.entries && OthersKept(st, st', sid)
              && st'.timers == st.timers - {timer}
              && var e, e' := st.entries[sid], st'.entries[sid];
                 && e'.current == e.current && e'.previous == None && e'.timer == None && e.previous.Some?
                 && e.current in st.handles && e.current in st'.handles && e.previous.value in st'.handles
                 && st'.handles[e.current] == st.handles[e.current].(state := Active)
                 && st'.handles[e.previous.value].zeroized && st'.handles[e.previous.value].state == Closed
  {
    if timer in st.timers {
      assert TimerInv(st, timer);
      assert EntryInv(st, st.timers[timer]);
      FireKeepsOthers(st, timer);
    }
  }

  lemma FireKeepsOthers(st: State, timer: nat)
    requires Inv(st) && timer in st.timers
    ensures OthersKept(st, FireStep(st, timer), st.timers[timer])
  {
    assert TimerInv(st, timer);
    assert EntryInv(st, st.timers[timer]);
  }

  /** A closed session is forgotten with its timer, and no handle of it is left unerased. */
  lemma CloseEffect(st: State, sid: string)
    requires Inv(st)
    ensures var st' := Step(st, Close(sid));
            && sid !in st'.entries && OthersKept(st, st', sid)
            && (forall t :: t in st'.timers <==> t in st.timers && st.timers[t] != sid)
            && (forall h :: h in st'.handles && st'.handles[h].sessionId == sid ==> st'.handles[h].zeroized)
  {
    var st' := Step(st, Close(sid));
    if sid in st.entries { assert EntryInv(st, sid); }
    forall t | t in st.timers && st.timers[t] == sid ensures t !in st'.timers {
      assert TimerInv(st, t);
    }
    forall h | h in st'.handles && st'.handles[h].sessionId == sid ensures st'.handles[h].zeroized {
      assert HandleInv(st', h);
    }
  }

  // ------------------------------------------------------------------ the registry object

  class Registry {
    var entries: map<string, Entry>
    var handles: map<HandleRef, Handle>
    var timers: map<nat, string>
    var nextHandle: HandleRef
    var nextTimer: nat

    ghost function View(): State
      reads this
    {
      State(entries, handles, timers, nextHandle, nextTimer)
    }

    ghost predicate Valid()
      reads this
    {
      Inv(View())
    }

    constructor ()
      ensures Valid() && View() == EMPTY
    {
      entries, handles, timers, nextHandle, nextTimer := map[], map[], map[], 0, 0;
    }

    method AddHandle(h: Handle) returns (r: HandleRef)
      modifies this`handles, this`nextHandle
      ensures r == old(nextHandle) && nextHandle == r + 1 && handles == old(handles)[r := h]
    {
      r := nextHandle;
      handles := handles[r := h];
      nextHandle := nextHandle + 1;
    }

    /** A session id is registered once; a second registration changes nothing. */
    method CreateSession(sid: string, role: Role, tokenId: Option<string>, data: NewSessionData) returns (r: Outcome)
      requires Valid()
      modifies this
      ensures Valid() && View() == Step(old(View()), Create(sid, role, tokenId, data))
      ensures r == if sid in old(entries) then InternalError else Done
    {
      ghost var st' := Step(View(), Create(sid, role, tokenId, data));
      if sid in entries {
        return InternalError;
      }
      var h := AddHandle(NewHandle(sid, role, tokenId, data, Active));
      entries := entries[sid := Entry(h, None, None)];
      return Done;
    }

    /** The encrypt path always gets the newest generation, and never erased keys. */
    method LookupHandle(sid: string) returns (r: Option<HandleRef>)
      requires Valid()
      ensures r == if sid in entries then Some(entries[sid].current) else None
      ensures r.Some? ==> r.value in handles && !handles[r.value].zeroized && handles[r.value].state != Closed
    {
      if sid !in entries {
        return None;
      }
      assert EntryInv(View(), sid);
      return Some(entries[sid].current);
    }

    /** The decrypt path gets the generation that the key id names, never erased keys, and nothing
        when neither generation answers to it. */
    method LookupHandleForDecrypt(sid: string, keyId: string) returns (r: Option<HandleRef>)
      requires Valid()
      ensures r.Some? ==> r.value in handles && !handles[r.value].zeroized && handles[r.value].state != Closed
      ensures r.Some? ==> handles[r.value].peerKeyId == keyId && handles[r.value].sessionId == sid
      ensures r.None? <==> forall h :: h in handles && handles[h].sessionId == sid && !handles[h].zeroized ==>
        handles[h].peerKeyId != keyId
      ensures r.Some? ==> sid in entries && entries[sid].current in handles
      ensures r.Some? ==>
        var e := entries[sid];
        r == if handles[e.current].peerKeyId == keyId then Some(e.current) else e.previous
    {
      ghost var st := View();
      assert sid in entries ==> EntryInv(st, sid);
      assert forall h :: h in handles ==> HandleInv(st, h);
      if sid !in entries {
        return None;
      }
      var e := entries[sid];
      if handles[e.current].peerKeyId == keyId {
        return Some(e.current);
      }
      if e.previous.Some? && handles[e.previous.value].peerKeyId == keyId {
        return e.previous;
      }
      return None;
    }

    /** Starts the dual-key window; while one is open nothing happens. */
    method SwapForDualKey(sid: string, data: NewSessionData) returns (r: Outcome)
      requires Valid()
      modifies this
      ensures Valid() && View() == Step(old(View()), Swap(sid, data))
      ensures r == if sid in old(entries) then Done else InternalError
    {
      ghost var st' := Step(View(), Swap(sid, data));
      if sid !in entries {
        return InternalError;
      }
      assert EntryInv(View(), sid);
      if handles[entries[sid].current].state != PendingRekey {
        OpenWindow(sid, data);
      }
      return Done;
    }

    method OpenWindow(sid: string, data: NewSessionData)
      requires sid in entries && entries[sid].current in handles
      modifies this
      ensures View() == Opened(old(View()), sid, data)
    {
      var current := entries[sid].current;
      var before := handles[current];
      var h := AddHandle(NewHandle(sid, before.role, before.tokenId, data, PendingRekey));
      timers := timers[nextTimer := sid];
      entries := entries[sid := Entry(h, Some(current), Some(nextTimer))];
      nextTimer := nextTimer + 1;
    }

    method SwapForDualKeyChainMode(sid: string, derive: (string, nat) -> string) returns (r: Outcome)
      requires Valid()
      modifies this
      ensures Valid() && View() == Step(old(View()), SwapChain(sid, derive))
      ensures r == if sid in old(entries) then Done else InternalError
    {
      if sid !in entries {
        return InternalError;
      }
      assert EntryInv(View(), sid);
      var h := handles[entries[sid].current];
      if h.state == PendingRekey {
        return Done;
      }
      r := SwapForDualKey(sid, DerivedData(h, derive));
    }

    method Zeroize(h: HandleRef)
      modifies this`handles
      ensures handles == Zeroized(old(handles), h)
    {
      if h !in handles || handles[h].zeroized {
        return;
      }
      handles := handles[h := handles[h].(zeroized := true, state := Closed)];
    }

    /** Cancels the timer, erases every key of the session and forgets it. */
    method CloseSession(sid: string)
      requires Valid()
      modifies this
      ensures Valid() && View() == Step(old(View()), Close(sid))
    {
      ghost var st' := Step(View(), Close(sid));
      Forget(sid);
    }

    method Forget(sid: string)
      modifies this
      ensures View() == CloseStep(old(View()), sid)
    {
      if sid !in entries {
        return;
      }
      var e := entries[sid];
      if e.timer.Some? {
        timers := timers - {e.timer.value};
      }
      Zeroize(e.current);
      if e.previous.Some? {
        Zeroize(e.previous.value);
      }
      entries := entries - {sid};
    }

    /** A pending timer fires: the old generation is erased, the new one becomes active. */
    method FireTimer(timer: nat)
      requires Valid()
      modifies this
      ensures Valid() && View() == Step(old(View()), Fire(timer))
    {
      ghost var st' := Step(View(), Fire(timer));
      RunTimer(timer);
    }

    method RunTimer(timer: nat)
      modifies this`timers, this`entries, this`handles
      ensures View() == FireStep(old(View()), timer)
    {
      if timer !in timers {
        return;
      }
      var sid := timers[timer];
      timers := timers - {timer};
      ExpireDualKeyWindow(sid);
    }

    /** The timer's callback. */
    method ExpireDualKeyWindow(sid: string)
      modifies this`entries, this`handles
      ensures View() == ExpireStep(old(View()), sid)
    {
      if sid !in entries {
        return;
      }
      var e := entries[sid];
      if e.previous.Some? {
        Zeroize(e.previous.value);
      }
      if e.current in handles && handles[e.current].state == PendingRekey {
        handles := handles[e.current := handles[e.current].(state := Active)];
      }
      entries := entries[sid := Entry(e.current, None, None)];
    }
  }
}
