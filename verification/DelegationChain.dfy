/** Validation of a delegation chain, its soundness, and its agreement with the issuer. */
module DelegationChain {
  import opened Common
  import opened Capabilities
  import opened Attenuation
  import opened Tokens

  // ------------------------------------------------------------------ equality of capability lists

  /** Canonical JSON sorts object keys, so it forgets how a meter field spelled its own. */
  function CanonicalScope(s: Scope): Scope {
    if s.Cumulative? then s.(meterField := CanonicalMeter(s.meterField)) else s
  }

  function Canonical(c: Capability): Capability {
    Capability(c.action, CanonicalScope(c.scope))
  }

  function CanonicalList(caps: seq<Capability>): seq<Capability> {
    seq(|caps|, i requires 0 <= i < |caps| => Canonical(caps[i]))
  }

  /** Equal up to order and to key order inside. */
  predicate CapabilitiesEqual(a: seq<Capability>, b: seq<Capability>) {
    multiset(CanonicalList(a)) == multiset(CanonicalList(b))
  }

  lemma EqualMember(a: seq<Capability>, b: seq<Capability>, c: Capability) returns (d: Capability)
    requires CapabilitiesEqual(a, b) && c in a
    ensures d in b && Canonical(d) == Canonical(c)
  {
    var i :| 0 <= i < |a| && a[i] == c;
    assert CanonicalList(a)[i] == Canonical(c);
    assert Canonical(c) in multiset(CanonicalList(a));
    assert Canonical(c) in CanonicalList(b);
    var j :| 0 <= j < |b| && CanonicalList(b)[j] == Canonical(c);
    d := b[j];
  }

  /** Equal lists have the same meaning, for either reading. */
  lemma EqualPermits(a: seq<Capability>, b: seq<Capability>, action: string, params: Params, ctx: Context)
    requires CapabilitiesEqual(a, b)
    ensures PermitsLight(a, action, params) ==> PermitsLight(b, action, params)
    ensures Permits(a, action, params, ctx) ==> Permits(b, action, params, ctx)
  {
    if HasAction(a, action) {
      var c :| c in a && c.action == action;
      var d := EqualMember(a, b, c);
      assert HasAction(b, action);
    }
    forall d | d in b && d.action == action
      ensures exists c :: c in a && c.action == action && SameUse(c.scope, d.scope, params, ctx)
    {
      var c := EqualMember(b, a, d);
      SameReading(c.scope, d.scope, params, ctx);
    }
  }

  predicate SameUse(c: Scope, d: Scope, params: Params, ctx: Context) {
    && PassesLight(c, params) == PassesLight(d, params)
    && Evaluates(c, params, ctx) == Evaluates(d, params, ctx)
  }

  lemma SameReading(c: Scope, d: Scope, params: Params, ctx: Context)
    requires CanonicalScope(c) == CanonicalScope(d)
    ensures SameUse(c, d, params, ctx)
  {
  }

  // ------------------------------------------------------------------ the checks

  datatype Reason =
    | INVALID_TOKEN_FORMAT | DEPTH_EXCEEDED | CYCLE_DETECTED | SIGNATURE_INVALID | PARENT_TOKEN_NOT_FOUND
    | DELEGATOR_MISMATCH | ROOT_NOT_PRINCIPAL | DELEGATION_CHAIN_INVALID | ATTENUATION_VIOLATED
    | PARENT_TOKEN_REVOKED | EXPIRY_EXCEEDED

  datatype Failure = Failure(reason: Reason, brokenAt: Option<nat>)

  datatype Ports = Ports(
    keys: Did -> Option<ResolvedKeys>, isRevoked: string -> bool, resolveToken: string -> Option<Token>)

  /** The signature over a delegation proof, under the delegator's keys. */
  predicate ProofSigned(e: Env, ports: Ports, p: DelegationProof) {
    && ports.keys(p.delegator).Some?
    && VerifyDual(e, e.proofBytes(ProofPayload(p)), p.proof.value, ports.keys(p.delegator).value, p.proof.created)
  }

  predicate TokenSignedBy(e: Env, ports: Ports, t: Token, did: Did) {
    && ports.keys(did).Some?
    && VerifyDual(e, e.tokenBytes(TokenPayload(t)), t.proof.value, ports.keys(did).value, t.issuedAt)
  }

  /** The parent token of a hop, against the snapshot in the proof and against the token at hand. */
  function ParentFailure(
    e: Env, ports: Ports, token: Token, chain: seq<DelegationProof>, i: nat, parent: Token, now: int): Option<Failure>
    requires i < |chain|
  {
    var p := chain[i];
    if p.delegator != parent.issuedTo then Some(Failure(DELEGATOR_MISMATCH, Some(i)))
    else if parent.issuer != token.issuer || parent.principal != token.principal then
      Some(Failure(ROOT_NOT_PRINCIPAL, Some(i)))
    else if !CapabilitiesEqual(p.parentCapabilities, parent.capabilities) then
      Some(Failure(DELEGATION_CHAIN_INVALID, Some(i)))
    else if p.parentExpiresAt != parent.expiresAt then Some(Failure(DELEGATION_CHAIN_INVALID, Some(i)))
    else if parent.id != p.parentTokenId then Some(Failure(DELEGATION_CHAIN_INVALID, Some(i)))
    else if i == 0 then
      if ChainOf(parent) != [] then Some(Failure(ROOT_NOT_PRINCIPAL, Some(0)))
      else if VerifyCapabilityToken(e, parent, now, None) != Valid then Some(Failure(SIGNATURE_INVALID, Some(0)))
      else None
    else if !TokenSignedBy(e, ports, parent, chain[i - 1].delegator) then Some(Failure(SIGNATURE_INVALID, Some(i)))
    else None
  }

  function LinkFailure(ports: Ports, token: Token, chain: seq<DelegationProof>, i: nat, now: int): Option<Failure>
    requires i < |chain|
  {
    var p := chain[i];
    if !Attenuates(p.parentCapabilities, p.attenuated) then Some(Failure(ATTENUATION_VIOLATED, Some(i)))
    else if i + 1 < |chain| && !CapabilitiesEqual(p.attenuated, chain[i + 1].parentCapabilities) then
      Some(Failure(DELEGATION_CHAIN_INVALID, Some(i + 1)))
    else if ports.isRevoked(p.parentTokenId) then Some(Failure(PARENT_TOKEN_REVOKED, Some(i)))
    else if token.expiresAt > p.parentExpiresAt || p.parentExpiresAt <= now then Some(Failure(EXPIRY_EXCEEDED, Some(i)))
    else if i > 0 && p.delegator != chain[i - 1].delegatee then Some(Failure(DELEGATOR_MISMATCH, Some(i)))
    else None
  }

  /** The first check that hop `i` fails. */
  function HopFailure(
    e: Env, ports: Ports, token: Token, chain: seq<DelegationProof>, i: nat, now: int): Option<Failure>
    requires i < |chain|
  {
    if !ProofSigned(e, ports, chain[i]) then Some(Failure(SIGNATURE_INVALID, Some(i)))
    else match ports.resolveToken(chain[i].parentTokenId)
      case None => Some(Failure(PARENT_TOKEN_NOT_FOUND, Some(i)))
      case Some(parent) =>
        var f := ParentFailure(e, ports, token, chain, i, parent, now);
        if f.Some? then f else LinkFailure(ports, token, chain, i, now)
  }

  /** The checks on the leaf, once every hop has passed. */
  function LeafFailure(token: Token, chain: seq<DelegationProof>): Option<Failure>
    requires chain != []
  {
    var last := |chain| - 1;
    if token.issuer != token.principal then Some(Failure(ROOT_NOT_PRINCIPAL, None))
    else if chain[last].delegatee != token.issuedTo then Some(Failure(DELEGATOR_MISMATCH, None))
    else if !CapabilitiesEqual(token.capabilities, chain[last].attenuated) then
      Some(Failure(DELEGATION_CHAIN_INVALID, None))
    else if token.proof.signer != chain[last].delegator then Some(Failure(SIGNATURE_INVALID, Some(last)))
    else None
  }

  /** Every holder along the chain, root first. */
  function Holders(chain: seq<DelegationProof>): seq<Did>
    requires chain != []
  {
    [chain[0].delegator] + seq(|chain|, i requires 0 <= i < |chain| => chain[i].delegatee)
  }

  predicate Distinct(dids: seq<Did>) {
    forall i, j :: 0 <= i < j < |dids| ==> dids[i] != dids[j]
  }

  function Gate(
    e: Env, token: Token, chain: seq<DelegationProof>, resolves: bool, checksRevocation: bool): Option<Failure>
  {
    if !e.schemaOk(token) || token.specVersion == SPEC_VERSION || !resolves || !checksRevocation then
      Some(Failure(INVALID_TOKEN_FORMAT, None))
    else if |chain| > MAX_DELEGATION_DEPTH then Some(Failure(DEPTH_EXCEEDED, None))
    else None
  }

  predicate ProofsNameSigners(chain: seq<DelegationProof>) {
    forall k :: 0 <= k < |chain| ==> chain[k].proof.signer == chain[k].delegator
  }

  /** What a validated chain satisfies. */
  predicate ChainAccepted(e: Env, ports: Ports, token: Token, now: int) {
    var chain := ChainOf(token);
    && chain != [] && Gate(e, token, chain, true, true).None? && Distinct(Holders(chain))
    && (forall i: nat :: i < |chain| ==> HopFailure(e, ports, token, chain, i, now).None?)
    && LeafPasses(e, ports, token, chain)
  }

  // ------------------------------------------------------------------ the procedure

  datatype Validation = ValidChain(depth: nat) | InvalidChain(depth: nat, failure: Failure)

  method FindCycle(chain: seq<DelegationProof>) returns (cycle: bool)
    requires chain != []
    ensures cycle <==> !Distinct(Holders(chain))
  {
    var seen := {chain[0].delegator};
    ghost var holders := Holders(chain);
    assert holders[0] == chain[0].delegator;
    for n := 0 to |chain|
      invariant forall i, j :: 0 <= i < j <= n ==> holders[i] != holders[j]
      invariant forall i :: 0 <= i <= n ==> holders[i] in seen
      invariant forall d :: d in seen ==> exists i :: 0 <= i <= n && holders[i] == d
    {
      assert holders[n + 1] == chain[n].delegatee;
      if chain[n].delegatee in seen { return true; }
      seen := seen + {chain[n].delegatee};
    }
    cycle := false;
  }

  method CheckHop(e: Env, ports: Ports, token: Token, chain: seq<DelegationProof>, i: nat, now: int)
    returns (f: Option<Failure>)
    requires i < |chain|
    ensures f == HopFailure(e, ports, token, chain, i, now)
  {
    if !ProofSigned(e, ports, chain[i]) { return Some(Failure(SIGNATURE_INVALID, Some(i))); }
    var parent := ports.resolveToken(chain[i].parentTokenId);
    if parent.None? { return Some(Failure(PARENT_TOKEN_NOT_FOUND, Some(i))); }
    f := ParentFailure(e, ports, token, chain, i, parent.value, now);
    if f.Some? { return; }
    var a := ValidateAttenuation(chain[i].parentCapabilities, chain[i].attenuated,
      Some(Versions(parent.value.specVersion, token.specVersion)));
    if a.Rejected? { return Some(Failure(ATTENUATION_VIOLATED, Some(i))); }
    f := LinkFailure(ports, token, chain, i, now);
  }

  method CheckHops(e: Env, ports: Ports, token: Token, chain: seq<DelegationProof>, now: int)
    returns (f: Option<Failure>, at: nat)
    ensures f.None? ==> forall i: nat :: i < |chain| ==> HopFailure(e, ports, token, chain, i, now).None?
    ensures f.Some? ==> at < |chain| && f == HopFailure(e, ports, token, chain, at, now)
    ensures f.Some? ==> forall i: nat :: i < at ==> HopFailure(e, ports, token, chain, i, now).None?
  {
    at := 0;
    while at < |chain|
      invariant at <= |chain|
      invariant forall i: nat :: i < at ==> HopFailure(e, ports, token, chain, i, now).None?
    {
      f := CheckHop(e, ports, token, chain, at, now);
      if f.Some? { return; }
      at := at + 1;
    }
    f := None;
  }

  /** The first hop whose proof names a signer other than its delegator. */
  predicate FirstWrongSigner(chain: seq<DelegationProof>, k: nat) {
    k < |chain| && chain[k].proof.signer != chain[k].delegator && ProofsNameSigners(chain[..k])
  }

  method CheckSigners(chain: seq<DelegationProof>) returns (bad: Option<nat>)
    ensures bad.None? <==> ProofsNameSigners(chain)
    ensures bad.Some? ==> FirstWrongSigner(chain, bad.value)
  {
    for k := 0 to |chain|
      invariant ProofsNameSigners(chain[..k])
    {
      if chain[k].proof.signer != chain[k].delegator { return Some(k); }
    }
    bad := None;
  }

  /** The failure of the leaf: a failing check in order, else a wrong signer, else the leaf's own signature. */
  predicate LeafReport(e: Env, ports: Ports, token: Token, chain: seq<DelegationProof>, f: Failure)
    requires chain != []
  {
    if LeafFailure(token, chain).Some? then Some(f) == LeafFailure(token, chain)
    else if ProofsNameSigners(chain) then f == Failure(SIGNATURE_INVALID, Some(|chain| - 1))
    else f.reason == SIGNATURE_INVALID && f.brokenAt.Some? && FirstWrongSigner(chain, f.brokenAt.value)
  }

  method CheckLeaf(e: Env, ports: Ports, token: Token, chain: seq<DelegationProof>) returns (f: Option<Failure>)
    requires chain != []
    ensures f.None? <==> LeafPasses(e, ports, token, chain)
    ensures f.Some? ==> LeafReport(e, ports, token, chain, f.value)
  {
    f := LeafFailure(token, chain);
    if f.Some? { return; }
    var bad := CheckSigners(chain);
    if bad.Some? { return Some(Failure(SIGNATURE_INVALID, bad)); }
    if !TokenSignedBy(e, ports, token, chain[|chain| - 1].delegator) {
      return Some(Failure(SIGNATURE_INVALID, Some(|chain| - 1)));
    }
  }

  predicate LeafPasses(e: Env, ports: Ports, token: Token, chain: seq<DelegationProof>)
    requires chain != []
  {
    && LeafFailure(token, chain).None? && ProofsNameSigners(chain)
    && TokenSignedBy(e, ports, token, chain[|chain| - 1].delegator)
  }

  /** Valid for an empty chain; otherwise valid exactly when accepted, and a failure is diagnosed. `resolves`
      and `checksRevocation` say whether the caller passed those two ports. */
  method ValidateDelegationChain(e: Env, ports: Ports, token: Token, now: int, resolves: bool, checksRevocation: bool)
    returns (r: Validation)
    ensures r.depth == |ChainOf(token)|
    ensures ChainOf(token) == [] ==> r.ValidChain?
    ensures ChainOf(token) != [] ==>
      (r.ValidChain? <==> resolves && checksRevocation && ChainAccepted(e, ports, token, now))
    ensures r.InvalidChain? ==> Diagnosed(e, ports, token, now, resolves, checksRevocation, r.failure)
  {
    var chain := ChainOf(token);
    var depth := |chain|;
    if chain == [] { return ValidChain(0); }
    var gate := Gate(e, token, chain, resolves, checksRevocation);
    if gate.Some? { return InvalidChain(depth, gate.value); }
    var cycle := FindCycle(chain);
    if cycle { return InvalidChain(depth, Failure(CYCLE_DETECTED, None)); }
    var f, at := CheckHops(e, ports, token, chain, now);
    if f.Some? {
      assert FirstBroken(e, ports, token, at, now, f.value);
      return InvalidChain(depth, f.value);
    }
    f := CheckLeaf(e, ports, token, chain);
    if f.Some? {
      assert LeafDiagnosed(e, ports, token, now, f.value);
      return InvalidChain(depth, f.value);
    }
    r := ValidChain(depth);
  }

  /** The failure reported is the first in the order of the checks. */
  predicate Diagnosed(
    e: Env, ports: Ports, token: Token, now: int, resolves: bool, checksRevocation: bool, f: Failure)
  {
    var chain := ChainOf(token);
    chain != [] &&
    var gate := Gate(e, token, chain, resolves, checksRevocation);
    if gate.Some? then f == gate.value
    else if !Distinct(Holders(chain)) then f == Failure(CYCLE_DETECTED, None)
    else HopDiagnosed(e, ports, token, now, f) || LeafDiagnosed(e, ports, token, now, f)
  }

  predicate HopDiagnosed(e: Env, ports: Ports, token: Token, now: int, f: Failure) {
    exists i: nat :: i < |ChainOf(token)| && FirstBroken(e, ports, token, i, now, f)
  }

  predicate LeafDiagnosed(e: Env, ports: Ports, token: Token, now: int, f: Failure) {
    var chain := ChainOf(token);
    && chain != [] && (forall j: nat :: j < |chain| ==> HopFailure(e, ports, token, chain, j, now).None?)
    && LeafReport(e, ports, token, chain, f)
  }

  predicate FirstBroken(e: Env, ports: Ports, token: Token, i: nat, now: int, f: Failure) {
    var chain := ChainOf(token);
    i < |chain| && HopFailure(e, ports, token, chain, i, now) == Some(f) && forall j: nat :: j < i ==>
      HopFailure(e, ports, token, chain, j, now).None?
  }
}
