/** What the checks of a delegation chain amount to, stated on the chain itself: when it is accepted, and what each
    reported failure says. */
module ChainMeaning {
  import opened Common
  import opened Capabilities
  import opened Attenuation
  import opened Tokens
  import opened DelegationChain

  // ------------------------------------------------------------------ signatures

  /** The delegator of a hop signed its proof, under a key of its own that was valid when it was made. */
  ghost predicate HopSigned(e: Env, ports: Ports, p: DelegationProof) {
    && ports.keys(p.delegator).Some?
    && SignedUnder(e, e.proofBytes(p.(proof := UNSIGNED)), p.proof.value, ports.keys(p.delegator).value,
        p.proof.created)
  }

  ghost predicate TokenSigned(e: Env, ports: Ports, t: Token, did: Did) {
    && ports.keys(did).Some?
    && SignedUnder(e, e.tokenBytes(t.(proof := UNSIGNED)), t.proof.value, ports.keys(did).value, t.issuedAt)
  }

  lemma SignatureMeaning(e: Env, ports: Ports, p: DelegationProof, t: Token, did: Did)
    ensures ProofSigned(e, ports, p) <==> HopSigned(e, ports, p)
    ensures TokenSignedBy(e, ports, t, did) <==> TokenSigned(e, ports, t, did)
  {
    if ports.keys(p.delegator).Some? {
      DualMeaning(e, e.proofBytes(p.(proof := UNSIGNED)), p.proof.value, ports.keys(p.delegator).value,
        p.proof.created);
    }
    if ports.keys(did).Some? {
      DualMeaning(e, e.tokenBytes(t.(proof := UNSIGNED)), t.proof.value, ports.keys(did).value, t.issuedAt);
    }
  }

  // ------------------------------------------------------------------ equal capability lists

  /** The same capability, up to the order in which a meter field spells its keys. */
  predicate SameButSpelling(c: Capability, d: Capability) {
    && c.action == d.action
    && (c.scope == d.scope ||
        (c.scope.Cumulative? && d.scope.Cumulative? &&
         d.scope == c.scope.(meterField := c.scope.meterField.(keyOrder := d.scope.meterField.keyOrder))))
  }

  lemma SpellingMeaning(c: Capability, d: Capability)
    ensures Canonical(c) == Canonical(d) <==> SameButSpelling(c, d)
  {
  }

  predicate Matches(a: seq<Capability>, b: seq<Capability>) {
    |a| == |b| && forall i :: 0 <= i < |a| ==> SameButSpelling(a[i], b[i])
  }

  /** `b` in some order matches `a` one by one. */
  ghost predicate Rearranged(a: seq<Capability>, b: seq<Capability>) {
    exists p :: multiset(p) == multiset(b) && Matches(a, p)
  }

  lemma CanonicalCount(p: seq<Capability>)
    requires p != []
    ensures multiset(CanonicalList(p)) ==
      multiset(CanonicalList(p[..|p| - 1])) + multiset{Canonical(p[|p| - 1])}
  {
    assert CanonicalList(p) == CanonicalList(p[..|p| - 1]) + [Canonical(p[|p| - 1])];
  }

  lemma CancelOne(x: multiset<Capability>, y: multiset<Capability>, c: Capability)
    requires x + multiset{c} == y + multiset{c}
    ensures x == y
  {
    assert x == (x + multiset{c}) - multiset{c} && y == (y + multiset{c}) - multiset{c};
  }

  lemma TakeOut(b: seq<Capability>, j: nat) returns (rest: seq<Capability>)
    requires j < |b|
    ensures multiset(b) == multiset(rest) + multiset{b[j]} && |rest| == |b| - 1
    ensures multiset(CanonicalList(b)) == multiset(CanonicalList(rest)) + multiset{Canonical(b[j])}
  {
    rest := b[..j] + b[j + 1..];
    assert b == b[..j] + [b[j]] + b[j + 1..];
    assert CanonicalList(b) == CanonicalList(b[..j]) + [Canonical(b[j])] + CanonicalList(b[j + 1..]);
    assert CanonicalList(rest) == CanonicalList(b[..j]) + CanonicalList(b[j + 1..]);
  }

  lemma {:induction false} EqualIsRearranged(a: seq<Capability>, b: seq<Capability>)
    requires CapabilitiesEqual(a, b)
    ensures Rearranged(a, b)
    decreases |a|
  {
    if a == [] {
      assert |CanonicalList(b)| == |multiset(CanonicalList(b))| == 0;
      assert multiset(b) == multiset([]) && Matches(a, []);
    } else {
      var n := |a| - 1;
      var j, rest := PartnerOf(a, b);
      EqualIsRearranged(a[..n], rest);
      var p :| multiset(p) == multiset(rest) && Matches(a[..n], p);
      MatchesGrows(a, p, b[j]);
      assert multiset(p + [b[j]]) == multiset(p) + multiset{b[j]};
    }
  }

  /** The last capability of `a` has a partner in `b`, and the others still compare equal. */
  lemma PartnerOf(a: seq<Capability>, b: seq<Capability>) returns (j: nat, rest: seq<Capability>)
    requires a != [] && CapabilitiesEqual(a, b)
    ensures j < |b| && SameButSpelling(a[|a| - 1], b[j])
    ensures multiset(b) == multiset(rest) + multiset{b[j]} && CapabilitiesEqual(a[..|a| - 1], rest)
  {
    var x := a[|a| - 1];
    CanonicalCount(a);
    assert Canonical(x) in multiset(CanonicalList(b));
    j :| 0 <= j < |b| && CanonicalList(b)[j] == Canonical(x);
    rest := TakeOut(b, j);
    CancelOne(multiset(CanonicalList(a[..|a| - 1])), multiset(CanonicalList(rest)), Canonical(x));
    SpellingMeaning(x, b[j]);
  }

  lemma MatchesGrows(a: seq<Capability>, p: seq<Capability>, c: Capability)
    requires a != [] && Matches(a[..|a| - 1], p) && SameButSpelling(a[|a| - 1], c)
    ensures Matches(a, p + [c])
  {
    forall i | 0 <= i < |a| ensures SameButSpelling(a[i], (p + [c])[i]) {
      if i < |a| - 1 { assert a[..|a| - 1][i] == a[i]; }
    }
  }

  lemma {:induction false} PermutedCanonical(p: seq<Capability>, b: seq<Capability>)
    requires multiset(p) == multiset(b)
    ensures multiset(CanonicalList(p)) == multiset(CanonicalList(b))
    decreases |p|
  {
    if p == [] {
      assert |b| == |multiset(b)| == 0;
    } else {
      var n := |p| - 1;
      CanonicalCount(p);
      assert p == p[..n] + [p[n]];
      assert p[n] in multiset(b);
      var j :| 0 <= j < |b| && b[j] == p[n];
      var rest := TakeOut(b, j);
      CancelOne(multiset(p[..n]), multiset(rest), p[n]);
      PermutedCanonical(p[..n], rest);
    }
  }

  /** Two lists compare equal exactly when one is the other in some order, up to the spelling of meter fields. */
  lemma EqualMeaning(a: seq<Capability>, b: seq<Capability>)
    ensures CapabilitiesEqual(a, b) <==> Rearranged(a, b)
  {
    if CapabilitiesEqual(a, b) {
      EqualIsRearranged(a, b);
    } else if Rearranged(a, b) {
      var p :| multiset(p) == multiset(b) && Matches(a, p);
      forall i | 0 <= i < |a| ensures Canonical(a[i]) == Canonical(p[i]) {
        SpellingMeaning(a[i], p[i]);
      }
      assert CanonicalList(a) == CanonicalList(p);
      PermutedCanonical(p, b);
    }
  }

  // ------------------------------------------------------------------ acceptance

  /** The stored parent agrees with the snapshot of hop `i` and with the token at hand; the first one is a token of
      the principal that verifies on its own, every later one was signed by the delegator before. */
  ghost predicate ParentHolds(
    e: Env, ports: Ports, token: Token, chain: seq<DelegationProof>, i: nat, t: Token, now: int)
    requires i < |chain|
  {
    && t.id == chain[i].parentTokenId && t.issuedTo == chain[i].delegator && t.expiresAt == chain[i].parentExpiresAt
    && t.issuer == token.issuer && t.principal == token.principal
    && CapabilitiesEqual(chain[i].parentCapabilities, t.capabilities)
    && (i == 0 ==> ChainOf(t) == [] && VerifyCapabilityToken(e, t, now, None) == Valid)
    && (i > 0 ==> TokenSigned(e, ports, t, chain[i - 1].delegator))
  }

  /** Hop `i` narrows its parent, continues its neighbours, and its parent is live, not revoked and outlives the
      leaf. */
  predicate LinkHolds(ports: Ports, token: Token, chain: seq<DelegationProof>, i: nat, now: int)
    requires i < |chain|
  {
    && Attenuates(chain[i].parentCapabilities, chain[i].attenuated)
    && (i + 1 < |chain| ==> CapabilitiesEqual(chain[i].attenuated, chain[i + 1].parentCapabilities))
    && (i > 0 ==> chain[i].delegator == chain[i - 1].delegatee)
    && !ports.isRevoked(chain[i].parentTokenId)
    && token.expiresAt <= chain[i].parentExpiresAt && now < chain[i].parentExpiresAt
  }

  ghost predicate HopHolds(e: Env, ports: Ports, token: Token, chain: seq<DelegationProof>, i: nat, now: int)
    requires i < |chain|
  {
    var t := ports.resolveToken(chain[i].parentTokenId);
    && HopSigned(e, ports, chain[i]) && t.Some? && ParentHolds(e, ports, token, chain, i, t.value, now)
    && LinkHolds(ports, token, chain, i, now)
  }

  /** The leaf is held by the last delegatee with exactly what it was given, and signed by the last delegator; every
      proof names its delegator as signer. */
  ghost predicate LeafHolds(e: Env, ports: Ports, token: Token, chain: seq<DelegationProof>)
    requires chain != []
  {
    var last := chain[|chain| - 1];
    && token.issuer == token.principal && token.issuedTo == last.delegatee
    && CapabilitiesEqual(token.capabilities, last.attenuated)
    && token.proof.signer == last.delegator && TokenSigned(e, ports, token, last.delegator)
    && forall k :: 0 <= k < |chain| ==> chain[k].proof.signer == chain[k].delegator
  }

  /** No agent holds the token twice. */
  predicate NoCycle(chain: seq<DelegationProof>) {
    && (forall i :: 0 <= i < |chain| ==> chain[i].delegatee != chain[0].delegator)
    && forall i, j :: 0 <= i < j < |chain| ==> chain[i].delegatee != chain[j].delegatee
  }

  lemma CycleMeaning(chain: seq<DelegationProof>)
    requires chain != []
    ensures Distinct(Holders(chain)) <==> NoCycle(chain)
  {
    var h := Holders(chain);
    assert h[0] == chain[0].delegator && forall i :: 0 <= i < |chain| ==> h[i + 1] == chain[i].delegatee;
    if NoCycle(chain) {
      forall i, j | 0 <= i < j < |h| ensures h[i] != h[j] {
        assert h[j] == chain[j - 1].delegatee && (i > 0 ==> h[i] == chain[i - 1].delegatee);
      }
    }
    if Distinct(h) {
      forall i | 0 <= i < |chain| ensures chain[i].delegatee != chain[0].delegator {
        assert h[0] != h[i + 1];
      }
      forall i, j | 0 <= i < j < |chain| ensures chain[i].delegatee != chain[j].delegatee {
        assert h[i + 1] != h[j + 1];
      }
    }
  }

  lemma HopMeaning(e: Env, ports: Ports, token: Token, chain: seq<DelegationProof>, i: nat, now: int)
    requires i < |chain|
    ensures HopFailure(e, ports, token, chain, i, now).None? <==> HopHolds(e, ports, token, chain, i, now)
  {
    var parent := ports.resolveToken(chain[i].parentTokenId);
    SignatureMeaning(e, ports, chain[i], if parent.Some? then parent.value else token,
      if i > 0 then chain[i - 1].delegator else chain[i].delegator);
    if parent.Some? { ParentMeaning(e, ports, token, chain, i, parent.value, now); }
    LinkMeaning(ports, token, chain, i, now);
  }

  lemma ParentMeaning(e: Env, ports: Ports, token: Token, chain: seq<DelegationProof>, i: nat, t: Token, now: int)
    requires i < |chain|
    ensures ParentFailure(e, ports, token, chain, i, t, now).None? <==>
      ParentHolds(e, ports, token, chain, i, t, now)
  {
    if i > 0 { SignatureMeaning(e, ports, chain[i], t, chain[i - 1].delegator); }
  }

  lemma LinkMeaning(ports: Ports, token: Token, chain: seq<DelegationProof>, i: nat, now: int)
    requires i < |chain|
    ensures LinkFailure(ports, token, chain, i, now).None? <==> LinkHolds(ports, token, chain, i, now)
  {
  }

  lemma LeafMeaning(e: Env, ports: Ports, token: Token, chain: seq<DelegationProof>)
    requires chain != []
    ensures LeafPasses(e, ports, token, chain) <==> LeafHolds(e, ports, token, chain)
  {
    SignatureMeaning(e, ports, chain[0], token, chain[|chain| - 1].delegator);
  }

  /** A non-empty chain is accepted exactly when the token has the schema and a version after 0.1.0, the chain is at
      most five long and without a cycle, and every hop and the leaf hold. */
  lemma AcceptanceMeaning(e: Env, ports: Ports, token: Token, now: int)
    ensures ChainAccepted(e, ports, token, now) <==> (
      var chain := ChainOf(token);
      && 1 <= |chain| <= 5 && e.schemaOk(token) && token.specVersion != "0.1.0" && NoCycle(chain)
      && (forall i: nat :: i < |chain| ==> HopHolds(e, ports, token, chain, i, now))
      && LeafHolds(e, ports, token, chain))
  {
    var chain := ChainOf(token);
    if chain != [] {
      CycleMeaning(chain);
      LeafMeaning(e, ports, token, chain);
      forall i: nat | i < |chain|
        ensures HopFailure(e, ports, token, chain, i, now).None? <==> HopHolds(e, ports, token, chain, i, now)
      {
        HopMeaning(e, ports, token, chain, i, now);
      }
    }
  }

  /** The stored token behind hop `i` is signed by the delegator of the hop before. */
  ghost predicate ParentSigned(e: Env, ports: Ports, chain: seq<DelegationProof>, i: nat)
    requires 0 < i < |chain|
  {
    var t := ports.resolveToken(chain[i].parentTokenId);
    t.Some? && TokenSigned(e, ports, t.value, chain[i - 1].delegator)
  }

  /** In particular nothing in an accepted chain is unsigned: every hop by its delegator, every parent between by the
      delegator before it, the leaf by the last. */
  lemma SignedThroughout(e: Env, ports: Ports, token: Token, now: int)
    requires ChainAccepted(e, ports, token, now)
    ensures var chain := ChainOf(token);
            && (forall i: nat :: i < |chain| ==> HopSigned(e, ports, chain[i]))
            && (forall i: nat :: 0 < i < |chain| ==> ParentSigned(e, ports, chain, i))
            && chain != [] && TokenSigned(e, ports, token, chain[|chain| - 1].delegator)
  {
    var chain := ChainOf(token);
    LeafMeaning(e, ports, token, chain);
    forall i: nat | i < |chain|
      ensures HopSigned(e, ports, chain[i])
      ensures i > 0 ==> ParentSigned(e, ports, chain, i)
    {
      assert HopFailure(e, ports, token, chain, i, now).None?;
      HopMeaning(e, ports, token, chain, i, now);
    }
  }

  // ------------------------------------------------------------------ reported failures

  /** What a failure reported for hop `i` says. */
  ghost predicate HopReport(
    e: Env, ports: Ports, token: Token, chain: seq<DelegationProof>, i: nat, now: int, f: Failure)
    requires i < |chain|
  {
    var p, parent := chain[i], ports.resolveToken(chain[i].parentTokenId);
    match f.reason
    case SIGNATURE_INVALID =>
      f.brokenAt == Some(i) && (!HopSigned(e, ports, p) || (parent.Some? && !ParentProven(e, ports, chain, i,
        parent.value, now)))
    case PARENT_TOKEN_NOT_FOUND => f.brokenAt == Some(i) && parent.None?
    case DELEGATOR_MISMATCH =>
      f.brokenAt == Some(i) && ((parent.Some? && p.delegator != parent.value.issuedTo) ||
        (i > 0 && p.delegator != chain[i - 1].delegatee))
    case ROOT_NOT_PRINCIPAL =>
      f.brokenAt == Some(i) && parent.Some? && (parent.value.issuer != token.issuer ||
        parent.value.principal != token.principal || (i == 0 && ChainOf(parent.value) != []))
    case DELEGATION_CHAIN_INVALID =>
      || (f.brokenAt == Some(i) && parent.Some? && !Snapshot(p, parent.value))
      || (f.brokenAt == Some(i + 1) && i + 1 < |chain| &&
          !CapabilitiesEqual(p.attenuated, chain[i + 1].parentCapabilities))
    case ATTENUATION_VIOLATED => f.brokenAt == Some(i) && !Attenuates(p.parentCapabilities, p.attenuated)
    case PARENT_TOKEN_REVOKED => f.brokenAt == Some(i) && ports.isRevoked(p.parentTokenId)
    case EXPIRY_EXCEEDED =>
      f.brokenAt == Some(i) && (token.expiresAt > p.parentExpiresAt || p.parentExpiresAt <= now)
    case _ => false
  }

  ghost predicate ParentProven(e: Env, ports: Ports, chain: seq<DelegationProof>, i: nat, t: Token, now: int)
    requires i < |chain|
  {
    if i == 0 then VerifyCapabilityToken(e, t, now, None) == Valid else TokenSigned(e, ports, t, chain[i - 1].delegator)
  }

  predicate Snapshot(p: DelegationProof, t: Token) {
    && CapabilitiesEqual(p.parentCapabilities, t.capabilities) && p.parentExpiresAt == t.expiresAt
    && p.parentTokenId == t.id
  }

  lemma HopReportMeaning(
    e: Env, ports: Ports, token: Token, chain: seq<DelegationProof>, i: nat, now: int, f: Failure)
    requires i < |chain| && HopFailure(e, ports, token, chain, i, now) == Some(f)
    ensures HopReport(e, ports, token, chain, i, now, f)
  {
    var parent := ports.resolveToken(chain[i].parentTokenId);
    SignatureMeaning(e, ports, chain[i], if parent.Some? then parent.value else token,
      if i > 0 then chain[i - 1].delegator else chain[i].delegator);
  }

  /** What a failure of the leaf checks says. */
  predicate LeafFailureReport(token: Token, chain: seq<DelegationProof>, f: Failure)
    requires chain != []
  {
    var last := chain[|chain| - 1];
    match f.reason
    case ROOT_NOT_PRINCIPAL => f.brokenAt == None && token.issuer != token.principal
    case DELEGATOR_MISMATCH => f.brokenAt == None && token.issuedTo != last.delegatee
    case DELEGATION_CHAIN_INVALID => f.brokenAt == None && !CapabilitiesEqual(token.capabilities, last.attenuated)
    case SIGNATURE_INVALID => f.brokenAt == Some(|chain| - 1) && token.proof.signer != last.delegator
    case _ => false
  }

  /** Every failure that validation reports is true of the chain. */
  ghost predicate TrueReport(
    e: Env, ports: Ports, token: Token, now: int, resolves: bool, checksRevocation: bool, f: Failure)
  {
    var chain := ChainOf(token);
    match f
    case Failure(INVALID_TOKEN_FORMAT, at) =>
      at == None && (!e.schemaOk(token) || token.specVersion == "0.1.0" || !resolves || !checksRevocation)
    case Failure(DEPTH_EXCEEDED, at) => at == None && |chain| > 5
    case Failure(CYCLE_DETECTED, at) => at == None && !NoCycle(chain)
    case _ =>
      || (exists i: nat :: i < |chain| && HopReport(e, ports, token, chain, i, now, f))
      || (chain != [] && (LeafFailureReport(token, chain, f) || SignerReport(e, ports, token, chain, f)))
  }

  /** A proof that names another signer, or a leaf that the last delegator did not sign. */
  ghost predicate SignerReport(e: Env, ports: Ports, token: Token, chain: seq<DelegationProof>, f: Failure)
    requires chain != []
  {
    && f.reason == SIGNATURE_INVALID && f.brokenAt.Some? && f.brokenAt.value < |chain|
    && (chain[f.brokenAt.value].proof.signer != chain[f.brokenAt.value].delegator ||
        (f.brokenAt.value == |chain| - 1 && !TokenSigned(e, ports, token, chain[|chain| - 1].delegator)))
  }

  lemma ReportMeaning(
    e: Env, ports: Ports, token: Token, now: int, resolves: bool, checksRevocation: bool, f: Failure)
    requires Diagnosed(e, ports, token, now, resolves, checksRevocation, f)
    requires !(resolves && checksRevocation && ChainAccepted(e, ports, token, now))
    ensures TrueReport(e, ports, token, now, resolves, checksRevocation, f)
  {
    var chain := ChainOf(token);
    var gate := Gate(e, token, chain, resolves, checksRevocation);
    CycleMeaning(chain);
    if gate.None? && Distinct(Holders(chain)) {
      if HopDiagnosed(e, ports, token, now, f) {
        var i: nat :| i < |chain| && FirstBroken(e, ports, token, i, now, f);
        HopReportMeaning(e, ports, token, chain, i, now, f);
      } else {
        LeafReportMeaning(e, ports, token, chain, f);
      }
    }
  }

  lemma LeafReportMeaning(e: Env, ports: Ports, token: Token, chain: seq<DelegationProof>, f: Failure)
    requires chain != [] && LeafReport(e, ports, token, chain, f) && !LeafPasses(e, ports, token, chain)
    ensures LeafFailureReport(token, chain, f) || SignerReport(e, ports, token, chain, f)
  {
    SignatureMeaning(e, ports, chain[0], token, chain[|chain| - 1].delegator);
  }
}
