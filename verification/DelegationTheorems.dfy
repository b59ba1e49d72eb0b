/** What an accepted chain means, and that every honestly grown chain is accepted. */
module DelegationTheorems {
  import opened Common
  import opened Capabilities
  import opened Attenuation
  import opened Tokens
  import opened DelegationChain
  import opened ChainMeaning

  // ------------------------------------------------------------------ soundness

  /** Each hop narrows its parent, and neighbouring snapshots agree up to the leaf. */
  predicate Descends(token: Token, chain: seq<DelegationProof>) {
    && chain != []
    && (forall i :: 0 <= i < |chain| ==> Attenuates(chain[i].parentCapabilities, chain[i].attenuated))
    && (forall i :: 0 < i < |chain| ==> CapabilitiesEqual(chain[i].parentCapabilities, chain[i - 1].attenuated))
    && CapabilitiesEqual(token.capabilities, chain[|chain| - 1].attenuated)
  }

  lemma HopLinks(e: Env, ports: Ports, token: Token, chain: seq<DelegationProof>, i: nat, now: int)
    requires i < |chain| && HopFailure(e, ports, token, chain, i, now).None?
    ensures Attenuates(chain[i].parentCapabilities, chain[i].attenuated)
    ensures i + 1 < |chain| ==> CapabilitiesEqual(chain[i].attenuated, chain[i + 1].parentCapabilities)
  {
  }

  lemma AcceptedHop(e: Env, ports: Ports, token: Token, now: int, i: nat)
    requires ChainAccepted(e, ports, token, now) && i < |ChainOf(token)|
    ensures HopFailure(e, ports, token, ChainOf(token), i, now).None?
  {
  }

  lemma AcceptedLeaf(e: Env, ports: Ports, token: Token, now: int)
    requires ChainAccepted(e, ports, token, now)
    ensures var chain := ChainOf(token);
            chain != [] && CapabilitiesEqual(token.capabilities, chain[|chain| - 1].attenuated)
  {
  }

  lemma AcceptedDescends(e: Env, ports: Ports, token: Token, now: int)
    requires ChainAccepted(e, ports, token, now)
    ensures Descends(token, ChainOf(token))
  {
    var chain := ChainOf(token);
    AcceptedLeaf(e, ports, token, now);
    forall i | 0 <= i < |chain| ensures Attenuates(chain[i].parentCapabilities, chain[i].attenuated) {
      AcceptedHop(e, ports, token, now, i);
      HopLinks(e, ports, token, chain, i, now);
    }
    forall i | 0 < i < |chain| ensures CapabilitiesEqual(chain[i].parentCapabilities, chain[i - 1].attenuated) {
      AcceptedHop(e, ports, token, now, i - 1);
      HopLinks(e, ports, token, chain, i - 1, now);
    }
  }

  /** What the leaf permits, the parent snapshot of every hop permits. */
  lemma {:induction false} AuthorityAscends(
    token: Token, chain: seq<DelegationProof>, i: nat, action: string, params: Params)
    requires Descends(token, chain) && i < |chain| && PermitsLight(token.capabilities, action, params)
    ensures PermitsLight(chain[i].parentCapabilities, action, params)
    decreases |chain| - i
  {
    if i == |chain| - 1 {
      EqualPermits(token.capabilities, chain[i].attenuated, action, params, NOWHERE);
    } else {
      AuthorityAscends(token, chain, i + 1, action, params);
      assert CapabilitiesEqual(chain[i + 1].parentCapabilities, chain[i + 1 - 1].attenuated);
      EqualPermits(chain[i + 1].parentCapabilities, chain[i].attenuated, action, params, NOWHERE);
    }
    AttenuationContainsLight(chain[i].parentCapabilities, chain[i].attenuated, action, params);
  }

  const NOWHERE := Context(0, (tz: string) => None, None, (kind: string) => false)

  /** The token behind hop `i` is held by the hop's delegator, outlives the leaf, is live and not revoked. */
  predicate Ancestor(ports: Ports, token: Token, i: nat, now: int) {
    var chain := ChainOf(token);
    i < |chain| &&
    match ports.resolveToken(chain[i].parentTokenId)
    case None => false
    case Some(t) =>
      && t.id == chain[i].parentTokenId && !ports.isRevoked(t.id)
      && t.issuedTo == Holders(chain)[i] && t.principal == token.principal
      && token.expiresAt <= t.expiresAt && now < t.expiresAt
      && CapabilitiesEqual(chain[i].parentCapabilities, t.capabilities)
  }

  lemma HopParts(e: Env, ports: Ports, token: Token, chain: seq<DelegationProof>, i: nat, now: int)
    requires i < |chain| && HopFailure(e, ports, token, chain, i, now).None?
    ensures var t := ports.resolveToken(chain[i].parentTokenId);
            && t.Some? && ParentFailure(e, ports, token, chain, i, t.value, now).None?
            && LinkFailure(ports, token, chain, i, now).None?
  {
  }

  lemma ParentFacts(e: Env, ports: Ports, token: Token, chain: seq<DelegationProof>, i: nat, t: Token, now: int)
    requires i < |chain| && ParentFailure(e, ports, token, chain, i, t, now).None?
    ensures t.issuedTo == chain[i].delegator && t.principal == token.principal && t.id == chain[i].parentTokenId
    ensures t.expiresAt == chain[i].parentExpiresAt && CapabilitiesEqual(chain[i].parentCapabilities, t.capabilities)
  {
  }

  lemma LinkFacts(ports: Ports, token: Token, chain: seq<DelegationProof>, i: nat, now: int)
    requires i < |chain| && LinkFailure(ports, token, chain, i, now).None?
    ensures !ports.isRevoked(chain[i].parentTokenId) && token.expiresAt <= chain[i].parentExpiresAt
    ensures now < chain[i].parentExpiresAt
    ensures Holders(chain)[i] == chain[i].delegator
  {
  }

  lemma AncestorOfHop(e: Env, ports: Ports, token: Token, i: nat, now: int)
    requires ChainAccepted(e, ports, token, now) && i < |ChainOf(token)|
    ensures Ancestor(ports, token, i, now)
  {
    var chain := ChainOf(token);
    HopParts(e, ports, token, chain, i, now);
    ParentFacts(e, ports, token, chain, i, ports.resolveToken(chain[i].parentTokenId).value, now);
    LinkFacts(ports, token, chain, i, now);
  }

  function RootOf(ports: Ports, token: Token): Option<Token> {
    if ChainOf(token) == [] then None else ports.resolveToken(ChainOf(token)[0].parentTokenId)
  }

  lemma RootIsPrincipalSigned(e: Env, ports: Ports, token: Token, now: int)
    requires ChainAccepted(e, ports, token, now)
    ensures RootOf(ports, token).Some?
    ensures var root := RootOf(ports, token).value;
            ChainOf(root) == [] && root.issuer == token.principal && SignedByIssuer(e, root)
  {
    var chain := ChainOf(token);
    assert HopFailure(e, ports, token, chain, 0, now).None?;
    var root := ports.resolveToken(chain[0].parentTokenId).value;
    assert ParentFailure(e, ports, token, chain, 0, root, now).None?;
  }

  /** Soundness. The root is signed by the principal's own key, every hop by its delegator, every token between
      and the leaf by the delegator before it; every ancestor is held by the next delegator, outlives the leaf,
      is live and not revoked; no holder appears twice and the leaf is held by the last; and whatever the
      verifier permits for the leaf it permits for the root. */
  lemma Soundness(e: Env, ports: Ports, token: Token, now: int, action: string, params: Params)
    requires ChainAccepted(e, ports, token, now)
    ensures RootOf(ports, token).Some?
    ensures var root := RootOf(ports, token).value;
            && ChainOf(root) == [] && root.issuer == token.principal && SignedByIssuer(e, root)
            && (PermitsLight(token.capabilities, action, params) ==> PermitsLight(root.capabilities, action, params))
    ensures forall i: nat :: i < |ChainOf(token)| ==> Ancestor(ports, token, i, now)
    ensures forall i: nat :: i < |ChainOf(token)| ==> HopSigned(e, ports, ChainOf(token)[i])
    ensures forall i: nat :: 0 < i < |ChainOf(token)| ==> ParentSigned(e, ports, ChainOf(token), i)
    ensures TokenSigned(e, ports, token, ChainOf(token)[|ChainOf(token)| - 1].delegator)
    ensures Distinct(Holders(ChainOf(token))) && token.issuedTo == Holders(ChainOf(token))[|ChainOf(token)|]
    ensures |ChainOf(token)| <= MAX_DELEGATION_DEPTH
  {
    RootIsPrincipalSigned(e, ports, token, now);
    SignedThroughout(e, ports, token, now);
    AllAncestors(e, ports, token, now);
    RootContains(e, ports, token, now, action, params);
  }

  lemma AllAncestors(e: Env, ports: Ports, token: Token, now: int)
    requires ChainAccepted(e, ports, token, now)
    ensures forall i: nat :: i < |ChainOf(token)| ==> Ancestor(ports, token, i, now)
  {
    forall i: nat | i < |ChainOf(token)| ensures Ancestor(ports, token, i, now) {
      AncestorOfHop(e, ports, token, i, now);
    }
  }

  lemma RootContains(e: Env, ports: Ports, token: Token, now: int, action: string, params: Params)
    requires ChainAccepted(e, ports, token, now)
    ensures RootOf(ports, token).Some?
    ensures PermitsLight(token.capabilities, action, params) ==>
      PermitsLight(RootOf(ports, token).value.capabilities, action, params)
  {
    var chain := ChainOf(token);
    AcceptedDescends(e, ports, token, now);
    AncestorOfHop(e, ports, token, 0, now);
    if PermitsLight(token.capabilities, action, params) {
      AuthorityAscends(token, chain, 0, action, params);
      EqualPermits(chain[0].parentCapabilities, RootOf(ports, token).value.capabilities, action, params, NOWHERE);
    }
  }

  lemma CanonicalMember(caps: seq<Capability>, c: Capability)
    requires c in caps
    ensures Canonical(c) in CanonicalList(caps)
  {
    var i :| 0 <= i < |caps| && caps[i] == c;
    assert CanonicalList(caps)[i] == Canonical(c);
  }

  lemma CanonicalOrigin(caps: seq<Capability>, x: Capability) returns (c: Capability)
    requires x in CanonicalList(caps)
    ensures c in caps && x == Canonical(c)
  {
    var i :| 0 <= i < |caps| && CanonicalList(caps)[i] == x;
    c := caps[i];
  }

  lemma CanonicalPair(c: Capability, d: Capability)
    ensures SameDimension(Canonical(c), Canonical(d)) == SameDimension(c, d)
    ensures Narrows(c.scope, d.scope) ==> Narrows(Canonical(c).scope, Canonical(d).scope)
    ensures LeakyPair(Canonical(c).scope, Canonical(d).scope) == LeakyPair(c.scope, d.scope)
  {
  }

  lemma CanonicalPreChecked(caps: seq<Capability>)
    requires NoEmptyAllowlist(caps) && DistinctDimensions(caps)
    ensures NoEmptyAllowlist(CanonicalList(caps)) && DistinctDimensions(CanonicalList(caps))
  {
    forall x | x in CanonicalList(caps) ensures !IsEmptyAllowlist(x.scope) {
      var c := CanonicalOrigin(caps, x);
    }
    forall i, j | 0 <= i < j < |caps| ensures !SameDimension(CanonicalList(caps)[i], CanonicalList(caps)[j]) {
      CanonicalPair(caps[i], caps[j]);
    }
  }

  lemma CanonicalCovered(parent: seq<Capability>, c: Capability)
    requires Covered(parent, c)
    ensures Covered(CanonicalList(parent), Canonical(c))
  {
    var p :| p in parent && SameDimension(c, p) && Narrows(c.scope, p.scope);
    CanonicalMember(parent, p);
    CanonicalPair(c, p);
  }

  lemma CanonicalAction(caps: seq<Capability>, action: string)
    requires HasAction(CanonicalList(caps), action)
    ensures HasAction(caps, action)
  {
    var x :| x in CanonicalList(caps) && x.action == action;
    var c := CanonicalOrigin(caps, x);
  }

  lemma CanonicalDimension(caps: seq<Capability>, p: Capability)
    requires HasDimension(caps, p)
    ensures HasDimension(CanonicalList(caps), Canonical(p))
  {
    var c :| c in caps && SameDimension(c, p);
    CanonicalMember(caps, c);
    CanonicalPair(c, p);
  }

  /** Attenuation carries over to canonical forms. */
  lemma CanonicalAttenuates(parent: seq<Capability>, child: seq<Capability>)
    requires Attenuates(parent, child)
    ensures Attenuates(CanonicalList(parent), CanonicalList(child))
  {
    CanonicalPreChecked(parent);
    CanonicalPreChecked(child);
    forall x | x in CanonicalList(child) ensures Covered(CanonicalList(parent), x) {
      var c := CanonicalOrigin(child, x);
      assert Covered(parent, c);
      CanonicalCovered(parent, c);
    }
    forall x | x in CanonicalList(parent) && HasAction(CanonicalList(child), x.action)
      ensures HasDimension(CanonicalList(child), x)
    {
      var p := CanonicalOrigin(parent, x);
      CanonicalAction(child, x.action);
      assert HasDimension(child, p);
      CanonicalDimension(child, p);
    }
  }

  /** Attenuation composed across hops: in canonical form the leaf attenuates the parent of every hop. */
  lemma {:induction false} LeafAttenuatesHop(token: Token, chain: seq<DelegationProof>, i: nat)
    requires Descends(token, chain) && i < |chain|
    ensures Attenuates(CanonicalList(chain[i].parentCapabilities), CanonicalList(token.capabilities))
    decreases |chain| - i
  {
    var parent, attenuated := CanonicalList(chain[i].parentCapabilities), CanonicalList(chain[i].attenuated);
    var leaf := CanonicalList(token.capabilities);
    CanonicalAttenuates(chain[i].parentCapabilities, chain[i].attenuated);
    if i == |chain| - 1 {
      PermutationInvariant(parent, parent, attenuated, leaf);
    } else {
      LeafAttenuatesHop(token, chain, i + 1);
      assert CapabilitiesEqual(chain[i + 1].parentCapabilities, chain[i + 1 - 1].attenuated);
      PermutationInvariant(CanonicalList(chain[i + 1].parentCapabilities), attenuated, leaf, leaf);
      AttenuationTransitive(parent, attenuated, leaf);
    }
  }

  /** An accepted leaf attenuates its root directly, up to order and key order, however long the chain. */
  lemma LeafAttenuatesRoot(e: Env, ports: Ports, token: Token, now: int)
    requires ChainAccepted(e, ports, token, now)
    ensures RootOf(ports, token).Some?
    ensures Attenuates(CanonicalList(RootOf(ports, token).value.capabilities), CanonicalList(token.capabilities))
  {
    var chain := ChainOf(token);
    AncestorOfHop(e, ports, token, 0, now);
    AcceptedDescends(e, ports, token, now);
    LeafAttenuatesHop(token, chain, 0);
    var leaf := CanonicalList(token.capabilities);
    var root := CanonicalList(RootOf(ports, token).value.capabilities);
    PermutationInvariant(CanonicalList(chain[0].parentCapabilities), root, leaf, leaf);
  }

  lemma CanonicalEqual(caps: seq<Capability>)
    ensures CapabilitiesEqual(caps, CanonicalList(caps)) && CapabilitiesEqual(CanonicalList(caps), caps)
  {
    assert CanonicalList(CanonicalList(caps)) == CanonicalList(caps);
  }

  lemma CanonicalLeakFree(parent: seq<Capability>, child: seq<Capability>, action: string)
    requires LeakFreeFor(parent, child, action)
    ensures LeakFreeFor(CanonicalList(parent), CanonicalList(child), action)
  {
    forall x, y | x in CanonicalList(child) && y in CanonicalList(parent) && x.action == action == y.action
      ensures !LeakyPair(x.scope, y.scope)
    {
      var c := CanonicalOrigin(child, x);
      var p := CanonicalOrigin(parent, y);
      CanonicalPair(c, p);
    }
  }

  /** Containment for the scope evaluator: whatever the leaf permits the root permits, under every action for
      which no window of the leaf leaks from the root. Only the two ends of the chain matter. */
  lemma SoundnessOfEvaluation(
    e: Env, ports: Ports, token: Token, now: int, action: string, params: Params, ctx: Context)
    requires ChainAccepted(e, ports, token, now) && ValidContext(ctx) && RootOf(ports, token).Some?
    requires LeakFreeFor(RootOf(ports, token).value.capabilities, token.capabilities, action)
    requires Permits(token.capabilities, action, params, ctx)
    ensures Permits(RootOf(ports, token).value.capabilities, action, params, ctx)
  {
    var root, leaf := RootOf(ports, token).value.capabilities, token.capabilities;
    LeafAttenuatesRoot(e, ports, token, now);
    CanonicalEqual(leaf);
    CanonicalEqual(root);
    EqualPermits(leaf, CanonicalList(leaf), action, params, ctx);
    CanonicalLeakFree(root, leaf, action);
    AttenuationContains(CanonicalList(root), CanonicalList(leaf), action, params, ctx);
    EqualPermits(CanonicalList(root), root, action, params, ctx);
  }

  /** No hop from `i` down compares windows that leak under the action. */
  predicate LeakFreeFrom(chain: seq<DelegationProof>, i: nat, action: string) {
    forall j :: i <= j < |chain| ==> LeakFreeFor(chain[j].parentCapabilities, chain[j].attenuated, action)
  }

  lemma {:induction false} EvaluationAscends(
    token: Token, chain: seq<DelegationProof>, i: nat, action: string, params: Params, ctx: Context)
    requires Descends(token, chain) && i < |chain| && LeakFreeFrom(chain, i, action) && ValidContext(ctx)
    requires Permits(token.capabilities, action, params, ctx)
    ensures Permits(chain[i].parentCapabilities, action, params, ctx)
    decreases |chain| - i
  {
    if i == |chain| - 1 {
      EqualPermits(token.capabilities, chain[i].attenuated, action, params, ctx);
    } else {
      EvaluationAscends(token, chain, i + 1, action, params, ctx);
      assert CapabilitiesEqual(chain[i + 1].parentCapabilities, chain[i + 1 - 1].attenuated);
      EqualPermits(chain[i + 1].parentCapabilities, chain[i].attenuated, action, params, ctx);
    }
    AttenuationContains(chain[i].parentCapabilities, chain[i].attenuated, action, params, ctx);
  }

  /** The same from a check of every hop, without looking at the root. */
  lemma SoundnessHopByHop(e: Env, ports: Ports, token: Token, now: int, action: string, params: Params, ctx: Context)
    requires ChainAccepted(e, ports, token, now) && LeakFreeFrom(ChainOf(token), 0, action) && ValidContext(ctx)
    requires Permits(token.capabilities, action, params, ctx)
    ensures RootOf(ports, token).Some? && Permits(RootOf(ports, token).value.capabilities, action, params, ctx)
  {
    var chain := ChainOf(token);
    AncestorOfHop(e, ports, token, 0, now);
    AcceptedDescends(e, ports, token, now);
    EvaluationAscends(token, chain, 0, action, params, ctx);
    EqualPermits(chain[0].parentCapabilities, RootOf(ports, token).value.capabilities, action, params, ctx);
  }

  lemma CanonicalDistinct(caps: seq<Capability>)
    requires DistinctDimensions(CanonicalList(caps))
    ensures DistinctDimensions(caps)
  {
    forall i, j | 0 <= i < j < |caps| ensures !SameDimension(caps[i], caps[j]) {
      assert !SameDimension(CanonicalList(caps)[i], CanonicalList(caps)[j]);
      CanonicalPair(caps[i], caps[j]);
    }
  }

  /** And the condition is exact: the root contains an action of an accepted leaf if and only if no window of
      the leaf under it leaks from the root, or the leaf grants it to no request at all. */
  lemma EvaluationIsLeakFreedom(e: Env, ports: Ports, token: Token, now: int, action: string)
    requires ChainAccepted(e, ports, token, now) && RootOf(ports, token).Some?
    ensures var root := RootOf(ports, token).value.capabilities;
            ContainedFor(root, token.capabilities, action) <==>
              LeakFreeFor(root, token.capabilities, action) || !Grantable(token.capabilities, action)
  {
    var root, leaf := RootOf(ports, token).value.capabilities, token.capabilities;
    if LeakFreeFor(root, leaf, action) {
      forall params, ctx | ValidContext(ctx) && Permits(leaf, action, params, ctx)
        ensures Permits(root, action, params, ctx)
      {
        SoundnessOfEvaluation(e, ports, token, now, action, params, ctx);
      }
    } else if Grantable(leaf, action) {
      LeafAttenuatesRoot(e, ports, token, now);
      CanonicalDistinct(leaf);
      var c, p :| c in leaf && p in root && c.action == action == p.action && LeakyPair(c.scope, p.scope);
      var params, ctx :| ValidContext(ctx) && Permits(leaf, action, params, ctx);
      var moved := LeakBreaks(root, leaf, c, p, params, ctx);
    }
  }

  // ------------------------------------------------------------------ completeness

  /** `tokens[i + 1]` came from a successful delegation of `tokens[i]` by its holder. */
  predicate Lineage(e: Env, keyOf: Did -> string, tokens: seq<Token>, grants: seq<Grant>) {
    && |tokens| == |grants| + 1 && tokens[0].chain == None
    && forall i :: 0 <= i < |grants| ==>
        DelegateCapabilityToken(e, tokens[i], keyOf(tokens[i].issuedTo), grants[i]) == Ok(tokens[i + 1])
  }

  /** The proof of hop `i`. */
  predicate HopProof(
    e: Env, keyOf: Did -> string, tokens: seq<Token>, grants: seq<Grant>, chain: seq<DelegationProof>, i: nat)
  {
    && i < |chain| && i < |grants| && i < |tokens|
    && chain[i] == NewProof(e, tokens[i], keyOf(tokens[i].issuedTo), grants[i])
  }

  lemma {:induction false} LineageChain(e: Env, keyOf: Did -> string, tokens: seq<Token>, grants: seq<Grant>, n: nat)
    requires Lineage(e, keyOf, tokens, grants) && n < |tokens|
    ensures |ChainOf(tokens[n])| == n
    ensures forall i: nat :: i < n ==> HopProof(e, keyOf, tokens, grants, ChainOf(tokens[n]), i)
    ensures tokens[n].issuer == tokens[0].issuer && tokens[n].principal == tokens[0].principal
    decreases n
  {
    if n > 0 {
      LineageChain(e, keyOf, tokens, grants, n - 1);
      var parent := tokens[n - 1];
      assert DelegateCapabilityToken(e, parent, keyOf(parent.issuedTo), grants[n - 1]) == Ok(tokens[n - 1 + 1]);
      forall i: nat | i < n ensures HopProof(e, keyOf, tokens, grants, ChainOf(tokens[n]), i) {
        if i < n - 1 { assert HopProof(e, keyOf, tokens, grants, ChainOf(parent), i); }
      }
    }
  }

  lemma {:induction false} ExpiryDescends(
    e: Env, keyOf: Did -> string, tokens: seq<Token>, grants: seq<Grant>, i: nat, j: nat)
    requires Lineage(e, keyOf, tokens, grants) && i <= j < |tokens|
    ensures tokens[j].expiresAt <= tokens[i].expiresAt
    decreases j - i
  {
    if i < j {
      ExpiryDescends(e, keyOf, tokens, grants, i, j - 1);
      assert DelegateCapabilityToken(e, tokens[j - 1], keyOf(tokens[j - 1].issuedTo), grants[j - 1]) ==
        Ok(tokens[j - 1 + 1]);
    }
  }

  /** The store returns the tokens, none is revoked, and each holder's current key is the one it signs with. */
  predicate HonestAt(e: Env, ports: Ports, keyOf: Did -> string, t: Token) {
    && ports.resolveToken(t.id) == Some(t) && !ports.isRevoked(t.id)
    && ports.keys(t.issuedTo).Some? && ports.keys(t.issuedTo).value.current == e.publicOf(keyOf(t.issuedTo))
  }

  lemma ProofVerifies(e: Env, ports: Ports, keyOf: Did -> string, parent: Token, g: Grant)
    requires Correct(e) && HonestAt(e, ports, keyOf, parent)
    ensures ProofSigned(e, ports, NewProof(e, parent, keyOf(parent.issuedTo), g))
  {
    var p := NewProof(e, parent, keyOf(parent.issuedTo), g);
    assert ProofPayload(p) == ProofPayload(p.(proof := UNSIGNED));
  }

  lemma DelegatedVerifies(e: Env, ports: Ports, keyOf: Did -> string, parent: Token, g: Grant)
    requires Correct(e) && HonestAt(e, ports, keyOf, parent)
    ensures TokenSignedBy(e, ports, DelegatedToken(e, parent, keyOf(parent.issuedTo), g), parent.issuedTo)
  {
    var t := DelegatedToken(e, parent, keyOf(parent.issuedTo), g);
    assert TokenPayload(t) == TokenPayload(t.(proof := UNSIGNED));
  }

  lemma EqualReflexive(a: seq<Capability>)
    ensures CapabilitiesEqual(a, a)
  {
  }

  /** All that is assumed of a chain of delegations of a root token: nothing is asked of the leaf's own entry in
      the store, which the validator does not look at. */
  ghost predicate Honest(e: Env, ports: Ports, keyOf: Did -> string, tokens: seq<Token>, grants: seq<Grant>) {
    && Correct(e) && Lineage(e, keyOf, tokens, grants) && grants != []
    && (forall i :: 0 <= i < |grants| ==> HonestAt(e, ports, keyOf, tokens[i]))
    && (forall i, j :: 0 <= i < j < |tokens| ==> tokens[i].issuedTo != tokens[j].issuedTo)
  }

  lemma LineageStep(e: Env, keyOf: Did -> string, tokens: seq<Token>, grants: seq<Grant>, i: nat)
    requires Lineage(e, keyOf, tokens, grants) && i < |grants|
    ensures tokens[i + 1] == DelegatedToken(e, tokens[i], keyOf(tokens[i].issuedTo), grants[i])
    ensures Attenuates(tokens[i].capabilities, grants[i].capabilities) && |ChainOf(tokens[i])| < MAX_DELEGATION_DEPTH
  {
  }

  lemma LinkPasses(e: Env, ports: Ports, keyOf: Did -> string, tokens: seq<Token>, grants: seq<Grant>, i: nat, now: int)
    requires Honest(e, ports, keyOf, tokens, grants) && i < |grants| && now < tokens[|grants|].expiresAt
    ensures |ChainOf(tokens[|grants|])| == |grants|
    ensures LinkFailure(ports, tokens[|grants|], ChainOf(tokens[|grants|]), i, now).None?
  {
    var n := |grants|;
    var chain := ChainOf(tokens[n]);
    LineageChain(e, keyOf, tokens, grants, n);
    ExpiryDescends(e, keyOf, tokens, grants, i, n);
    LineageStep(e, keyOf, tokens, grants, i);
    assert HopProof(e, keyOf, tokens, grants, chain, i) && HonestAt(e, ports, keyOf, tokens[i]);
    if i + 1 < n {
      assert HopProof(e, keyOf, tokens, grants, chain, i + 1);
      EqualReflexive(chain[i].attenuated);
    }
    if i > 0 {
      LineageStep(e, keyOf, tokens, grants, i - 1);
      assert HopProof(e, keyOf, tokens, grants, chain, i - 1);
    }
  }

  lemma ParentPasses(
    e: Env, ports: Ports, keyOf: Did -> string, tokens: seq<Token>, grants: seq<Grant>, i: nat, now: int)
    requires Honest(e, ports, keyOf, tokens, grants) && i < |grants|
    ensures |ChainOf(tokens[|grants|])| == |grants|
    ensures i > 0 ==> ParentFailure(e, ports, tokens[|grants|], ChainOf(tokens[|grants|]), i, tokens[i], now).None?
    ensures i == 0 ==>
      (ParentFailure(e, ports, tokens[|grants|], ChainOf(tokens[|grants|]), i, tokens[i], now).None? <==>
        VerifyCapabilityToken(e, tokens[0], now, None) == Valid)
  {
    var n := |grants|;
    var chain := ChainOf(tokens[n]);
    LineageChain(e, keyOf, tokens, grants, n);
    LineageChain(e, keyOf, tokens, grants, i);
    assert HopProof(e, keyOf, tokens, grants, chain, i) && HonestAt(e, ports, keyOf, tokens[i]);
    EqualReflexive(chain[i].parentCapabilities);
    if i > 0 {
      LineageStep(e, keyOf, tokens, grants, i - 1);
      assert HopProof(e, keyOf, tokens, grants, chain, i - 1) && HonestAt(e, ports, keyOf, tokens[i - 1]);
      DelegatedVerifies(e, ports, keyOf, tokens[i - 1], grants[i - 1]);
    }
  }

  /** Every hop passes, the first one exactly when the root token verifies. */
  lemma HopPasses(e: Env, ports: Ports, keyOf: Did -> string, tokens: seq<Token>, grants: seq<Grant>, i: nat, now: int)
    requires Honest(e, ports, keyOf, tokens, grants) && i < |grants| && now < tokens[|grants|].expiresAt
    ensures |ChainOf(tokens[|grants|])| == |grants|
    ensures HopFailure(e, ports, tokens[|grants|], ChainOf(tokens[|grants|]), i, now).None? <==>
      i > 0 || VerifyCapabilityToken(e, tokens[0], now, None) == Valid
  {
    var n := |grants|;
    LineageChain(e, keyOf, tokens, grants, n);
    assert HopProof(e, keyOf, tokens, grants, ChainOf(tokens[n]), i) && HonestAt(e, ports, keyOf, tokens[i]);
    ProofVerifies(e, ports, keyOf, tokens[i], grants[i]);
    ParentPasses(e, ports, keyOf, tokens, grants, i, now);
    LinkPasses(e, ports, keyOf, tokens, grants, i, now);
  }

  lemma HolderOfLineage(
    e: Env, keyOf: Did -> string, tokens: seq<Token>, grants: seq<Grant>, chain: seq<DelegationProof>, i: nat)
    requires Lineage(e, keyOf, tokens, grants) && chain != [] && |chain| == |grants| && i <= |chain|
    requires forall k: nat :: k < |chain| ==> HopProof(e, keyOf, tokens, grants, chain, k)
    ensures Holders(chain)[i] == tokens[i].issuedTo
  {
    if i == 0 {
      assert HopProof(e, keyOf, tokens, grants, chain, 0);
    } else {
      assert HopProof(e, keyOf, tokens, grants, chain, i - 1);
      LineageStep(e, keyOf, tokens, grants, i - 1);
    }
  }

  lemma HoldersOfLineage(e: Env, ports: Ports, keyOf: Did -> string, tokens: seq<Token>, grants: seq<Grant>)
    requires Honest(e, ports, keyOf, tokens, grants)
    ensures ChainOf(tokens[|grants|]) != [] && Distinct(Holders(ChainOf(tokens[|grants|])))
  {
    var chain := ChainOf(tokens[|grants|]);
    LineageChain(e, keyOf, tokens, grants, |grants|);
    forall i: nat, j: nat | i < j < |Holders(chain)| ensures Holders(chain)[i] != Holders(chain)[j] {
      HolderOfLineage(e, keyOf, tokens, grants, chain, i);
      HolderOfLineage(e, keyOf, tokens, grants, chain, j);
    }
  }

  lemma LeafOfLineage(e: Env, ports: Ports, keyOf: Did -> string, tokens: seq<Token>, grants: seq<Grant>)
    requires Honest(e, ports, keyOf, tokens, grants) && tokens[0].issuer == tokens[0].principal
    ensures var leaf := tokens[|grants|]; var chain := ChainOf(leaf);
            && chain != [] && LeafFailure(leaf, chain).None? && ProofsNameSigners(chain)
            && TokenSignedBy(e, ports, leaf, chain[|chain| - 1].delegator)
  {
    var n := |grants|;
    var chain := ChainOf(tokens[n]);
    LineageChain(e, keyOf, tokens, grants, n);
    LineageStep(e, keyOf, tokens, grants, n - 1);
    assert HopProof(e, keyOf, tokens, grants, chain, n - 1) && HonestAt(e, ports, keyOf, tokens[n - 1]);
    EqualReflexive(tokens[n].capabilities);
    DelegatedVerifies(e, ports, keyOf, tokens[n - 1], grants[n - 1]);
    forall k | 0 <= k < |chain| ensures chain[k].proof.signer == chain[k].delegator {
      assert HopProof(e, keyOf, tokens, grants, chain, k);
    }
  }

  lemma AcceptedIffRootVerifies(
    e: Env, ports: Ports, keyOf: Did -> string, tokens: seq<Token>, grants: seq<Grant>, now: int)
    requires Honest(e, ports, keyOf, tokens, grants) && tokens[0].issuer == tokens[0].principal
    requires e.schemaOk(tokens[|grants|]) && now < tokens[|grants|].expiresAt
    ensures ChainAccepted(e, ports, tokens[|grants|], now) <==> VerifyCapabilityToken(e, tokens[0], now, None) == Valid
  {
    var n := |grants|;
    var leaf := tokens[n];
    var chain := ChainOf(leaf);
    LineageChain(e, keyOf, tokens, grants, n);
    LineageChain(e, keyOf, tokens, grants, n - 1);
    LineageStep(e, keyOf, tokens, grants, n - 1);
    HoldersOfLineage(e, ports, keyOf, tokens, grants);
    LeafOfLineage(e, ports, keyOf, tokens, grants);
    forall i: nat | i < n
      ensures HopFailure(e, ports, leaf, chain, i, now).None? <==>
        i > 0 || VerifyCapabilityToken(e, tokens[0], now, None) == Valid
    {
      HopPasses(e, ports, keyOf, tokens, grants, i, now);
    }
    assert HopFailure(e, ports, leaf, chain, 0, now).None? <==> VerifyCapabilityToken(e, tokens[0], now, None) == Valid;
  }

  /** Completeness. Issue a root token, delegate it any number of times to fresh holders with matching
      keys, an honest store and nothing revoked: at every time from the root's issue until the leaf
      expires the chain is accepted exactly when the root carries no scope type that its version, fixed
      at issue, does not know. */
  lemma Completeness(
    e: Env, ports: Ports, keyOf: Did -> string, tokens: seq<Token>, grants: seq<Grant>, now: int, issuerKey: string)
    requires Honest(e, ports, keyOf, tokens, grants)
    requires var r := tokens[0];
      IssueCapabilityToken(e, r.id, KeyDid(e.publicOf(issuerKey)), issuerKey, r.issuedTo, r.capabilities, r.issuedAt,
      r.expiresAt, r.revocationUrl) == Ok(r)
    requires e.schemaOk(tokens[0]) && e.schemaOk(tokens[|grants|])
    requires tokens[0].issuedAt <= now < tokens[|grants|].expiresAt
    ensures ChainAccepted(e, ports, tokens[|grants|], now) <==> NoPhase2(tokens[0].capabilities)
  {
    var r := tokens[0];
    ExpiryDescends(e, keyOf, tokens, grants, 0, |grants|);
    AcceptedIffRootVerifies(e, ports, keyOf, tokens, grants, now);
    IssuedVerifies(e, r.id, issuerKey, r.issuedTo, r.capabilities, r.issuedAt, r.expiresAt, r.revocationUrl, now);
  }
}
