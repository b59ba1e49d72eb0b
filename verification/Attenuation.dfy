/** Attenuation: when one capability list is a narrowing of another. */
module Attenuation {
  import opened Common
  import opened Capabilities
  import opened Windows

  // ------------------------------------------------------------------ the relation

  predicate IsEmptyAllowlist(s: Scope) {
    s.Allowlist? && s.values == []
  }

  predicate NoEmptyAllowlist(caps: seq<Capability>) {
    forall c :: c in caps ==> !IsEmptyAllowlist(c.scope)
  }

  predicate SameDimension(a: Capability, b: Capability) {
    a.action == b.action && ScopeMatchKey(a.scope) == ScopeMatchKey(b.scope)
  }

  /** At most one capability for each action and dimension. */
  predicate DistinctDimensions(caps: seq<Capability>) {
    forall i, j :: 0 <= i < j < |caps| ==> !SameDimension(caps[i], caps[j])
  }

  /** A parent capability narrowed by `c`. */
  predicate Covered(parent: seq<Capability>, c: Capability) {
    exists p :: p in parent && SameDimension(c, p) && Narrows(c.scope, p.scope)
  }

  predicate HasDimension(caps: seq<Capability>, d: Capability) {
    exists c :: c in caps && SameDimension(c, d)
  }

  /** Every child capability narrows one of the parent, and for each action the child uses it keeps
      every dimension of the parent. */
  predicate Attenuates(parent: seq<Capability>, child: seq<Capability>) {
    && NoEmptyAllowlist(parent) && NoEmptyAllowlist(child)
    && DistinctDimensions(parent) && DistinctDimensions(child)
    && AllCovered(parent, child) && KeepsDimensions(parent, child)
  }

  predicate AllCovered(parent: seq<Capability>, child: seq<Capability>) {
    forall c {:trigger Covered(parent, c)} :: c in child ==> Covered(parent, c)
  }

  predicate KeepsDimensions(parent: seq<Capability>, child: seq<Capability>) {
    forall p {:trigger HasDimension(child, p)} :: p in parent && HasAction(child, p.action) ==> HasDimension(child, p)
  }

  // ------------------------------------------------------------------ a preorder

  lemma CoveredTransitive(a: seq<Capability>, b: seq<Capability>, c: Capability)
    requires Covered(b, c) && AllCovered(a, b)
    ensures Covered(a, c)
  {
    var x :| x in b && SameDimension(c, x) && Narrows(c.scope, x.scope);
    assert Covered(a, x);
    var y :| y in a && SameDimension(x, y) && Narrows(x.scope, y.scope);
    NarrowsTransitive(c.scope, x.scope, y.scope);
    assert SameDimension(c, y);
  }

  lemma CoveredAction(parent: seq<Capability>, child: seq<Capability>, action: string)
    requires AllCovered(parent, child) && HasAction(child, action)
    ensures HasAction(parent, action)
  {
    var c :| c in child && c.action == action;
    assert Covered(parent, c);
    var p :| p in parent && SameDimension(c, p) && Narrows(c.scope, p.scope);
  }

  lemma DimensionKept(b: seq<Capability>, c: seq<Capability>, p: Capability)
    requires HasDimension(b, p) && HasAction(c, p.action) && KeepsDimensions(b, c)
    ensures HasDimension(c, p)
  {
    var x :| x in b && SameDimension(x, p);
    assert HasDimension(c, x);
    var y :| y in c && SameDimension(y, x);
    assert SameDimension(y, p);
  }

  lemma KeepsTransitive(a: seq<Capability>, b: seq<Capability>, c: seq<Capability>, p: Capability)
    requires KeepsDimensions(a, b) && KeepsDimensions(b, c) && AllCovered(b, c) && p in a && HasAction(c, p.action)
    ensures HasDimension(c, p)
  {
    CoveredAction(b, c, p.action);
    assert HasDimension(b, p);
    DimensionKept(b, c, p);
  }

  lemma AttenuationTransitive(a: seq<Capability>, b: seq<Capability>, c: seq<Capability>)
    requires Attenuates(a, b) && Attenuates(b, c)
    ensures Attenuates(a, c)
  {
    assert AllCovered(a, c) by {
      forall x | x in c ensures Covered(a, x) {
        CoveredTransitive(a, b, x);
      }
    }
    assert KeepsDimensions(a, c) by {
      forall p | p in a && HasAction(c, p.action) ensures HasDimension(c, p) {
        KeepsTransitive(a, b, c, p);
      }
    }
  }

  predicate KnownScopes(caps: seq<Capability>) {
    forall c :: c in caps ==> !c.scope.Unknown?
  }

  lemma UnknownNotCovered(parent: seq<Capability>, c: Capability)
    requires Covered(parent, c)
    ensures !c.scope.Unknown?
  {
  }

  /** A list attenuates to itself exactly when its scope types are known, no allowlist is empty and no
      dimension is repeated. */
  lemma AttenuationReflexive(caps: seq<Capability>)
    ensures Attenuates(caps, caps) <==> KnownScopes(caps) && NoEmptyAllowlist(caps) && DistinctDimensions(caps)
  {
    if KnownScopes(caps) {
      forall c | c in caps ensures Covered(caps, c) && HasDimension(caps, c) {
        NarrowsReflexive(c.scope);
        assert SameDimension(c, c);
      }
    }
    if Attenuates(caps, caps) {
      forall c | c in caps ensures !c.scope.Unknown? {
        UnknownNotCovered(caps, c);
      }
    }
  }

  // ------------------------------------------------------------------ dimension by dimension

  lemma LastColonSplits(a: string, b: string, x: string, y: string)
    requires a + ":" + x == b + ":" + y && ':' !in x && ':' !in y
    ensures a == b && x == y
  {
    var s := a + ":" + x;
    assert s[|a|] == ':' && s[|b|] == ':';
    forall i | |a| < i < |s| ensures s[i] != ':' {
      assert s[i] == x[i - |a| - 1];
    }
    forall i | |b| < i < |s| ensures s[i] != ':' {
      assert s[i] == y[i - |b| - 1];
    }
    assert a == s[..|a|] && b == s[..|a|] && x == s[|a| + 1..] && y == s[|a| + 1..];
  }

  /** Two scopes constrain the same dimension when they are of one kind and agree on what that kind is keyed by:
      the field, the metric and window, or nothing for temporal scopes. */
  predicate OneDimension(a: Scope, b: Scope) {
    match (a, b)
    case (Allowlist(f, _), Allowlist(g, _)) => f == g
    case (NumericLimit(f, _, _), NumericLimit(g, _, _)) => f == g
    case (Temporal(_, _, _), Temporal(_, _, _)) => true
    case (Cumulative(m, _, w, _), Cumulative(n, _, v, _)) => m.metric == n.metric && w == v
    case (Unknown(k), Unknown(l)) => k == l
    case _ => false
  }

  lemma SamePrefix(prefix: string, x: string, y: string)
    requires prefix + x == prefix + y
    ensures x == y
  {
    assert x == (prefix + x)[|prefix|..] && y == (prefix + y)[|prefix|..];
  }

  lemma KeyStarts(s: Scope)
    ensures |ScopeMatchKey(s)| > 0
    ensures ScopeMatchKey(s)[0] ==
      match s
      case Allowlist(_, _) => 'a'
      case NumericLimit(_, _, _) => 'n'
      case Temporal(_, _, _) => 't'
      case Cumulative(_, _, _, _) => 'c'
      case Unknown(_) => '_'
  {
  }

  lemma KeyMeaning(a: Scope, b: Scope)
    ensures ScopeMatchKey(a) == ScopeMatchKey(b) <==> OneDimension(a, b)
  {
    KeyStarts(a);
    KeyStarts(b);
    if ScopeMatchKey(a) == ScopeMatchKey(b) {
      match a
      case Allowlist(f, _) => SamePrefix("allowlist:", f, b.field);
      case NumericLimit(f, _, _) => SamePrefix("numeric_limit:", f, b.field);
      case Temporal(_, _, _) =>
      case Cumulative(m, _, w, _) =>
        LastColonSplits("cumulative_limit:" + m.metric, "cumulative_limit:" + b.meterField.metric, PeriodName(w),
          PeriodName(b.window));
        SamePrefix("cumulative_limit:", m.metric, b.meterField.metric);
      case Unknown(k) => SamePrefix("__unknown__:", k, b.kind);
    }
  }

  /** The list constrains the dimension of `s` under the action. */
  predicate Constrains(caps: seq<Capability>, action: string, s: Scope) {
    exists c :: c in caps && c.action == action && OneDimension(c.scope, s)
  }

  lemma ConstrainsIsDimension(caps: seq<Capability>, d: Capability)
    ensures Constrains(caps, d.action, d.scope) <==> HasDimension(caps, d)
  {
    forall c | c in caps ensures OneDimension(c.scope, d.scope) <==> ScopeMatchKey(c.scope) == ScopeMatchKey(d.scope) {
      KeyMeaning(c.scope, d.scope);
    }
    if Constrains(caps, d.action, d.scope) {
      var c :| c in caps && c.action == d.action && OneDimension(c.scope, d.scope);
      assert SameDimension(c, d);
    }
  }

  lemma AttenuatesNarrows(parent: seq<Capability>, child: seq<Capability>, c: Capability, p: Capability)
    requires Attenuates(parent, child) && c in child && p in parent && SameDimension(c, p)
    ensures Narrows(c.scope, p.scope)
  {
    assert Covered(parent, c);
    var q :| q in parent && SameDimension(c, q) && Narrows(c.scope, q.scope);
    assert SameDimension(p, q);
    SameDimensionSame(parent, p, q);
  }

  /** The child constrains no dimension that the parent leaves open under the action. */
  predicate NothingNew(parent: seq<Capability>, child: seq<Capability>) {
    forall c {:trigger Constrains(parent, c.action, c.scope)} :: c in child ==> Constrains(parent, c.action, c.scope)
  }

  /** Under the actions that it uses, the child leaves open no dimension that the parent constrains. */
  predicate NothingLost(parent: seq<Capability>, child: seq<Capability>) {
    forall p {:trigger Constrains(child, p.action, p.scope)} :: p in parent && HasAction(child, p.action) ==>
      Constrains(child, p.action, p.scope)
  }

  predicate NarrowsPair(c: Capability, p: Capability) {
    c.action == p.action && OneDimension(c.scope, p.scope) ==> Narrows(c.scope, p.scope)
  }

  predicate NarrowsAll(parent: seq<Capability>, child: seq<Capability>) {
    forall c, p {:trigger NarrowsPair(c, p)} :: c in child && p in parent ==> NarrowsPair(c, p)
  }

  lemma AttenuatesByDimension(parent: seq<Capability>, child: seq<Capability>)
    requires Attenuates(parent, child)
    ensures NothingNew(parent, child) && NothingLost(parent, child) && NarrowsAll(parent, child)
  {
    forall c | c in child ensures Constrains(parent, c.action, c.scope) {
      assert Covered(parent, c);
      var q :| q in parent && SameDimension(c, q) && Narrows(c.scope, q.scope);
      assert SameDimension(q, c);
      ConstrainsIsDimension(parent, c);
    }
    forall p | p in parent && HasAction(child, p.action) ensures Constrains(child, p.action, p.scope) {
      assert HasDimension(child, p);
      ConstrainsIsDimension(child, p);
    }
    forall c, p | c in child && p in parent ensures NarrowsPair(c, p) {
      KeyMeaning(c.scope, p.scope);
      if SameDimension(c, p) { AttenuatesNarrows(parent, child, c, p); }
    }
  }

  lemma CoveredByDimension(parent: seq<Capability>, child: seq<Capability>, c: Capability)
    requires NothingNew(parent, child) && NarrowsAll(parent, child) && c in child
    ensures Covered(parent, c)
  {
    assert Constrains(parent, c.action, c.scope);
    var p :| p in parent && p.action == c.action && OneDimension(p.scope, c.scope);
    KeyMeaning(p.scope, c.scope);
    KeyMeaning(c.scope, p.scope);
    assert NarrowsPair(c, p);
    assert SameDimension(c, p);
  }

  /** Attenuation, dimension by dimension: under every action that the child uses, it constrains exactly the
      dimensions that the parent does, and narrows each. Actions may be dropped. */
  lemma AttenuationByDimension(parent: seq<Capability>, child: seq<Capability>)
    requires NoEmptyAllowlist(parent) && NoEmptyAllowlist(child)
    requires DistinctDimensions(parent) && DistinctDimensions(child)
    ensures Attenuates(parent, child) <==>
      NothingNew(parent, child) && NothingLost(parent, child) && NarrowsAll(parent, child)
  {
    if Attenuates(parent, child) {
      AttenuatesByDimension(parent, child);
    } else if NothingNew(parent, child) && NothingLost(parent, child) && NarrowsAll(parent, child) {
      forall c | c in child ensures Covered(parent, c) {
        CoveredByDimension(parent, child, c);
      }
      forall p | p in parent && HasAction(child, p.action) ensures HasDimension(child, p) {
        assert Constrains(child, p.action, p.scope);
        ConstrainsIsDimension(child, p);
      }
      assert AllCovered(parent, child) && KeepsDimensions(parent, child);
    }
  }

  /** On lists of one scope each: narrowing under one action and dimension. */
  lemma OneScopeAttenuates(action: string, parent: Scope, child: Scope)
    requires !IsEmptyAllowlist(parent) && !IsEmptyAllowlist(child)
    ensures Attenuates([Capability(action, parent)], [Capability(action, child)]) <==>
      OneDimension(child, parent) && Narrows(child, parent)
  {
    var p, c := Capability(action, parent), Capability(action, child);
    KeyMeaning(child, parent);
    assert p in [p] && c in [c];
    if Attenuates([p], [c]) { assert Covered([p], c); }
    if SameDimension(c, p) && Narrows(child, parent) {
      assert SameDimension(p, c) && Covered([p], c) && HasDimension([c], p);
      assert AllCovered([p], [c]) && KeepsDimensions([p], [c]);
    }
  }

  /** So a limit can be lowered and not raised. */
  lemma LimitsNarrow(action: string, field: string, max: real, lower: real, currency: Option<string>)
    ensures var limit := (m: real) => [Capability(action, NumericLimit(field, m, currency))];
            Attenuates(limit(max), limit(lower)) <==> lower <= max
  {
    OneScopeAttenuates(action, NumericLimit(field, max, currency), NumericLimit(field, lower, currency));
  }

  /** And an allowlist shortened, not extended and not emptied. */
  lemma AllowlistsNarrow(action: string, field: string, values: seq<string>, fewer: seq<string>)
    requires values != []
    ensures Attenuates([Capability(action, Allowlist(field, values))], [Capability(action, Allowlist(field, fewer))])
      <==> fewer != [] && forall v :: v in fewer ==> v in values
  {
    if fewer != [] {
      OneScopeAttenuates(action, Allowlist(field, values), Allowlist(field, fewer));
    } else {
      assert Capability(action, Allowlist(field, fewer)) in [Capability(action, Allowlist(field, fewer))];
    }
  }

  // ------------------------------------------------------------------ order does not matter

  predicate Permutation(a: seq<Capability>, b: seq<Capability>) {
    multiset(a) == multiset(b)
  }

  lemma PermutationMembers(a: seq<Capability>, b: seq<Capability>)
    requires Permutation(a, b)
    ensures forall c :: c in a <==> c in b
  {
    assert forall c :: c in a <==> c in multiset(a);
    assert forall c :: c in b <==> c in multiset(b);
  }

  /** Two equal entries give multiplicity two. */
  lemma Repeated(s: seq<Capability>, i: nat, j: nat)
    requires i < j < |s| && s[i] == s[j]
    ensures multiset(s)[s[i]] >= 2
  {
    assert s == s[..j] + s[j..];
    assert s[i] in s[..j] && s[j] in s[j..];
    assert multiset(s) == multiset(s[..j]) + multiset(s[j..]);
  }

  lemma {:induction false} RepeatedConverse(s: seq<Capability>, c: Capability) returns (i: nat, j: nat)
    requires multiset(s)[c] >= 2
    ensures i < j < |s| && s[i] == c && s[j] == c
    decreases |s|
  {
    var last := |s| - 1;
    assert s == s[..last] + [s[last]];
    assert multiset(s) == multiset(s[..last]) + multiset{s[last]};
    if s[last] == c {
      assert c in multiset(s[..last]);
      i :| 0 <= i < last && s[i] == c;
      j := last;
    } else {
      i, j := RepeatedConverse(s[..last], c);
    }
  }

  lemma PermutedPair(a: seq<Capability>, b: seq<Capability>, i: nat, j: nat)
    requires Permutation(a, b) && DistinctDimensions(a) && i < j < |b|
    ensures !SameDimension(b[i], b[j])
  {
    PermutationMembers(a, b);
    if b[i] == b[j] {
      Repeated(b, i, j);
      var i', j' := RepeatedConverse(a, b[i]);
      assert !SameDimension(a[i'], a[j']);
      assert SameDimension(b[i], b[i]);
    } else {
      assert b[i] in a && b[j] in a;
      var i' :| 0 <= i' < |a| && a[i'] == b[i];
      var j' :| 0 <= j' < |a| && a[j'] == b[j];
      assert i' < j' ==> !SameDimension(a[i'], a[j']);
      assert j' < i' ==> !SameDimension(a[j'], a[i']);
    }
  }

  lemma PermutedDistinct(a: seq<Capability>, b: seq<Capability>)
    requires Permutation(a, b) && DistinctDimensions(a)
    ensures DistinctDimensions(b)
  {
    forall i, j | 0 <= i < j < |b| ensures !SameDimension(b[i], b[j]) {
      PermutedPair(a, b, i, j);
    }
  }

  lemma PermutedOneWay(p: seq<Capability>, p': seq<Capability>, c: seq<Capability>, c': seq<Capability>)
    requires Permutation(p, p') && Permutation(c, c') && Attenuates(p, c)
    ensures Attenuates(p', c')
  {
    PermutationMembers(p, p');
    PermutationMembers(c, c');
    PermutedDistinct(p, p');
    PermutedDistinct(c, c');
    forall x | x in c' ensures Covered(p', x) {
      assert Covered(p, x);
      var y :| y in p && SameDimension(x, y) && Narrows(x.scope, y.scope);
    }
    forall x | x in p' && HasAction(c', x.action) ensures HasDimension(c', x) {
      var w :| w in c' && w.action == x.action;
      assert HasAction(c, x.action) && HasDimension(c, x);
      var y :| y in c && SameDimension(y, x);
    }
  }

  /** Permuting either list does not change the verdict. */
  lemma PermutationInvariant(p: seq<Capability>, p': seq<Capability>, c: seq<Capability>, c': seq<Capability>)
    requires Permutation(p, p') && Permutation(c, c')
    ensures Attenuates(p, c) <==> Attenuates(p', c')
  {
    if Attenuates(p, c) { PermutedOneWay(p, p', c, c'); }
    if Attenuates(p', c') { PermutedOneWay(p', p, c', c); }
  }

  // ------------------------------------------------------------------ containment of authority

  lemma CoveringChild(parent: seq<Capability>, child: seq<Capability>, p: Capability) returns (c: Capability)
    requires Attenuates(parent, child) && p in parent && HasAction(child, p.action)
    ensures c in child && SameDimension(c, p) && Narrows(c.scope, p.scope)
  {
    assert HasDimension(child, p);
    c :| c in child && SameDimension(c, p);
    assert Covered(parent, c);
    var q :| q in parent && SameDimension(c, q) && Narrows(c.scope, q.scope);
    assert SameDimension(p, q) && SameDimension(q, p);
    SameDimensionSame(parent, p, q);
  }

  lemma SameDimensionSame(caps: seq<Capability>, p: Capability, q: Capability)
    requires DistinctDimensions(caps) && p in caps && q in caps && SameDimension(p, q)
    ensures p == q
  {
    var i :| 0 <= i < |caps| && caps[i] == p;
    var j :| 0 <= j < |caps| && caps[j] == q;
    assert SameDimension(caps[i], caps[j]) && SameDimension(caps[j], caps[i]);
  }

  /** Every request the verifier lets through for the child it lets through for the parent. */
  lemma AttenuationContainsLight(parent: seq<Capability>, child: seq<Capability>, action: string, params: Params)
    requires Attenuates(parent, child) && PermitsLight(child, action, params)
    ensures PermitsLight(parent, action, params)
  {
    CoveredAction(parent, child, action);
    forall p | p in parent && p.action == action ensures PassesLight(p.scope, params) {
      var c := CoveringChild(parent, child, p);
      LightContained(c.scope, p.scope, params);
    }
  }

  /** No temporal pair under the action leaks. */
  predicate LeakFreeFor(parent: seq<Capability>, child: seq<Capability>, action: string) {
    forall c, p :: c in child && p in parent && c.action == action == p.action ==> !LeakyPair(c.scope, p.scope)
  }

  /** Every request the scope evaluator lets through for the child it lets through for the parent, at every
      time and whatever the running totals, under actions whose windows do not leak. */
  lemma AttenuationContains(
    parent: seq<Capability>, child: seq<Capability>, action: string, params: Params, ctx: Context)
    requires Attenuates(parent, child) && LeakFreeFor(parent, child, action) && ValidContext(ctx)
    requires Permits(child, action, params, ctx)
    ensures Permits(parent, action, params, ctx)
  {
    CoveredAction(parent, child, action);
    forall p | p in parent && p.action == action ensures Evaluates(p.scope, params, ctx) {
      var c := CoveringChild(parent, child, p);
      EvaluationContained(c.scope, p.scope, params, ctx);
    }
  }

  ghost predicate ContainedFor(parent: seq<Capability>, child: seq<Capability>, action: string) {
    forall params, ctx :: ValidContext(ctx) && Permits(child, action, params, ctx) ==>
      Permits(parent, action, params, ctx)
  }

  /** A request under the action that a leaking child permits and its parent does not: any one that the child
      permits, moved to the moment of the leak. */
  lemma LeakBreaks(
    parent: seq<Capability>, child: seq<Capability>, c: Capability, p: Capability, params: Params, ctx: Context)
    returns (moved: Context)
    requires DistinctDimensions(child) && c in child && p in parent && p.action == c.action
    requires LeakyPair(c.scope, p.scope) && Permits(child, c.action, params, ctx)
    ensures ValidContext(moved) && Permits(child, c.action, params, moved) && !Permits(parent, c.action, params, moved)
  {
    var t := LeakWitness(c.scope.recurring.value, p.scope.recurring.value);
    moved := ctx.(local := (tz: string) => Some(t));
    forall x | x in child && x.action == c.action ensures Evaluates(x.scope, params, moved) {
      assert Evaluates(x.scope, params, ctx);
      if x.scope.Temporal? { SameDimensionSame(child, x, c); }
    }
    assert !Evaluates(p.scope, params, moved);
  }

  /** Some request under the action passes, at some time and for some running totals. */
  ghost predicate Grantable(caps: seq<Capability>, action: string) {
    exists params, ctx :: ValidContext(ctx) && Permits(caps, action, params, ctx)
  }

  /** Leak-freedom is exact for lists: an action of an accepted child is contained in the parent if and only if
      no window pair under it leaks, or the child grants it to no request at all. */
  lemma ContainmentIsLeakFreedom(parent: seq<Capability>, child: seq<Capability>, action: string)
    requires Attenuates(parent, child)
    ensures ContainedFor(parent, child, action) <==>
      LeakFreeFor(parent, child, action) || !Grantable(child, action)
  {
    if LeakFreeFor(parent, child, action) {
      forall params, ctx | ValidContext(ctx) && Permits(child, action, params, ctx)
        ensures Permits(parent, action, params, ctx)
      {
        AttenuationContains(parent, child, action, params, ctx);
      }
    } else if Grantable(child, action) {
      var c, p :| c in child && p in parent && c.action == action == p.action && LeakyPair(c.scope, p.scope);
      var params, ctx :| ValidContext(ctx) && Permits(child, action, params, ctx);
      var moved := LeakBreaks(parent, child, c, p, params, ctx);
    }
  }

  // ------------------------------------------------------------------ which actions are granted at all

  /** Some request passes the scope on its own. */
  predicate Passable(s: Scope) {
    match s
    case Allowlist(_, values) => values != []
    case NumericLimit(_, _, _) => true
    case Temporal(notBefore, notAfter, w) =>
      notBefore < notAfter && (w.Some? ==> WellFormed(w.value) && Inhabited(w.value))
    case Cumulative(m, _, _, _) =>
      m.source == "action_record" && (m.metric == "api_call_count" || m.metric == "transaction_amount")
    case Unknown(_) => true
  }

  /** `a` wants text where `b` wants a number. */
  predicate Clash(a: Scope, b: Scope) {
    && a.Allowlist?
    && ((b.NumericLimit? && b.field == a.field) ||
        (b.Cumulative? && b.meterField.metric == "transaction_amount" && a.field == "amount"))
  }

  predicate AllPassable(caps: seq<Capability>, action: string) {
    forall c :: c in caps && c.action == action ==> Passable(c.scope)
  }

  predicate NoClash(caps: seq<Capability>, action: string) {
    forall c, d :: c in caps && d in caps && c.action == action == d.action ==> !Clash(c.scope, d.scope)
  }

  lemma PermittedIsPassable(s: Scope, params: Params, ctx: Context)
    requires ValidContext(ctx) && Evaluates(s, params, ctx)
    ensures Passable(s)
  {
    if s.Temporal? && s.recurring.Some? {
      ActiveIsInhabited(s.recurring.value, ctx.local(s.recurring.value.timezone).value);
    }
  }

  /** A text that the first candidate of an allowlist matches. */
  function Sample(values: seq<string>): string
    requires values != []
  {
    if |values[0]| > 1 && values[0][0] == '*' then values[0][1..] else values[0]
  }

  lemma SampleMatches(values: seq<string>)
    requires values != []
    ensures exists v :: v in values && MatchesCandidate(Sample(values), v)
  {
    assert values[0] in values && MatchesCandidate(Sample(values), values[0]);
  }

  /** At most zero and at most every bound in the list. */
  function Lowest(caps: seq<Capability>): real {
    if caps == [] then 0.0 else
      var rest := Lowest(caps[1..]);
      if (caps[0].scope.NumericLimit? || caps[0].scope.Cumulative?) && caps[0].scope.max < rest
      then caps[0].scope.max else rest
  }

  lemma {:induction false} LowestBounds(caps: seq<Capability>, c: Capability)
    ensures Lowest(caps) <= 0.0
    ensures c in caps && (c.scope.NumericLimit? || c.scope.Cumulative?) ==> Lowest(caps) <= c.scope.max
  {
    if caps != [] {
      LowestBounds(caps[1..], c);
      assert c in caps ==> c == caps[0] || c in caps[1..];
    }
  }

  predicate AllowsField(caps: seq<Capability>, action: string, field: string, c: Capability) {
    c in caps && c.action == action && c.scope.Allowlist? && c.scope.field == field && c.scope.values != []
  }

  ghost function TextFor(caps: seq<Capability>, action: string, field: string): string {
    if exists c :: AllowsField(caps, action, field, c)
    then var c :| AllowsField(caps, action, field, c); Sample(c.scope.values)
    else ""
  }

  function TextFields(caps: seq<Capability>, action: string): set<string> {
    set c | c in caps && c.action == action && c.scope.Allowlist? :: c.scope.field
  }

  /** A sample text in every field under an allowlist, and the lowest bound as the amount. */
  ghost function Request(caps: seq<Capability>, action: string): Params {
    map field | field in TextFields(caps, action) + {"amount"} ::
      if field in TextFields(caps, action) then Text(TextFor(caps, action, field)) else Number(Lowest(caps))
  }

  /** A moment at which the temporal scope of the action, if there is one, is open; totals below every bound. */
  lemma OpenMoment(caps: seq<Capability>, action: string) returns (ctx: Context)
    requires DistinctDimensions(caps) && AllPassable(caps, action)
    ensures ValidContext(ctx) && ctx.spent == Some((m: MeterField, w: Period) => Lowest(caps) - 1.0)
    ensures forall kind :: ctx.plugin(kind)
    ensures forall c, params :: c in caps && c.action == action && c.scope.Temporal? ==>
      Evaluates(c.scope, params, ctx)
  {
    var t, now := LocalTime(1, 0), 0;
    if c :| c in caps && c.action == action && c.scope.Temporal? {
      assert Passable(c.scope);
      now := c.scope.notBefore;
      if c.scope.recurring.Some? { t := InhabitedIsActive(c.scope.recurring.value); }
      forall x | x in caps && x.action == action && x.scope.Temporal? ensures x == c {
        SameDimensionSame(caps, x, c);
      }
    }
    ctx := Context(now, (tz: string) => Some(t), Some((m: MeterField, w: Period) => Lowest(caps) - 1.0),
      (kind: string) => true);
  }

  lemma RequestPasses(caps: seq<Capability>, action: string, c: Capability, ctx: Context)
    requires DistinctDimensions(caps) && AllPassable(caps, action) && NoClash(caps, action)
    requires c in caps && c.action == action && !c.scope.Temporal?
    requires ctx.spent == Some((m: MeterField, w: Period) => Lowest(caps) - 1.0) && forall kind :: ctx.plugin(kind)
    ensures Evaluates(c.scope, Request(caps, action), ctx)
  {
    assert Passable(c.scope);
    LowestBounds(caps, c);
    match c.scope
    case Allowlist(field, values) =>
      assert AllowsField(caps, action, field, c);
      forall x | AllowsField(caps, action, field, x) ensures x == c {
        SameDimensionSame(caps, x, c);
      }
      SampleMatches(values);
    case NumericLimit(field, _, _) =>
      NoTextIn(caps, action, field, c);
    case Cumulative(m, _, _, _) =>
      if m.metric == "transaction_amount" { NoTextIn(caps, action, "amount", c); }
    case _ =>
  }

  lemma NoTextIn(caps: seq<Capability>, action: string, field: string, d: Capability)
    requires NoClash(caps, action) && d in caps && d.action == action
    requires (d.scope.NumericLimit? && d.scope.field == field) ||
      (d.scope.Cumulative? && d.scope.meterField.metric == "transaction_amount" && field == "amount")
    ensures field !in TextFields(caps, action)
  {
    forall c | c in caps && c.action == action && c.scope.Allowlist? ensures c.scope.field != field {
      assert !Clash(c.scope, d.scope);
    }
  }

  /** A list without repeated dimensions grants an action to some request if and only if it names the action,
      every scope under it can be passed on its own, and no field is wanted both as text and as a number. */
  lemma GrantableMeaning(caps: seq<Capability>, action: string)
    requires DistinctDimensions(caps)
    ensures Grantable(caps, action) <==> HasAction(caps, action) && AllPassable(caps, action) && NoClash(caps, action)
  {
    if Grantable(caps, action) {
      var params, ctx :| ValidContext(ctx) && Permits(caps, action, params, ctx);
      forall c | c in caps && c.action == action ensures Passable(c.scope) && Evaluates(c.scope, params, ctx) {
        PermittedIsPassable(c.scope, params, ctx);
      }
    }
    if HasAction(caps, action) && AllPassable(caps, action) && NoClash(caps, action) {
      var ctx := OpenMoment(caps, action);
      forall c | c in caps && c.action == action ensures Evaluates(c.scope, Request(caps, action), ctx) {
        if !c.scope.Temporal? { RequestPasses(caps, action, c, ctx); }
      }
      assert Permits(caps, action, Request(caps, action), ctx);
    }
  }

  // ------------------------------------------------------------------ the procedure

  datatype Versions = Versions(parent: string, child: string)

  datatype AttenuationResult = Accepted | Rejected(mixedVersion: bool, detail: Detail)

  function OnSide(side: Side, parent: seq<Capability>, child: seq<Capability>): seq<Capability> {
    if side.Parent? then parent else child
  }

  predicate IsDimension(c: Capability, action: string, dimension: string) {
    c.action == action && ScopeMatchKey(c.scope) == dimension
  }

  predicate Repeats(caps: seq<Capability>, action: string, dimension: string) {
    exists i, j :: 0 <= i < j < |caps| && IsDimension(caps[i], action, dimension) &&
      IsDimension(caps[j], action, dimension)
  }

  /** The checks run in a fixed order, and the first one to fail is reported. */
  predicate ReportedFirst(d: Detail, parent: seq<Capability>, child: seq<Capability>) {
    match d
    case EmptyAllowlist(side, _, _) => side.Child? ==> NoEmptyAllowlist(parent)
    case DuplicateDimension(side, _, _) =>
      NoEmptyAllowlist(parent) && NoEmptyAllowlist(child) && (side.Child? ==> DistinctDimensions(parent))
    case _ => PreChecked(parent, child) && (FirstMissingAction(d, parent, child) || FirstBrokenAction(d, parent, child))
  }

  /** Rule 1: the first action of the child that the parent lacks. */
  predicate FirstMissingAction(d: Detail, parent: seq<Capability>, child: seq<Capability>) {
    exists i :: 0 <= i < |child| && MissesFirst(d, parent, child, i)
  }

  predicate MissesFirst(d: Detail, parent: seq<Capability>, child: seq<Capability>, i: nat)
    requires i < |child|
  {
    && d == MissingDimension(child[i].action) && !HasAction(parent, child[i].action)
    && forall j :: 0 <= j < i ==> HasAction(parent, child[j].action)
  }

  /** The distinct actions in the order of their first occurrence. */
  function Actions(caps: seq<Capability>): seq<string>
    decreases |caps|
  {
    if caps == [] then [] else
      var last := |caps| - 1;
      var before := Actions(caps[..last]);
      if caps[last].action in before then before else before + [caps[last].action]
  }

  /** Rule 2: no action is missing, and the first action that fails is reported. */
  predicate FirstBrokenAction(d: Detail, parent: seq<Capability>, child: seq<Capability>) {
    && (forall c :: c in child ==> HasAction(parent, c.action))
    && exists i :: 0 <= i < |Actions(child)| && BreaksFirst(d, parent, child, i)
  }

  predicate BreaksFirst(d: Detail, parent: seq<Capability>, child: seq<Capability>, i: nat)
    requires i < |Actions(child)|
  {
    var order := Actions(child);
    && (forall j :: 0 <= j < i ==> ActionAttenuates(ScopesOf(parent, order[j]), ScopesOf(child, order[j])))
    && FirstInAction(d, ScopesOf(parent, order[i]), ScopesOf(child, order[i]))
  }

  /** Within an action, the first parent dimension that is missing or not narrowed; if there is none, the
      first dimension that the child introduces. */
  predicate FirstInAction(d: Detail, ps: seq<Scope>, cs: seq<Scope>) {
    FirstFailure(d, ps, cs) || (NarrowedUpTo(ps, cs, |ps|) && FirstIntroduction(d, ps, cs))
  }

  predicate FirstFailure(d: Detail, ps: seq<Scope>, cs: seq<Scope>) {
    exists k :: 0 <= k < |ps| && FailsFirst(d, ps, cs, k)
  }

  predicate FirstIntroduction(d: Detail, ps: seq<Scope>, cs: seq<Scope>) {
    exists k :: 0 <= k < |cs| && IntroducesFirst(d, ps, cs, k)
  }

  /** The first `k` parent dimensions are narrowed. */
  predicate NarrowedUpTo(ps: seq<Scope>, cs: seq<Scope>, k: nat)
    requires k <= |ps|
  {
    forall j {:trigger Narrowed(cs, ps[j])} :: 0 <= j < k ==> Narrowed(cs, ps[j])
  }

  /** The first `k` child dimensions are the parent's too. */
  predicate KnownUpTo(ps: seq<Scope>, cs: seq<Scope>, k: nat)
    requires k <= |cs|
  {
    forall j {:trigger HasKey(ps, ScopeMatchKey(cs[j]))} :: 0 <= j < k ==> HasKey(ps, ScopeMatchKey(cs[j]))
  }

  predicate FailsFirst(d: Detail, ps: seq<Scope>, cs: seq<Scope>, k: nat)
    requires k < |ps|
  {
    FailureOf(d, ps[k], cs) && NarrowedUpTo(ps, cs, k)
  }

  predicate FailureOf(d: Detail, p: Scope, cs: seq<Scope>) {
    if HasKey(cs, ScopeMatchKey(p)) then
      exists c :: c in cs && ScopeMatchKey(c) == ScopeMatchKey(p) && IsScopeSubset(c, p) == Some(d)
    else d == MissingDimension(ScopeMatchKey(p))
  }

  predicate IntroducesFirst(d: Detail, ps: seq<Scope>, cs: seq<Scope>, k: nat)
    requires k < |cs|
  {
    d == IntroducedDimension(ScopeMatchKey(cs[k])) && !HasKey(ps, ScopeMatchKey(cs[k])) && KnownUpTo(ps, cs, k)
  }

  predicate LosesPhase2(v: Option<Versions>, s: Scope) {
    v.Some? && v.value.parent == "0.2.0" && v.value.child == "0.1.0" && IsPhase2(s)
  }

  predicate GainsPhase2(v: Option<Versions>, s: Scope) {
    v.Some? && v.value.parent == "0.1.0" && v.value.child == "0.2.0" && IsPhase2(s)
  }

  predicate Explains(r: AttenuationResult, parent: seq<Capability>, child: seq<Capability>, v: Option<Versions>)
    requires r.Rejected?
  {
    match r.detail
    case EmptyAllowlist(side, action, field) =>
      !r.mixedVersion && Capability(action, Allowlist(field, [])) in OnSide(side, parent, child)
    case DuplicateDimension(side, action, dimension) =>
      !r.mixedVersion && Repeats(OnSide(side, parent, child), action, dimension)
    case MissingDimension(dimension) =>
      || (!r.mixedVersion && HasAction(child, dimension) && !HasAction(parent, dimension))
      || exists p :: p in parent && ScopeMatchKey(p.scope) == dimension && HasAction(child, p.action) &&
          !HasDimension(child, p) &&
          r.mixedVersion == (v == Some(Versions("0.2.0", "0.1.0")) && (p.scope.Temporal? || p.scope.Cumulative?))
    case IntroducedDimension(dimension) =>
      exists c :: c in child && ScopeMatchKey(c.scope) == dimension && !HasDimension(parent, c) &&
        r.mixedVersion == (v == Some(Versions("0.1.0", "0.2.0")) && (c.scope.Temporal? || c.scope.Cumulative?))
    case _ =>
      !r.mixedVersion && exists c, p ::
        c in child && p in parent && SameDimension(c, p) && IsScopeSubset(c.scope, p.scope) == Some(r.detail)
  }

  method FindEmptyAllowlist(side: Side, caps: seq<Capability>) returns (d: Option<Detail>)
    ensures d.None? <==> NoEmptyAllowlist(caps)
    ensures d.Some? ==>
      d.value.EmptyAllowlist? && d.value.side == side &&
        Capability(d.value.action, Allowlist(d.value.field, [])) in caps
  {
    for i := 0 to |caps|
      invariant NoEmptyAllowlist(caps[..i])
    {
      var c := caps[i];
      if IsEmptyAllowlist(c.scope) {
        assert c == Capability(c.action, Allowlist(c.scope.field, []));
        return Some(EmptyAllowlist(side, c.action, c.scope.field));
      }
      assert caps[..i + 1] == caps[..i] + [c];
    }
    assert caps[..|caps|] == caps;
    d := None;
  }

  /** The dimensions seen under an action among the first `n` capabilities. */
  ghost predicate Seen(caps: seq<Capability>, n: nat, action: string, key: string)
    requires n <= |caps|
  {
    exists i :: 0 <= i < n && caps[i].action == action && ScopeMatchKey(caps[i].scope) == key
  }

  method FindDuplicateDimension(side: Side, caps: seq<Capability>) returns (d: Option<Detail>)
    ensures d.None? <==> DistinctDimensions(caps)
    ensures d.Some? ==>
      d.value.DuplicateDimension? && d.value.side == side && Repeats(caps, d.value.action, d.value.dimension)
  {
    var seenByAction: map<string, set<string>> := map[];
    for n := 0 to |caps|
      invariant DistinctDimensions(caps[..n])
      invariant Indexes(seenByAction, caps, n)
    {
      var a, k := caps[n].action, ScopeMatchKey(caps[n].scope);
      var before := if a in seenByAction then seenByAction[a] else {};
      if k in before {
        SeenTwice(caps, n);
        return Some(DuplicateDimension(side, a, k));
      }
      IndexGrows(seenByAction, caps, n);
      seenByAction := seenByAction[a := before + {k}];
    }
    assert caps[..|caps|] == caps;
    d := None;
  }

  /** The index holds exactly the dimensions of the first `n` capabilities. */
  ghost predicate Indexes(m: map<string, set<string>>, caps: seq<Capability>, n: nat)
    requires n <= |caps|
  {
    && (forall i :: 0 <= i < n ==> caps[i].action in m && ScopeMatchKey(caps[i].scope) in m[caps[i].action])
    && (forall a, k :: a in m && k in m[a] ==> Seen(caps, n, a, k))
  }

  lemma SeenTwice(caps: seq<Capability>, n: nat)
    requires n < |caps| && Seen(caps, n, caps[n].action, ScopeMatchKey(caps[n].scope))
    ensures !DistinctDimensions(caps) && Repeats(caps, caps[n].action, ScopeMatchKey(caps[n].scope))
  {
    var i :| 0 <= i < n && caps[i].action == caps[n].action &&
      ScopeMatchKey(caps[i].scope) == ScopeMatchKey(caps[n].scope);
    assert SameDimension(caps[i], caps[n]);
    assert IsDimension(caps[i], caps[n].action, ScopeMatchKey(caps[n].scope));
    assert IsDimension(caps[n], caps[n].action, ScopeMatchKey(caps[n].scope));
  }

  lemma SeenStays(caps: seq<Capability>, n: nat, a: string, k: string)
    requires n < |caps| && Seen(caps, n, a, k)
    ensures Seen(caps, n + 1, a, k)
  {
  }

  lemma IndexGrows(m: map<string, set<string>>, caps: seq<Capability>, n: nat)
    requires n < |caps| && Indexes(m, caps, n) && DistinctDimensions(caps[..n])
    requires !(caps[n].action in m && ScopeMatchKey(caps[n].scope) in m[caps[n].action])
    ensures DistinctDimensions(caps[..n + 1])
    ensures var a := caps[n].action;
            Indexes(m[a := (if a in m then m[a] else {}) + {ScopeMatchKey(caps[n].scope)}], caps, n + 1)
  {
    var a0, k0 := caps[n].action, ScopeMatchKey(caps[n].scope);
    var m' := m[a0 := (if a0 in m then m[a0] else {}) + {k0}];
    forall a, k | a in m' && k in m'[a] ensures Seen(caps, n + 1, a, k) {
      if a in m && k in m[a] { SeenStays(caps, n, a, k); }
    }
    forall i, j | 0 <= i < j < n + 1 ensures !SameDimension(caps[i], caps[j]) {
      if j < n { assert !SameDimension(caps[..n][i], caps[..n][j]); }
    }
  }

  function ScopesOf(caps: seq<Capability>, action: string): seq<Scope>
    decreases |caps|
  {
    if caps == [] then [] else
      var last := |caps| - 1;
      ScopesOf(caps[..last], action) + (if caps[last].action == action then [caps[last].scope] else [])
  }

  lemma {:induction false} ScopesOfMembers(caps: seq<Capability>, action: string, s: Scope)
    ensures s in ScopesOf(caps, action) <==> Capability(action, s) in caps
    decreases |caps|
  {
    if caps != [] {
      var last := |caps| - 1;
      ScopesOfMembers(caps[..last], action, s);
      assert caps == caps[..last] + [caps[last]];
    }
  }

  predicate DistinctKeys(scopes: seq<Scope>) {
    forall i, j :: 0 <= i < j < |scopes| ==> ScopeMatchKey(scopes[i]) != ScopeMatchKey(scopes[j])
  }

  lemma {:induction false} ScopesOfDistinct(caps: seq<Capability>, action: string)
    requires DistinctDimensions(caps)
    ensures DistinctKeys(ScopesOf(caps, action))
    decreases |caps|
  {
    if caps != [] {
      var last := |caps| - 1;
      assert forall i, j :: 0 <= i < j < last ==> caps[..last][i] == caps[i] && caps[..last][j] == caps[j];
      ScopesOfDistinct(caps[..last], action);
      var before := ScopesOf(caps[..last], action);
      forall i | 0 <= i < |before|
        ensures caps[last].action == action ==> ScopeMatchKey(before[i]) != ScopeMatchKey(caps[last].scope)
      {
        ScopesOfMembers(caps[..last], action, before[i]);
        var j :| 0 <= j < last && caps[j] == Capability(action, before[i]);
        assert !SameDimension(caps[j], caps[last]);
      }
    }
  }

  /** What the map from action to scopes, and the list of its keys in insertion order, hold for `a`. */
  predicate IndexedAt(index: map<string, seq<Scope>>, order: seq<string>, caps: seq<Capability>, a: string) {
    && (a in index <==> HasAction(caps, a))
    && (a in order <==> a in index)
    && ScopesOf(caps, a) == if a in index then index[a] else []
  }

  ghost predicate IndexedUpTo(index: map<string, seq<Scope>>, order: seq<string>, caps: seq<Capability>) {
    forall a {:trigger IndexedAt(index, order, caps, a)} :: IndexedAt(index, order, caps, a)
  }

  lemma ActionStep(caps: seq<Capability>, n: nat, a: string)
    requires n < |caps|
    ensures HasAction(caps[..n + 1], a) <==> HasAction(caps[..n], a) || a == caps[n].action
    ensures ScopesOf(caps[..n + 1], a) == ScopesOf(caps[..n], a) + (if a == caps[n].action then [caps[n].scope] else [])
  {
    assert caps[..n + 1][..n] == caps[..n] && caps[..n + 1] == caps[..n] + [caps[n]];
    if a == caps[n].action { assert caps[n] in caps[..n + 1]; }
    if HasAction(caps[..n], a) {
      var c :| c in caps[..n] && c.action == a;
      assert c in caps[..n + 1];
    }
  }

  lemma IndexStep(index: map<string, seq<Scope>>, order: seq<string>, caps: seq<Capability>, n: nat)
    requires n < |caps| && IndexedUpTo(index, order, caps[..n])
    ensures var a := caps[n].action;
            var scopes := (if a in index then index[a] else []) + [caps[n].scope];
            IndexedUpTo(index[a := scopes], if a in index then order else order + [a], caps[..n + 1])
  {
    var a0 := caps[n].action;
    var index' := index[a0 := (if a0 in index then index[a0] else []) + [caps[n].scope]];
    var order' := if a0 in index then order else order + [a0];
    assert IndexedAt(index, order, caps[..n], a0);
    var caps' := caps[..n + 1];
    forall a ensures IndexedAt(index', order', caps', a) {
      assert IndexedAt(index, order, caps[..n], a);
      ActionStep(caps, n, a);
    }
  }

  method IndexByAction(caps: seq<Capability>) returns (index: map<string, seq<Scope>>, order: seq<string>)
    ensures IndexedUpTo(index, order, caps) && order == Actions(caps)
  {
    index, order := map[], [];
    assert forall a :: IndexedAt(index, order, caps[..0], a);
    for n := 0 to |caps|
      invariant IndexedUpTo(index, order, caps[..n]) && order == Actions(caps[..n])
    {
      IndexStep(index, order, caps, n);
      var a := caps[n].action;
      assert caps[..n + 1][..n] == caps[..n] && IndexedAt(index, order, caps[..n], a);
      if a !in index { order := order + [a]; }
      index := index[a := (if a in index then index[a] else []) + [caps[n].scope]];
    }
    assert caps[..|caps|] == caps;
  }

  predicate KeyedAt(m: map<string, Scope>, scopes: seq<Scope>, k: string) {
    k in m ==> m[k] in scopes && ScopeMatchKey(m[k]) == k
  }

  predicate Holds(m: map<string, Scope>, s: Scope) {
    ScopeMatchKey(s) in m && m[ScopeMatchKey(s)] == s
  }

  ghost predicate Keyed(m: map<string, Scope>, scopes: seq<Scope>) {
    && (forall k {:trigger KeyedAt(m, scopes, k)} :: KeyedAt(m, scopes, k))
    && (forall s {:trigger Holds(m, s)} :: s in scopes ==> Holds(m, s))
  }

  method ByDimension(scopes: seq<Scope>) returns (m: map<string, Scope>)
    requires DistinctKeys(scopes)
    ensures Keyed(m, scopes)
  {
    m := map[];
    for n := 0 to |scopes|
      invariant forall k :: KeyedAt(m, scopes, k)
      invariant forall i :: 0 <= i < n ==> Holds(m, scopes[i])
    {
      ghost var before := m;
      m := m[ScopeMatchKey(scopes[n]) := scopes[n]];
      forall k ensures KeyedAt(m, scopes, k) {
        assert KeyedAt(before, scopes, k);
      }
    }
  }

  // one action at a time

  predicate HasKey(scopes: seq<Scope>, k: string) {
    exists s :: s in scopes && ScopeMatchKey(s) == k
  }

  predicate Narrowed(childScopes: seq<Scope>, p: Scope) {
    exists c :: c in childScopes && ScopeMatchKey(c) == ScopeMatchKey(p) && Narrows(c, p)
  }

  predicate ActionAttenuates(parentScopes: seq<Scope>, childScopes: seq<Scope>) {
    && (forall p {:trigger Narrowed(childScopes, p)} :: p in parentScopes ==> Narrowed(childScopes, p))
    && (forall c {:trigger HasKey(parentScopes, ScopeMatchKey(c))} :: c in childScopes ==>
        HasKey(parentScopes, ScopeMatchKey(c)))
  }

  predicate ActionExplains(r: AttenuationResult, parentScopes: seq<Scope>, childScopes: seq<Scope>, v: Option<Versions>)
    requires r.Rejected?
  {
    match r.detail
    case MissingDimension(dimension) =>
      exists p :: p in parentScopes && ScopeMatchKey(p) == dimension && !HasKey(childScopes, dimension) &&
        r.mixedVersion == LosesPhase2(v, p)
    case IntroducedDimension(dimension) =>
      exists c :: c in childScopes && ScopeMatchKey(c) == dimension && !HasKey(parentScopes, dimension) &&
        r.mixedVersion == GainsPhase2(v, c)
    case EmptyAllowlist(_, _, _) => false
    case DuplicateDimension(_, _, _) => false
    case _ =>
      !r.mixedVersion && exists c, p ::
        c in childScopes && p in parentScopes && ScopeMatchKey(c) == ScopeMatchKey(p) &&
        IsScopeSubset(c, p) == Some(r.detail)
  }

  lemma KeyedLookup(m: map<string, Scope>, scopes: seq<Scope>, k: string)
    requires Keyed(m, scopes)
    ensures k in m <==> HasKey(scopes, k)
  {
    assert KeyedAt(m, scopes, k);
    if HasKey(scopes, k) {
      var s :| s in scopes && ScopeMatchKey(s) == k;
      assert Holds(m, s);
    }
  }

  lemma NarrowedLookup(m: map<string, Scope>, scopes: seq<Scope>, p: Scope)
    requires Keyed(m, scopes)
    ensures Narrowed(scopes, p) <==> ScopeMatchKey(p) in m && Narrows(m[ScopeMatchKey(p)], p)
  {
    assert KeyedAt(m, scopes, ScopeMatchKey(p));
    if Narrowed(scopes, p) {
      var c :| c in scopes && ScopeMatchKey(c) == ScopeMatchKey(p) && Narrows(c, p);
      assert Holds(m, c);
    }
  }

  predicate IsSubsetDetail(d: Detail) {
    !d.MissingDimension? && !d.IntroducedDimension? && !d.EmptyAllowlist? && !d.DuplicateDimension?
  }

  lemma SubsetDetailKind(c: Scope, p: Scope)
    ensures IsScopeSubset(c, p).Some? ==> IsSubsetDetail(IsScopeSubset(c, p).value)
  {
  }

  /** What is reported about one dimension of the parent. */
  predicate ParentRejected(r: AttenuationResult, p: Scope, cs: seq<Scope>, v: Option<Versions>)
    requires r.Rejected?
  {
    FailureOf(r.detail, p, cs) && r.mixedVersion == (!HasKey(cs, ScopeMatchKey(p)) && LosesPhase2(v, p))
  }

  /** What is reported about one dimension of the child. */
  predicate ChildRejected(r: AttenuationResult, c: Scope, v: Option<Versions>)
    requires r.Rejected?
  {
    r.detail == IntroducedDimension(ScopeMatchKey(c)) && r.mixedVersion == GainsPhase2(v, c)
  }

  /** Rules 2a and 2b for one dimension of the parent: present and narrowed. */
  method CheckParentDimension(cs: seq<Scope>, p: Scope, childDims: map<string, Scope>, v: Option<Versions>)
    returns (r: AttenuationResult)
    requires Keyed(childDims, cs)
    ensures r.Accepted? <==> Narrowed(cs, p)
    ensures r.Rejected? ==> ParentRejected(r, p, cs, v)
  {
    var k := ScopeMatchKey(p);
    NarrowedLookup(childDims, cs, p);
    KeyedLookup(childDims, cs, k);
    if k !in childDims { return Rejected(LosesPhase2(v, p), MissingDimension(k)); }
    var subset := IsScopeSubset(childDims[k], p);
    assert KeyedAt(childDims, cs, k);
    if subset.Some? { return Rejected(false, subset.value); }
    r := Accepted;
  }

  method CheckParentDimensions(ps: seq<Scope>, cs: seq<Scope>, childDims: map<string, Scope>, v: Option<Versions>)
    returns (r: AttenuationResult, at: nat)
    requires Keyed(childDims, cs)
    ensures r.Accepted? ==> NarrowedUpTo(ps, cs, |ps|)
    ensures r.Rejected? ==>
      at < |ps| && !Narrowed(cs, ps[at]) && ParentRejected(r, ps[at], cs, v) && NarrowedUpTo(ps, cs, at)
  {
    at := 0;
    while at < |ps|
      invariant at <= |ps| && NarrowedUpTo(ps, cs, at)
    {
      r := CheckParentDimension(cs, ps[at], childDims, v);
      if r.Rejected? { return; }
      at := at + 1;
    }
    r := Accepted;
  }

  /** Rule 2c: the child introduces no dimension. */
  method CheckChildDimensions(ps: seq<Scope>, cs: seq<Scope>, parentDims: map<string, Scope>, v: Option<Versions>)
    returns (r: AttenuationResult, at: nat)
    requires Keyed(parentDims, ps)
    ensures r.Accepted? ==> KnownUpTo(ps, cs, |cs|)
    ensures r.Rejected? ==>
      at < |cs| && !HasKey(ps, ScopeMatchKey(cs[at])) && ChildRejected(r, cs[at], v) && KnownUpTo(ps, cs, at)
  {
    at := 0;
    while at < |cs|
      invariant at <= |cs| && KnownUpTo(ps, cs, at)
    {
      var k := ScopeMatchKey(cs[at]);
      KeyedLookup(parentDims, ps, k);
      if k !in parentDims { return Rejected(GainsPhase2(v, cs[at]), IntroducedDimension(k)), at; }
      at := at + 1;
    }
    r := Accepted;
  }

  lemma ParentReport(r: AttenuationResult, ps: seq<Scope>, cs: seq<Scope>, k: nat, v: Option<Versions>)
    requires k < |ps| && r.Rejected? && !Narrowed(cs, ps[k]) && ParentRejected(r, ps[k], cs, v)
    requires NarrowedUpTo(ps, cs, k)
    ensures !ActionAttenuates(ps, cs) && FirstInAction(r.detail, ps, cs) && ActionExplains(r, ps, cs, v)
  {
    assert FailsFirst(r.detail, ps, cs, k);
    if HasKey(cs, ScopeMatchKey(ps[k])) {
      var c :| c in cs && ScopeMatchKey(c) == ScopeMatchKey(ps[k]) && IsScopeSubset(c, ps[k]) == Some(r.detail);
      SubsetDetailKind(c, ps[k]);
    }
  }

  lemma ChildReport(r: AttenuationResult, ps: seq<Scope>, cs: seq<Scope>, k: nat, v: Option<Versions>)
    requires k < |cs| && r.Rejected? && !HasKey(ps, ScopeMatchKey(cs[k])) && ChildRejected(r, cs[k], v)
    requires KnownUpTo(ps, cs, k) && NarrowedUpTo(ps, cs, |ps|)
    ensures !ActionAttenuates(ps, cs) && FirstInAction(r.detail, ps, cs) && ActionExplains(r, ps, cs, v)
  {
    assert IntroducesFirst(r.detail, ps, cs, k);
    assert cs[k] in cs;
  }

  lemma AllAgree(ps: seq<Scope>, cs: seq<Scope>)
    requires NarrowedUpTo(ps, cs, |ps|) && KnownUpTo(ps, cs, |cs|)
    ensures ActionAttenuates(ps, cs)
  {
    forall p | p in ps ensures Narrowed(cs, p) {
      var j :| 0 <= j < |ps| && ps[j] == p;
      assert Narrowed(cs, ps[j]);
    }
    forall c | c in cs ensures HasKey(ps, ScopeMatchKey(c)) {
      var j :| 0 <= j < |cs| && cs[j] == c;
      assert HasKey(ps, ScopeMatchKey(cs[j]));
    }
  }

  method CompareScopes(ps: seq<Scope>, cs: seq<Scope>, v: Option<Versions>) returns (r: AttenuationResult)
    requires DistinctKeys(ps) && DistinctKeys(cs)
    ensures r.Accepted? <==> ActionAttenuates(ps, cs)
    ensures r.Rejected? ==> ActionExplains(r, ps, cs, v) && FirstInAction(r.detail, ps, cs)
  {
    var childDims := ByDimension(cs);
    var parentDims := ByDimension(ps);
    var at: nat;
    r, at := CheckParentDimensions(ps, cs, childDims, v);
    if r.Rejected? {
      ParentReport(r, ps, cs, at, v);
      return;
    }
    r, at := CheckChildDimensions(ps, cs, parentDims, v);
    if r.Rejected? {
      ChildReport(r, ps, cs, at, v);
    } else {
      AllAgree(ps, cs);
    }
  }

  // all actions

  lemma ActionOfAttenuation(parent: seq<Capability>, child: seq<Capability>, a: string)
    requires Attenuates(parent, child) && HasAction(child, a)
    ensures HasAction(parent, a) && ActionAttenuates(ScopesOf(parent, a), ScopesOf(child, a))
  {
    CoveredAction(parent, child, a);
    forall p | p in ScopesOf(parent, a) ensures Narrowed(ScopesOf(child, a), p) {
      ScopesOfMembers(parent, a, p);
      ParentNarrowed(parent, child, a, p);
    }
    forall c | c in ScopesOf(child, a) ensures HasKey(ScopesOf(parent, a), ScopeMatchKey(c)) {
      ScopesOfMembers(child, a, c);
      ChildHasKey(parent, child, a, c);
    }
  }

  lemma ParentNarrowed(parent: seq<Capability>, child: seq<Capability>, a: string, p: Scope)
    requires Attenuates(parent, child) && HasAction(child, a) && Capability(a, p) in parent
    ensures Narrowed(ScopesOf(child, a), p)
  {
    var c := CoveringChild(parent, child, Capability(a, p));
    assert c == Capability(a, c.scope);
    ScopesOfMembers(child, a, c.scope);
  }

  lemma ChildHasKey(parent: seq<Capability>, child: seq<Capability>, a: string, c: Scope)
    requires AllCovered(parent, child) && Capability(a, c) in child
    ensures HasKey(ScopesOf(parent, a), ScopeMatchKey(c))
  {
    var d := Capability(a, c);
    assert Covered(parent, d);
    var p :| p in parent && SameDimension(d, p) && Narrows(d.scope, p.scope);
    assert p == Capability(a, p.scope);
    ScopesOfMembers(parent, a, p.scope);
  }

  lemma CoveredFromAction(parent: seq<Capability>, child: seq<Capability>, c: Capability)
    requires DistinctDimensions(child) && c in child
    requires ActionAttenuates(ScopesOf(parent, c.action), ScopesOf(child, c.action))
    ensures Covered(parent, c)
  {
    var a := c.action;
    assert c == Capability(a, c.scope);
    ScopesOfMembers(child, a, c.scope);
    assert HasKey(ScopesOf(parent, a), ScopeMatchKey(c.scope));
    var p :| p in ScopesOf(parent, a) && ScopeMatchKey(p) == ScopeMatchKey(c.scope);
    ScopesOfMembers(parent, a, p);
    assert Narrowed(ScopesOf(child, a), p);
    var d :| d in ScopesOf(child, a) && ScopeMatchKey(d) == ScopeMatchKey(p) && Narrows(d, p);
    ScopesOfMembers(child, a, d);
    SameDimensionSame(child, c, Capability(a, d));
    assert SameDimension(c, Capability(a, p));
  }

  lemma DimensionFromAction(parent: seq<Capability>, child: seq<Capability>, p: Capability)
    requires p in parent && ActionAttenuates(ScopesOf(parent, p.action), ScopesOf(child, p.action))
    ensures HasDimension(child, p)
  {
    var a := p.action;
    assert p == Capability(a, p.scope);
    ScopesOfMembers(parent, a, p.scope);
    assert Narrowed(ScopesOf(child, a), p.scope);
    var c :| c in ScopesOf(child, a) && ScopeMatchKey(c) == ScopeMatchKey(p.scope) && Narrows(c, p.scope);
    ScopesOfMembers(child, a, c);
    assert SameDimension(Capability(a, c), p);
  }

  predicate PreChecked(parent: seq<Capability>, child: seq<Capability>) {
    NoEmptyAllowlist(parent) && NoEmptyAllowlist(child) && DistinctDimensions(parent) && DistinctDimensions(child)
  }

  /** Deciding action by action decides attenuation. */
  lemma ActionsDecide(parent: seq<Capability>, child: seq<Capability>, order: seq<string>)
    requires PreChecked(parent, child) && forall a :: a in order <==> HasAction(child, a)
    requires forall i :: 0 <= i < |order| ==> ActionAttenuates(ScopesOf(parent, order[i]), ScopesOf(child, order[i]))
    ensures Attenuates(parent, child)
  {
    forall c | c in child ensures Covered(parent, c) {
      assert HasAction(child, c.action);
      var i :| 0 <= i < |order| && order[i] == c.action;
      CoveredFromAction(parent, child, c);
    }
    forall p | p in parent && HasAction(child, p.action) ensures HasDimension(child, p) {
      var i :| 0 <= i < |order| && order[i] == p.action;
      DimensionFromAction(parent, child, p);
    }
  }

  lemma ExplainAction(
    r: AttenuationResult, parent: seq<Capability>, child: seq<Capability>, a: string, v: Option<Versions>)
    requires r.Rejected? && HasAction(child, a) && ActionExplains(r, ScopesOf(parent, a), ScopesOf(child, a), v)
    ensures Explains(r, parent, child, v)
  {
    var ps, cs := ScopesOf(parent, a), ScopesOf(child, a);
    match r.detail
    case MissingDimension(dimension) =>
      var p :| p in ps && ScopeMatchKey(p) == dimension && !HasKey(cs, dimension) &&
        r.mixedVersion == LosesPhase2(v, p);
      ScopesOfMembers(parent, a, p);
      NoKeyNoDimension(child, Capability(a, p));
    case IntroducedDimension(dimension) =>
      var c :| c in cs && ScopeMatchKey(c) == dimension && !HasKey(ps, dimension) &&
        r.mixedVersion == GainsPhase2(v, c);
      ScopesOfMembers(child, a, c);
      NoKeyNoDimension(parent, Capability(a, c));
    case _ =>
      ExplainPair(r, parent, child, a, v);
  }

  lemma ExplainPair(
    r: AttenuationResult, parent: seq<Capability>, child: seq<Capability>, a: string, v: Option<Versions>)
    requires r.Rejected? && !r.detail.MissingDimension? && !r.detail.IntroducedDimension?
    requires ActionExplains(r, ScopesOf(parent, a), ScopesOf(child, a), v)
    ensures Explains(r, parent, child, v)
  {
    var ps, cs := ScopesOf(parent, a), ScopesOf(child, a);
    var c, p :| c in cs && p in ps && ScopeMatchKey(c) == ScopeMatchKey(p) && IsScopeSubset(c, p) == Some(r.detail);
    ScopesOfMembers(child, a, c);
    ScopesOfMembers(parent, a, p);
    assert SameDimension(Capability(a, c), Capability(a, p));
  }

  lemma NoKeyNoDimension(caps: seq<Capability>, d: Capability)
    requires !HasKey(ScopesOf(caps, d.action), ScopeMatchKey(d.scope))
    ensures !HasDimension(caps, d)
  {
    if HasDimension(caps, d) {
      var c :| c in caps && SameDimension(c, d);
      assert c == Capability(d.action, c.scope);
      ScopesOfMembers(caps, d.action, c.scope);
    }
  }

  /** Rule 1. */
  method FindMissingAction(
    parent: seq<Capability>, child: seq<Capability>, index: map<string, seq<Scope>>, ghost order: seq<string>)
    returns (missing: Option<string>)
    requires IndexedUpTo(index, order, parent)
    ensures missing.Some? ==> HasAction(child, missing.value) && !HasAction(parent, missing.value)
    ensures missing.Some? ==> FirstMissingAction(MissingDimension(missing.value), parent, child)
    ensures missing.None? ==> forall c :: c in child ==> HasAction(parent, c.action)
  {
    for i := 0 to |child|
      invariant forall j :: 0 <= j < i ==> HasAction(parent, child[j].action)
    {
      assert IndexedAt(index, order, parent, child[i].action);
      if child[i].action !in index {
        assert MissesFirst(MissingDimension(child[i].action), parent, child, i);
        return Some(child[i].action);
      }
    }
    missing := None;
  }

  method CompareInOrder(
    parentActions: map<string, seq<Scope>>, childActions: map<string, seq<Scope>>, order: seq<string>,
    v: Option<Versions>)
    returns (r: AttenuationResult, at: nat)
    requires forall j :: 0 <= j < |order| ==> Comparable(parentActions, childActions, order[j])
    ensures r.Accepted? ==> forall j :: 0 <= j < |order| ==> AgreesAt(parentActions, childActions, order[j])
    ensures r.Rejected? ==> at < |order| && BrokenAt(r, parentActions, childActions, order[at], v)
    ensures r.Rejected? ==> forall j :: 0 <= j < at ==> AgreesAt(parentActions, childActions, order[j])
  {
    at := 0;
    while at < |order|
      invariant at <= |order|
      invariant forall j :: 0 <= j < at ==> AgreesAt(parentActions, childActions, order[j])
    {
      r := CompareScopes(parentActions[order[at]], childActions[order[at]], v);
      if r.Rejected? { return; }
      at := at + 1;
    }
    r := Accepted;
  }

  predicate Comparable(parentActions: map<string, seq<Scope>>, childActions: map<string, seq<Scope>>, a: string) {
    a in parentActions && a in childActions && DistinctKeys(parentActions[a]) && DistinctKeys(childActions[a])
  }

  predicate AgreesAt(parentActions: map<string, seq<Scope>>, childActions: map<string, seq<Scope>>, a: string) {
    a in parentActions && a in childActions && ActionAttenuates(parentActions[a], childActions[a])
  }

  predicate BrokenAt(
    r: AttenuationResult, parentActions: map<string, seq<Scope>>, childActions: map<string, seq<Scope>>, a: string,
    v: Option<Versions>)
    requires r.Rejected?
  {
    && a in parentActions && a in childActions && !ActionAttenuates(parentActions[a], childActions[a])
    && ActionExplains(r, parentActions[a], childActions[a], v)
    && FirstInAction(r.detail, parentActions[a], childActions[a])
  }

  lemma AllComparable(
    parent: seq<Capability>, child: seq<Capability>, parentActions: map<string, seq<Scope>>, po: seq<string>,
    childActions: map<string, seq<Scope>>, order: seq<string>)
    requires PreChecked(parent, child) && IndexedUpTo(parentActions, po, parent)
    requires IndexedUpTo(childActions, order, child)
    requires forall c :: c in child ==> HasAction(parent, c.action)
    ensures forall j :: 0 <= j < |order| ==> Comparable(parentActions, childActions, order[j])
  {
    forall j | 0 <= j < |order| ensures Comparable(parentActions, childActions, order[j]) {
      var a := order[j];
      assert IndexedAt(childActions, order, child, a) && IndexedAt(parentActions, po, parent, a);
      ScopesOfDistinct(parent, a);
      ScopesOfDistinct(child, a);
      assert ScopesOf(parent, a) == parentActions[a] && ScopesOf(child, a) == childActions[a];
    }
  }

  lemma RejectedAction(
    r: AttenuationResult, parent: seq<Capability>, child: seq<Capability>, a: string, v: Option<Versions>)
    requires r.Rejected? && HasAction(child, a)
    requires !ActionAttenuates(ScopesOf(parent, a), ScopesOf(child, a))
    requires ActionExplains(r, ScopesOf(parent, a), ScopesOf(child, a), v)
    ensures !Attenuates(parent, child) && Explains(r, parent, child, v)
  {
    if Attenuates(parent, child) { ActionOfAttenuation(parent, child, a); }
    ExplainAction(r, parent, child, a, v);
  }

  lemma IndexedScopes(index: map<string, seq<Scope>>, order: seq<string>, caps: seq<Capability>, a: string)
    requires IndexedUpTo(index, order, caps) && a in index
    ensures ScopesOf(caps, a) == index[a] && HasAction(caps, a)
  {
    assert IndexedAt(index, order, caps, a);
  }

  method CompareActions(parent: seq<Capability>, child: seq<Capability>, v: Option<Versions>)
    returns (r: AttenuationResult)
    requires PreChecked(parent, child)
    ensures r.Accepted? <==> Attenuates(parent, child)
    ensures r.Rejected? ==> Explains(r, parent, child, v)
    ensures r.Rejected? ==> FirstMissingAction(r.detail, parent, child) || FirstBrokenAction(r.detail, parent, child)
  {
    var parentActions, parentOrder := IndexByAction(parent);
    var missing := FindMissingAction(parent, child, parentActions, parentOrder);
    if missing.Some? {
      NotParentAction(parent, child, missing.value);
      return Rejected(false, MissingDimension(missing.value));
    }
    var childActions, order := IndexByAction(child);
    r := CompareIndexed(parent, child, parentActions, parentOrder, childActions, order, v);
  }

  method CompareIndexed(
    parent: seq<Capability>, child: seq<Capability>, parentActions: map<string, seq<Scope>>,
    ghost parentOrder: seq<string>,
    childActions: map<string, seq<Scope>>, order: seq<string>, v: Option<Versions>)
    returns (r: AttenuationResult)
    requires PreChecked(parent, child) && IndexedUpTo(parentActions, parentOrder, parent)
    requires IndexedUpTo(childActions, order, child)
    requires order == Actions(child) && forall c :: c in child ==> HasAction(parent, c.action)
    ensures r.Accepted? <==> Attenuates(parent, child)
    ensures r.Rejected? ==> Explains(r, parent, child, v) && FirstBrokenAction(r.detail, parent, child)
  {
    AllComparable(parent, child, parentActions, parentOrder, childActions, order);
    var at;
    r, at := CompareInOrder(parentActions, childActions, order, v);
    forall j | 0 <= j < |order|
      ensures ScopesOf(parent, order[j]) == parentActions[order[j]] &&
        ScopesOf(child, order[j]) == childActions[order[j]] && HasAction(child, order[j])
    {
      IndexedScopes(parentActions, parentOrder, parent, order[j]);
      IndexedScopes(childActions, order, child, order[j]);
    }
    if r.Rejected? {
      RejectedAction(r, parent, child, order[at], v);
      assert BreaksFirst(r.detail, parent, child, at);
    } else {
      assert forall a :: a in order <==> HasAction(child, a) by {
        forall a ensures a in order <==> HasAction(child, a) { assert IndexedAt(childActions, order, child, a); }
      }
      ActionsDecide(parent, child, order);
    }
  }

  lemma NotParentAction(parent: seq<Capability>, child: seq<Capability>, a: string)
    requires HasAction(child, a) && !HasAction(parent, a)
    ensures !Attenuates(parent, child)
  {
    if Attenuates(parent, child) { CoveredAction(parent, child, a); }
  }

  /** Accepts exactly the attenuations, and a rejection names a reason that is true of the lists. The
      verdict does not depend on the versions; they only decide the mixed-version flag. */
  method ValidateAttenuation(parent: seq<Capability>, child: seq<Capability>, v: Option<Versions>)
    returns (r: AttenuationResult)
    ensures r.Accepted? <==> Attenuates(parent, child)
    ensures r.Rejected? ==> Explains(r, parent, child, v) && ReportedFirst(r.detail, parent, child)
  {
    var e := FindEmptyAllowlist(Parent, parent);
    if e.Some? { return Rejected(false, e.value); }
    e := FindEmptyAllowlist(Child, child);
    if e.Some? { return Rejected(false, e.value); }
    e := FindDuplicateDimension(Parent, parent);
    if e.Some? { return Rejected(false, e.value); }
    e := FindDuplicateDimension(Child, child);
    if e.Some? { return Rejected(false, e.value); }
    r := CompareActions(parent, child, v);
  }
}
