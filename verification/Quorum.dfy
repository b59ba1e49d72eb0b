/** Election of one identity document among the candidates that federated nodes returned.

    `fingerprint` is the hash of the canonical document; agreement on content is agreement on it.
    Alerts and counters are not modelled. */
module Quorum {
  import opened Common

  datatype Document = Document(version: Option<int>, content: string)

  datatype Candidate = Candidate(nodeId: string, document: Document)

  /** `Thrown` is the TypeError of reading the group of a version nobody has. */
  datatype Election = Elected(document: Document) | NoResult | Thrown

  function EffectiveVersion(d: Document): int {
    if d.version.Some? then d.version.value else 1
  }

  function VersionOf(c: Candidate): int {
    EffectiveVersion(c.document)
  }

  function QuorumThreshold(n: nat): nat {
    n / 2 + 1
  }

  // ------------------------------------------------------------------ groups

  /** The candidates of one version, in arrival order. */
  function Group(candidates: seq<Candidate>, v: int): (g: seq<Candidate>)
    ensures |g| <= |candidates|
  {
    if candidates == [] then [] else
      Joined(Group(candidates[..|candidates| - 1], v), candidates[|candidates| - 1], v)
  }

  function Joined(group: seq<Candidate>, c: Candidate, v: int): seq<Candidate> {
    if VersionOf(c) == v then group + [c] else group
  }

  lemma {:induction false} GroupMembers(candidates: seq<Candidate>, v: int)
    ensures forall c :: c in Group(candidates, v) <==> c in candidates && VersionOf(c) == v
  {
    if candidates != [] {
      var front := candidates[..|candidates| - 1];
      GroupMembers(front, v);
      assert candidates == front + [candidates[|candidates| - 1]];
    }
  }

  lemma {:induction false} GroupsAreDisjoint(candidates: seq<Candidate>, v: int, w: int)
    requires v != w
    ensures |Group(candidates, v)| + |Group(candidates, w)| <= |candidates|
  {
    if candidates != [] {
      GroupsAreDisjoint(candidates[..|candidates| - 1], v, w);
    }
  }

  lemma {:induction false} GroupCount(candidates: seq<Candidate>, v: int, c: Candidate)
    ensures multiset(Group(candidates, v))[c] == if VersionOf(c) == v then multiset(candidates)[c] else 0
  {
    if candidates != [] {
      var front := candidates[..|candidates| - 1];
      GroupCount(front, v, c);
      assert candidates == front + [candidates[|candidates| - 1]];
    }
  }

  lemma GroupPermuted(a: seq<Candidate>, b: seq<Candidate>, v: int)
    requires multiset(a) == multiset(b)
    ensures multiset(Group(a, v)) == multiset(Group(b, v)) && |Group(a, v)| == |Group(b, v)|
  {
    forall c: Candidate ensures multiset(Group(a, v))[c] == multiset(Group(b, v))[c] {
      GroupCount(a, v, c);
      GroupCount(b, v, c);
    }
    assert |multiset(Group(a, v))| == |Group(a, v)| && |multiset(Group(b, v))| == |Group(b, v)|;
  }

  predicate Qualifies(candidates: seq<Candidate>, v: int) {
    |Group(candidates, v)| >= QuorumThreshold(|candidates|)
  }

  /** Reaching the threshold is being held by a strict majority of the candidates. */
  lemma QualifiesIsMajority(candidates: seq<Candidate>, v: int)
    ensures Qualifies(candidates, v) <==> 2 * |Group(candidates, v)| > |candidates|
  {
  }

  /** At most one version can reach the threshold. */
  lemma AtMostOneQualifies(candidates: seq<Candidate>, v: int, w: int)
    requires Qualifies(candidates, v) && Qualifies(candidates, w)
    ensures v == w
  {
    if v != w {
      GroupsAreDisjoint(candidates, v, w);
    }
  }

  predicate Agree(group: seq<Candidate>, fingerprint: Document -> string) {
    forall i, j :: 0 <= i < |group| && 0 <= j < |group| ==>
      fingerprint(group[i].document) == fingerprint(group[j].document)
  }

  function FirstIfAgreed(group: seq<Candidate>, fingerprint: Document -> string): Election
    requires group != []
  {
    if Agree(group, fingerprint) then Elected(group[0].document) else NoResult
  }

  // ------------------------------------------------------------------ the election as a relation

  ghost predicate IsMaxVersion(candidates: seq<Candidate>, v: int) {
    (exists c :: c in candidates && VersionOf(c) == v) && forall c :: c in candidates ==> VersionOf(c) <= v
  }

  /** The first holder of the version if all its holders agree. */
  ghost predicate IsAgreed(candidates: seq<Candidate>, v: int, fingerprint: Document -> string, r: Election) {
    Group(candidates, v) != [] && r == FirstIfAgreed(Group(candidates, v), fingerprint)
  }

  /** What the election must return for three or more targets: the agreed document of the majority
      version, or nothing. */
  ghost predicate MajorityOutcome(candidates: seq<Candidate>, fingerprint: Document -> string, r: Election) {
    if exists v :: Qualifies(candidates, v) then
      exists v :: Qualifies(candidates, v) && IsAgreed(candidates, v, fingerprint, r)
    else r == NoResult
  }

  ghost predicate FallbackOutcome(candidates: seq<Candidate>, fingerprint: Document -> string, r: Election) {
    if candidates == [] then r == Thrown
    else exists v :: IsMaxVersion(candidates, v) && IsAgreed(candidates, v, fingerprint, r)
  }

  ghost predicate Outcome(candidates: seq<Candidate>, total: nat, fingerprint: Document -> string, r: Election) {
    if total < 3 then FallbackOutcome(candidates, fingerprint, r) else MajorityOutcome(candidates, fingerprint, r)
  }

  // ------------------------------------------------------------------ the procedure

  /** The map keeps its keys in insertion order. */
  method GroupByVersion(candidates: seq<Candidate>) returns (keys: seq<int>, byVersion: map<int, seq<Candidate>>)
    ensures forall v :: v in keys <==> v in byVersion
    ensures forall v :: v in byVersion <==> Group(candidates, v) != []
    ensures forall v :: v in byVersion ==> byVersion[v] == Group(candidates, v)
  {
    keys, byVersion := [], map[];
    var i := 0;
    while i < |candidates|
      invariant 0 <= i <= |candidates|
      invariant forall v :: v in keys <==> v in byVersion
      invariant forall v :: v in byVersion <==> Group(candidates[..i], v) != []
      invariant forall v :: v in byVersion ==> byVersion[v] == Group(candidates[..i], v)
    {
      var c := candidates[i];
      var v := VersionOf(c);
      GroupSnoc(candidates, i);
      var arr := if v in byVersion then byVersion[v] else [];
      if v !in byVersion {
        keys := keys + [v];
      }
      byVersion := byVersion[v := arr + [c]];
      i := i + 1;
    }
    assert candidates[..i] == candidates;
  }

  lemma GroupSnoc(candidates: seq<Candidate>, i: nat)
    requires i < |candidates|
    ensures forall v :: Group(candidates[..i + 1], v) == Joined(Group(candidates[..i], v), candidates[i], v)
  {
    assert candidates[..i + 1][..i] == candidates[..i];
  }

  method SelectByQuorum(candidates: seq<Candidate>, total: nat, fingerprint: Document -> string) returns (r: Election)
    ensures Outcome(candidates, total, fingerprint, r)
  {
    if total < 3 {
      r := SelectHighestVersionFallback(candidates, fingerprint);
      return;
    }
    var threshold := QuorumThreshold(|candidates|);
    var keys, byVersion := GroupByVersion(candidates);
    var qualified := QualifiedVersions(candidates, keys, byVersion, threshold);
    if qualified == [] {
      assert forall v :: Qualifies(candidates, v) ==> v in qualified;
      return NoResult;
    }
    var chosen := MaxOf(qualified);
    var winners := byVersion[chosen];
    assert Qualifies(candidates, chosen) && winners == Group(candidates, chosen);
    r := FirstIfAgreed(winners, fingerprint);
  }

  /** The versions whose group reaches the threshold. */
  method QualifiedVersions(
    candidates: seq<Candidate>, keys: seq<int>, byVersion: map<int, seq<Candidate>>, threshold: nat)
    returns (q: seq<int>)
    requires threshold == QuorumThreshold(|candidates|)
    requires forall v :: v in keys <==> v in byVersion
    requires forall v :: v in byVersion <==> Group(candidates, v) != []
    requires forall v :: v in byVersion ==> byVersion[v] == Group(candidates, v)
    ensures forall v :: v in q <==> Qualifies(candidates, v)
    ensures forall v :: v in q ==> v in byVersion
  {
    q := [];
    var i := 0;
    while i < |keys|
      invariant 0 <= i <= |keys|
      invariant forall v :: v in q <==> v in keys[..i] && Qualifies(candidates, v)
    {
      var v := keys[i];
      if |byVersion[v]| >= threshold {
        q := q + [v];
      }
      assert keys[..i + 1] == keys[..i] + [v];
      i := i + 1;
    }
    assert keys[..i] == keys;
  }

  method MaxOf(s: seq<int>) returns (m: int)
    requires s != []
    ensures m in s && forall x :: x in s ==> x <= m
  {
    m := s[0];
    var i := 1;
    while i < |s|
      invariant 1 <= i <= |s| && m in s && forall k :: 0 <= k < i ==> s[k] <= m
    {
      if s[i] > m {
        m := s[i];
      }
      i := i + 1;
    }
  }

  method SelectHighestVersionFallback(candidates: seq<Candidate>, fingerprint: Document -> string) returns (r: Election)
    ensures FallbackOutcome(candidates, fingerprint, r)
  {
    var keys, byVersion := GroupByVersion(candidates);
    if |candidates| == 0 {
      return Thrown;
    }
    var c0 := candidates[0];
    GroupMembers(candidates, VersionOf(c0));
    assert c0 in Group(candidates, VersionOf(c0));
    assert VersionOf(c0) in keys;
    var maxVersion := MaxOf(keys);
    var winners := byVersion[maxVersion];
    assert IsMaxVersion(candidates, maxVersion) by {
      GroupMembers(candidates, maxVersion);
      assert Group(candidates, maxVersion)[0] in Group(candidates, maxVersion);
      forall c | c in candidates ensures VersionOf(c) in keys {
        GroupMembers(candidates, VersionOf(c));
        assert c in Group(candidates, VersionOf(c));
      }
    }
    r := FirstIfAgreed(winners, fingerprint);
  }

  // ------------------------------------------------------------------ what the election guarantees

  /** With three or more targets, an elected document has a version held by a strict majority of
      the candidates, and all of its holders agree on its content. */
  lemma ElectedByMajority(candidates: seq<Candidate>, fingerprint: Document -> string, d: Document)
    requires MajorityOutcome(candidates, fingerprint, Elected(d))
    ensures 2 * |Group(candidates, EffectiveVersion(d))| > |candidates|
    ensures exists c :: c in candidates && c.document == d
    ensures forall c :: c in candidates && VersionOf(c) == EffectiveVersion(d) ==>
      fingerprint(c.document) == fingerprint(d)
  {
    var v :| Qualifies(candidates, v) && IsAgreed(candidates, v, fingerprint, Elected(d));
    var g := Group(candidates, v);
    GroupMembers(candidates, v);
    assert g[0] in g && g[0].document == d;
    AgreeWithFirst(g, fingerprint);
  }

  lemma AgreeWithFirst(g: seq<Candidate>, fingerprint: Document -> string)
    requires g != [] && Agree(g, fingerprint)
    ensures forall c :: c in g ==> fingerprint(c.document) == fingerprint(g[0].document)
  {
    forall c | c in g ensures fingerprint(c.document) == fingerprint(g[0].document) {
      var i :| 0 <= i < |g| && g[i] == c;
    }
  }

  /** All holders of the version have one content. */
  predicate HoldersAgree(candidates: seq<Candidate>, v: int, fingerprint: Document -> string) {
    forall c, d :: c in candidates && d in candidates && VersionOf(c) == v == VersionOf(d) ==>
      fingerprint(c.document) == fingerprint(d.document)
  }

  /** The document is that of the first candidate with the version. */
  predicate FirstHolder(candidates: seq<Candidate>, v: int, d: Document) {
    exists i :: 0 <= i < |candidates| && candidates[i].document == d && VersionOf(candidates[i]) == v &&
      forall j :: 0 <= j < i ==> VersionOf(candidates[j]) != v
  }

  lemma {:induction false} GroupHead(candidates: seq<Candidate>, v: int)
    requires Group(candidates, v) != []
    ensures FirstHolder(candidates, v, Group(candidates, v)[0].document)
  {
    var n := |candidates| - 1;
    var front := candidates[..n];
    GroupMembers(front, v);
    if Group(front, v) == [] {
      assert forall j :: 0 <= j < n ==> candidates[j] == front[j] && candidates[j] in front;
      assert forall j :: 0 <= j < n ==> VersionOf(candidates[j]) != v;
    } else {
      GroupHead(front, v);
      var i :| 0 <= i < |front| && front[i].document == Group(front, v)[0].document && VersionOf(front[i]) == v &&
        forall j :: 0 <= j < i ==> VersionOf(front[j]) != v;
      assert forall j :: 0 <= j <= i ==> candidates[j] == front[j];
    }
  }

  lemma AgreementMeaning(candidates: seq<Candidate>, v: int, fingerprint: Document -> string)
    ensures Agree(Group(candidates, v), fingerprint) <==> HoldersAgree(candidates, v, fingerprint)
  {
    var g := Group(candidates, v);
    GroupMembers(candidates, v);
    if Agree(g, fingerprint) && g != [] { AgreeWithFirst(g, fingerprint); }
    if HoldersAgree(candidates, v, fingerprint) {
      forall i, j | 0 <= i < |g| && 0 <= j < |g|
        ensures fingerprint(g[i].document) == fingerprint(g[j].document)
      {
        assert g[i] in g && g[j] in g;
      }
    }
  }

  /** The election, from three targets on: a version held by a strict majority whose holders agree wins, with the
      document of its first holder; otherwise there is no result. */
  lemma ElectionMeaning(candidates: seq<Candidate>, total: nat, fingerprint: Document -> string, r: Election)
    requires total >= 3 && Outcome(candidates, total, fingerprint, r)
    ensures r.Elected? || r.NoResult?
    ensures r.Elected? <==>
      exists v :: 2 * |Group(candidates, v)| > |candidates| && HoldersAgree(candidates, v, fingerprint)
    ensures forall v :: 2 * |Group(candidates, v)| > |candidates| && HoldersAgree(candidates, v, fingerprint) ==>
      r.Elected? && FirstHolder(candidates, v, r.document)
  {
    forall v ensures Qualifies(candidates, v) <==> 2 * |Group(candidates, v)| > |candidates| {
      QualifiesIsMajority(candidates, v);
    }
    if v :| Qualifies(candidates, v) {
      var w := MajorityWitness(candidates, fingerprint, r);
      AtMostOneQualifies(candidates, v, w);
      AgreementMeaning(candidates, v, fingerprint);
      GroupHead(candidates, v);
      forall u | Qualifies(candidates, u) ensures u == v {
        AtMostOneQualifies(candidates, u, v);
      }
    }
  }

  /** Below three targets the highest version wins if its holders agree; no candidate at all is an error. */
  lemma FallbackMeaning(candidates: seq<Candidate>, total: nat, fingerprint: Document -> string, r: Election, v: int)
    requires total < 3 && Outcome(candidates, total, fingerprint, r)
    requires forall c :: c in candidates ==> VersionOf(c) <= v
    ensures r.Thrown? <==> candidates == []
    ensures Group(candidates, v) != [] ==> (r.Elected? <==> HoldersAgree(candidates, v, fingerprint))
    ensures Group(candidates, v) != [] && r.Elected? ==> FirstHolder(candidates, v, r.document)
  {
    GroupMembers(candidates, v);
    if Group(candidates, v) != [] {
      assert Group(candidates, v)[0] in candidates && VersionOf(Group(candidates, v)[0]) == v;
      var w := FallbackWitness(candidates, fingerprint, r);
      SameMaximum(candidates, candidates, v, w);
      AgreementMeaning(candidates, v, fingerprint);
      GroupHead(candidates, v);
    }
  }

  /** A document without a version stands in one group with those of version one. */
  lemma UnversionedIsOne(x: string, y: string, v: int)
    ensures EffectiveVersion(Document(None, x)) == EffectiveVersion(Document(Some(v), y)) <==> v == 1
    ensures EffectiveVersion(Document(Some(v), y)) == v
  {
  }

  /** Same verdict: both nothing, both thrown, or documents with one version and one fingerprint. */
  predicate SameVerdict(x: Election, y: Election, fingerprint: Document -> string) {
    match (x, y)
    case (Elected(d), Elected(e)) => EffectiveVersion(d) == EffectiveVersion(e) && fingerprint(d) == fingerprint(e)
    case (NoResult, NoResult) => true
    case (Thrown, Thrown) => true
    case _ => false
  }

  lemma FirstIfAgreedPermuted(g: seq<Candidate>, h: seq<Candidate>, v: int, fingerprint: Document -> string)
    requires g != [] && h != [] && multiset(g) == multiset(h)
    requires forall c :: c in g ==> VersionOf(c) == v
    ensures SameVerdict(FirstIfAgreed(g, fingerprint), FirstIfAgreed(h, fingerprint), fingerprint)
  {
    assert forall c :: c in g <==> c in multiset(g);
    assert forall c :: c in h <==> c in multiset(h);
    assert h[0] in g && g[0] in h;
    if Agree(g, fingerprint) {
      AgreeWithFirst(g, fingerprint);
      assert forall i :: 0 <= i < |h| ==> h[i] in g;
    }
    if Agree(h, fingerprint) {
      AgreeWithFirst(h, fingerprint);
      assert forall i :: 0 <= i < |g| ==> g[i] in h;
    }
  }

  /** The verdict does not depend on the order in which candidates arrive, neither by majority nor
      in the fallback for fewer than three targets. */
  lemma OrderIndependent(
    a: seq<Candidate>, b: seq<Candidate>, total: nat, fingerprint: Document -> string, x: Election, y: Election)
    requires multiset(a) == multiset(b)
    requires Outcome(a, total, fingerprint, x) && Outcome(b, total, fingerprint, y)
    ensures SameVerdict(x, y, fingerprint)
  {
    assert |a| == |multiset(a)| == |multiset(b)| == |b|;
    assert forall c :: c in a <==> c in multiset(a);
    assert forall c :: c in b <==> c in multiset(b);
    if total < 3 {
      if a != [] {
        var v := FallbackWitness(a, fingerprint, x);
        var w := FallbackWitness(b, fingerprint, y);
        SameMaximum(a, b, v, w);
        GroupPermuted(a, b, v);
        GroupMembers(a, v);
        FirstIfAgreedPermuted(Group(a, v), Group(b, v), v, fingerprint);
      }
    } else {
      forall v ensures Qualifies(a, v) == Qualifies(b, v) {
        GroupPermuted(a, b, v);
      }
      if exists v :: Qualifies(a, v) {
        var v := MajorityWitness(a, fingerprint, x);
        var w := MajorityWitness(b, fingerprint, y);
        AtMostOneQualifies(a, v, w);
        GroupPermuted(a, b, v);
        GroupMembers(a, v);
        FirstIfAgreedPermuted(Group(a, v), Group(b, v), v, fingerprint);
      }
    }
  }

  lemma MajorityWitness(c: seq<Candidate>, fingerprint: Document -> string, r: Election) returns (v: int)
    requires MajorityOutcome(c, fingerprint, r) && exists v :: Qualifies(c, v)
    ensures Qualifies(c, v) && IsAgreed(c, v, fingerprint, r)
  {
    v :| Qualifies(c, v) && IsAgreed(c, v, fingerprint, r);
  }

  lemma FallbackWitness(c: seq<Candidate>, fingerprint: Document -> string, r: Election) returns (v: int)
    requires FallbackOutcome(c, fingerprint, r) && c != []
    ensures IsMaxVersion(c, v) && IsAgreed(c, v, fingerprint, r)
  {
    v :| IsMaxVersion(c, v) && IsAgreed(c, v, fingerprint, r);
  }

  lemma SameMaximum(a: seq<Candidate>, b: seq<Candidate>, v: int, w: int)
    requires (forall c :: c in a <==> c in b) && IsMaxVersion(a, v) && IsMaxVersion(b, w)
    ensures v == w
  {
    var c :| c in a && VersionOf(c) == v;
    var d :| d in b && VersionOf(d) == w;
    assert c in b && d in a;
  }
}
