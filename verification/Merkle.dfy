/** Merkle proofs over the records of a hash chain.

    The proof generator rebuilds the tree layer by layer, duplicating the last node of an odd
    layer. `NodeAt` is the same tree defined top-down, without layers. */
module Merkle {
  import opened Encoding
  import opened HashChain

  datatype Position = Left | Right

  datatype ProofNode = ProofNode(hash: string, position: Position)

  datatype MerkleProof = MerkleProof(recordIndex: nat, recordHash: string, siblings: seq<ProofNode>, root: string)

  /** Nodes are joined as hexadecimal text, not as raw bytes. */
  function Join(c: Crypto, left: string, right: string): (h: string)
    ensures |h| == 64
  {
    ToHex(c.sha(TextBytes(left + right)))
  }

  // ------------------------------------------------------------------ the tree, top-down

  /** Number of nodes at a level above `n` leaves. */
  function Count(n: nat, level: nat): (k: nat)
    requires n >= 1
    ensures k >= 1
  {
    if level == 0 then n else (Count(n, level - 1) + 1) / 2
  }

  function NodeAt(c: Crypto, leaves: seq<string>, level: nat, i: nat): string
    requires leaves != [] && i < Count(|leaves|, level)
    decreases level
  {
    if level == 0 then leaves[i] else
      var left := NodeAt(c, leaves, level - 1, 2 * i);
      var right := if 2 * i + 1 < Count(|leaves|, level - 1) then NodeAt(c, leaves, level - 1, 2 * i + 1) else left;
      Join(c, left, right)
  }

  function Height(n: nat): nat
    requires n >= 1
    decreases n
  {
    if n == 1 then 0 else 1 + Height((n + 1) / 2)
  }

  function TreeHash(c: Crypto, leaves: seq<string>): string
    requires leaves != []
  {
    HeightReachesOne(|leaves|);
    NodeAt(c, leaves, Height(|leaves|), 0)
  }

  lemma {:induction false} CountOfHalf(n: nat, level: nat)
    requires n >= 1
    ensures Count(n, level + 1) == Count((n + 1) / 2, level)
  {
    if level > 0 {
      CountOfHalf(n, level - 1);
    }
  }

  lemma {:induction false} HeightReachesOne(n: nat)
    requires n >= 1
    ensures Count(n, Height(n)) == 1
    decreases n
  {
    if n > 1 {
      HeightReachesOne((n + 1) / 2);
      CountOfHalf(n, Height(n) - 1);
    }
  }

  function Pow2(n: nat): nat {
    if n == 0 then 1 else 2 * Pow2(n - 1)
  }

  /** The height is the logarithm of the number of leaves, rounded up. */
  lemma {:induction false} HeightIsLogarithm(n: nat)
    requires n >= 1
    ensures n <= Pow2(Height(n))
    ensures n > 1 ==> Pow2(Height(n) - 1) < n
    decreases n
  {
    if n > 1 {
      HeightIsLogarithm((n + 1) / 2);
    }
  }

  // ------------------------------------------------------------------ layers

  /** The nodes of one level, left to right. */
  function Layer(c: Crypto, leaves: seq<string>, level: nat): (s: seq<string>)
    requires leaves != []
    ensures |s| == Count(|leaves|, level)
    ensures forall i :: 0 <= i < |s| ==> s[i] == NodeAt(c, leaves, level, i)
  {
    seq(Count(|leaves|, level), i requires 0 <= i < Count(|leaves|, level) => NodeAt(c, leaves, level, i))
  }

  function Parent(c: Crypto, layer: seq<string>, i: nat): string
    requires 2 * i < |layer|
  {
    Join(c, layer[2 * i], if 2 * i + 1 < |layer| then layer[2 * i + 1] else layer[2 * i])
  }

  function NextLayer(c: Crypto, layer: seq<string>): (s: seq<string>)
    ensures |s| == (|layer| + 1) / 2
    ensures forall i :: 0 <= i < |s| ==> s[i] == Parent(c, layer, i)
  {
    seq((|layer| + 1) / 2, i requires 0 <= i < (|layer| + 1) / 2 => Parent(c, layer, i))
  }

  lemma LayerAbove(c: Crypto, leaves: seq<string>, level: nat)
    requires leaves != []
    ensures NextLayer(c, Layer(c, leaves, level)) == Layer(c, leaves, level + 1)
  {
    var low := Layer(c, leaves, level);
    forall i | 0 <= i < Count(|leaves|, level + 1)
      ensures Parent(c, low, i) == NodeAt(c, leaves, level + 1, i)
    {
    }
  }

  lemma BottomLayer(c: Crypto, leaves: seq<string>)
    requires leaves != []
    ensures Layer(c, leaves, 0) == leaves
  {
  }

  // ------------------------------------------------------------------ paths

  /** The sibling of node `t` in a layer, itself when it is the odd one out. */
  function Sibling(layer: seq<string>, t: nat): ProofNode
    requires t < |layer|
  {
    if t % 2 == 1 then ProofNode(layer[t - 1], Left)
    else ProofNode(if t + 1 < |layer| then layer[t + 1] else layer[t], Right)
  }

  function Step(c: Crypto, h: string, s: ProofNode): string {
    if s.position == Right then Join(c, h, s.hash) else Join(c, s.hash, h)
  }

  /** What a verifier of a proof computes. */
  function Fold(c: Crypto, leaf: string, siblings: seq<ProofNode>): string
    decreases |siblings|
  {
    if siblings == [] then leaf else Fold(c, Step(c, leaf, siblings[0]), siblings[1..])
  }

  lemma SiblingJoins(c: Crypto, layer: seq<string>, t: nat)
    requires t < |layer|
    ensures t / 2 < |NextLayer(c, layer)|
    ensures Step(c, layer[t], Sibling(layer, t)) == NextLayer(c, layer)[t / 2]
  {
    var k := t / 2;
    assert t == 2 * k || t == 2 * k + 1;
  }

  // ------------------------------------------------------------------ proof generation

  /** One turn of the layer loop: pad, pair up, and note the sibling of the target. */
  method BuildLayer(c: Crypto, layer: seq<string>, target: nat) returns (next: seq<string>, sibling: ProofNode)
    requires target < |layer| && |layer| > 1
    ensures next == NextLayer(c, layer) && sibling == Sibling(layer, target)
  {
    var current := layer;
    if |current| % 2 != 0 {
      current := current + [current[|current| - 1]];
    }
    next := [];
    var pairIndex := if target % 2 == 0 then target else target - 1;
    sibling := ProofNode("", Left);
    var i, k := 0, 0;
    while i < |current|
      invariant i == 2 * k && k <= (|layer| + 1) / 2 && |current| == 2 * ((|layer| + 1) / 2)
      invariant current[..|layer|] == layer
      invariant |current| > |layer| ==> current[|layer|] == layer[|layer| - 1]
      invariant next == NextLayer(c, layer)[..k]
      invariant i > pairIndex ==> sibling == Sibling(layer, target)
    {
      PairAt(current, layer, k);
      var left, right := current[i], current[i + 1];
      next := next + [Join(c, left, right)];
      if i == pairIndex {
        if target % 2 == 0 {
          sibling := ProofNode(right, Right);
        } else {
          sibling := ProofNode(left, Left);
        }
      }
      i, k := i + 2, k + 1;
    }
  }

  lemma PairAt(current: seq<string>, layer: seq<string>, k: nat)
    requires layer != [] && |current| == 2 * ((|layer| + 1) / 2) && 2 * k + 1 < |current|
    requires current[..|layer|] == layer
    requires |current| > |layer| ==> current[|layer|] == layer[|layer| - 1]
    ensures 2 * k < |layer| && current[2 * k] == layer[2 * k]
    ensures current[2 * k + 1] == if 2 * k + 1 < |layer| then layer[2 * k + 1] else layer[2 * k]
  {
    assert current[2 * k] == current[..|layer|][2 * k];
    if 2 * k + 1 < |layer| {
      assert current[2 * k + 1] == current[..|layer|][2 * k + 1];
    }
  }

  /** The tree above the given leaves, with the path of one leaf. The path folds to the root, the
      root is the tree hash whatever the index, and the path is as long as the tree is high. */
  method ProveLeaf(c: Crypto, leaves: seq<string>, index: nat) returns (siblings: seq<ProofNode>, root: string)
    requires index < |leaves|
    ensures root == TreeHash(c, leaves) && siblings == Climb(c, leaves, index)
    ensures Fold(c, leaves[index], siblings) == root
    ensures |siblings| == Height(|leaves|)
  {
    siblings, root := BuildTree(c, leaves, index);
    ClimbFolds(c, leaves, index);
    TopIsTreeHash(c, leaves);
  }

  /** The layer loop. */
  method BuildTree(c: Crypto, leaves: seq<string>, index: nat) returns (siblings: seq<ProofNode>, root: string)
    requires index < |leaves|
    ensures root == Top(c, leaves) && siblings == Climb(c, leaves, index)
  {
    siblings := [];
    var layer := leaves;
    var target: nat := index;
    while |layer| > 1
      invariant target < |layer| && Top(c, layer) == Top(c, leaves)
      invariant siblings + Climb(c, layer, target) == Climb(c, leaves, index)
      decreases |layer|
    {
      var next, sibling := BuildLayer(c, layer, target);
      siblings := siblings + [sibling];
      target := target / 2;
      layer := next;
    }
    root := layer[0];
  }

  /** The other node of the pair at a place: on its left when the place is odd, else on its right, and the node itself
      when it has no neighbour. */
  predicate IsSibling(layer: seq<string>, place: nat, s: ProofNode)
    requires place < |layer|
  {
    if place % 2 == 1 then s.position == Left && s.hash == layer[place - 1]
    else s.position == Right && s.hash == layer[if place + 1 == |layer| then place else place + 1]
  }

  /** The siblings on the way up from a place in a layer. */
  function Climb(c: Crypto, layer: seq<string>, place: nat): seq<ProofNode>
    requires place < |layer|
    decreases |layer|
  {
    if |layer| == 1 then [] else [Sibling(layer, place)] + Climb(c, NextLayer(c, layer), place / 2)
  }

  lemma SiblingMeaning(layer: seq<string>, place: nat)
    requires place < |layer|
    ensures IsSibling(layer, place, Sibling(layer, place))
  {
  }

  /** The last layer's only node. */
  function Top(c: Crypto, layer: seq<string>): string
    requires layer != []
    decreases |layer|
  {
    if |layer| == 1 then layer[0] else Top(c, NextLayer(c, layer))
  }

  lemma {:induction false} TopIsTreeHash(c: Crypto, layer: seq<string>)
    requires layer != []
    ensures Top(c, layer) == TreeHash(c, layer)
    decreases |layer|
  {
    if |layer| > 1 {
      TopIsTreeHash(c, NextLayer(c, layer));
      TreeHashOfNext(c, layer);
    }
  }

  lemma FoldFirst(c: Crypto, leaf: string, s: ProofNode, rest: seq<ProofNode>)
    ensures Fold(c, leaf, [s] + rest) == Fold(c, Step(c, leaf, s), rest)
  {
    assert ([s] + rest)[1..] == rest;
  }

  /** The path folds to the tree hash and is as long as the tree is high. */
  lemma {:induction false} ClimbFolds(c: Crypto, layer: seq<string>, place: nat)
    requires place < |layer|
    ensures Fold(c, layer[place], Climb(c, layer, place)) == TreeHash(c, layer)
    ensures |Climb(c, layer, place)| == Height(|layer|)
    decreases |layer|
  {
    if |layer| > 1 {
      var next := NextLayer(c, layer);
      SiblingJoins(c, layer, place);
      FoldFirst(c, layer[place], Sibling(layer, place), Climb(c, next, place / 2));
      ClimbFolds(c, next, place / 2);
      TreeHashOfNext(c, layer);
    }
  }

  // ------------------------------------------------------------------ records

  /** The leaf of a record: its hash after normalizing prevHash. */
  function Leaf(c: Crypto, r: Record): Decoded<string> {
    match NormalizePrevHash(r)
    case Err(e) => Err(e)
    case Ok(p) => Ok(NormalHash(c, r, p))
  }

  function Leaves(c: Crypto, records: seq<Record>): (r: Decoded<seq<string>>)
    ensures r.Ok? ==> |r.value| == |records| && forall i :: 0 <= i < |records| ==> Leaf(c, records[i]) == Ok(r.value[i])
  {
    if records == [] then Ok([]) else
      match Leaf(c, records[0])
      case Err(e) => Err(e)
      case Ok(h) =>
        match Leaves(c, records[1..])
        case Err(e) => Err(e)
        case Ok(t) => Ok([h] + t)
  }

  method GenerateProof(c: Crypto, recordIndex: int, records: seq<Record>) returns (r: Decoded<MerkleProof>)
    ensures records == [] || recordIndex < 0 || recordIndex >= |records| ==> r == Err(InvalidHashFormat)
    ensures records != [] && 0 <= recordIndex < |records| && Leaves(c, records).Err? ==>
      r == Err(Leaves(c, records).error)
    ensures records != [] && 0 <= recordIndex < |records| && Leaves(c, records).Ok? ==>
      && r.Ok? && r.value.recordIndex == recordIndex
      && Leaf(c, records[recordIndex]) == Ok(r.value.recordHash)
      && r.value.root == TreeHash(c, Leaves(c, records).value)
      && Fold(c, r.value.recordHash, r.value.siblings) == r.value.root
      && |r.value.siblings| == Height(|records|)
      && r.value.siblings == Climb(c, Leaves(c, records).value, recordIndex)
  {
    if |records| == 0 || recordIndex < 0 || recordIndex >= |records| {
      return Err(InvalidHashFormat);
    }
    var leaves := Leaves(c, records);
    if leaves.Err? {
      return Err(leaves.error);
    }
    var recordHash := leaves.value[recordIndex];
    if |leaves.value| == 1 {
      return Ok(MerkleProof(recordIndex, recordHash, [], recordHash));
    }
    var siblings, root := ProveLeaf(c, leaves.value, recordIndex);
    return Ok(MerkleProof(recordIndex, recordHash, siblings, root));
  }

  // ------------------------------------------------------------------ binding

  predicate AllDigests(layer: seq<string>) {
    forall i :: 0 <= i < |layer| ==> |layer[i]| == 64 && AllHex(layer[i])
  }

  lemma TextBytesInjective(a: string, b: string)
    requires AllHex(a) && AllHex(b) && TextBytes(a) == TextBytes(b)
    ensures a == b
  {
    assert |a| == |TextBytes(a)| == |b|;
    forall i | 0 <= i < |a| ensures a[i] == b[i] {
      assert TextBytes(a)[i] == TextBytes(b)[i];
    }
  }

  lemma JoinInjective(c: Crypto, l: string, r: string, l': string, r': string) returns (x: seq<byte>, y: seq<byte>)
    requires AllDigests([l, r, l', r']) && Join(c, l, r) == Join(c, l', r')
    ensures Collision(c, x, y) || (l == l' && r == r')
  {
    assert AllDigests([l, r, l', r']) ==> |l| == 64 && |r| == 64 && |l'| == 64 && |r'| == 64
      by { var s := [l, r, l', r']; assert s[0] == l && s[1] == r && s[2] == l' && s[3] == r'; }
    x, y := TextBytes(l + r), TextBytes(l' + r');
    ToHexInjective(c.sha(x), c.sha(y));
    if x == y {
      var s := [l, r, l', r'];
      assert AllHex(s[0]) && AllHex(s[1]) && AllHex(s[2]) && AllHex(s[3]);
      TextBytesInjective(l + r, l' + r');
      assert l == (l + r)[..64] && r == (l + r)[64..] && l' == (l' + r')[..64] && r' == (l' + r')[64..];
    }
  }

  lemma {:induction false} LayerInjective(c: Crypto, a: seq<string>, b: seq<string>, n: nat)
    returns (x: seq<byte>, y: seq<byte>)
    requires |a| == |b| && n <= |a| && AllDigests(a) && AllDigests(b) && NextLayer(c, a) == NextLayer(c, b)
    ensures Collision(c, x, y) || a[..n] == b[..n]
  {
    x, y := [], [];
    if n > 0 {
      x, y := LayerInjective(c, a, b, n - 1);
      if !Collision(c, x, y) {
        var k := (n - 1) / 2;
        var ra := if 2 * k + 1 < |a| then a[2 * k + 1] else a[2 * k];
        var rb := if 2 * k + 1 < |a| then b[2 * k + 1] else b[2 * k];
        assert Parent(c, a, k) == NextLayer(c, a)[k] == NextLayer(c, b)[k] == Parent(c, b, k);
        x, y := JoinInjective(c, a[2 * k], ra, b[2 * k], rb);
        if !Collision(c, x, y) {
          assert n - 1 == 2 * k || n - 1 == 2 * k + 1;
          assert a[..n] == a[..n - 1] + [a[n - 1]] && b[..n] == b[..n - 1] + [b[n - 1]];
        }
      }
    }
  }

  lemma {:induction false} LayersOfNext(c: Crypto, leaves: seq<string>, level: nat)
    requires leaves != []
    ensures Layer(c, leaves, level + 1) == Layer(c, NextLayer(c, leaves), level)
  {
    if level == 0 {
      FirstLayers(c, leaves);
    } else {
      var below := level - 1;
      LayersOfNext(c, leaves, below);
      LayerAbove(c, leaves, below + 1);
      LayerAbove(c, NextLayer(c, leaves), below);
    }
  }

  lemma FirstLayers(c: Crypto, leaves: seq<string>)
    requires leaves != []
    ensures Layer(c, leaves, 1) == Layer(c, NextLayer(c, leaves), 0)
  {
    BottomLayer(c, leaves);
    BottomLayer(c, NextLayer(c, leaves));
    LayerAbove(c, leaves, 0);
  }

  lemma TreeHashOfNext(c: Crypto, leaves: seq<string>)
    requires |leaves| > 1
    ensures TreeHash(c, leaves) == TreeHash(c, NextLayer(c, leaves))
  {
    var next := NextLayer(c, leaves);
    var h := Height(|next|);
    HeightReachesOne(|next|);
    LayersOfNext(c, leaves, h);
    assert TreeHash(c, next) == Layer(c, next, h)[0];
    assert TreeHash(c, leaves) == Layer(c, leaves, h + 1)[0];
  }

  /** The tree layer by layer: a pair is hashed as the text of its left node followed by that of its right one, and the
      last node of an odd layer is paired with itself. */
  lemma TreeHashMeaning(c: Crypto, leaves: seq<string>)
    requires leaves != []
    ensures |leaves| == 1 ==> TreeHash(c, leaves) == leaves[0]
    ensures |leaves| == 2 ==> TreeHash(c, leaves) == ToHex(c.sha(TextBytes(leaves[0] + leaves[1])))
    ensures |leaves| > 1 ==> exists next: seq<string> ::
      |next| == (|leaves| + 1) / 2 && TreeHash(c, leaves) == TreeHash(c, next) && PairsOf(c, leaves, next)
  {
    if |leaves| > 1 {
      TreeHashOfNext(c, leaves);
      assert PairsOf(c, leaves, NextLayer(c, leaves));
    }
  }

  /** A proof level by level: the sibling of the place, then the proof for half the place in the layer of pairs; none
      for a single leaf. */
  lemma ClimbMeaning(c: Crypto, layer: seq<string>, place: nat)
    requires place < |layer|
    ensures |layer| == 1 ==> Climb(c, layer, place) == []
    ensures |layer| > 1 ==> exists next: seq<string> ::
      |next| == (|layer| + 1) / 2 && PairsOf(c, layer, next) && ClimbsTo(c, layer, place, next)
  {
    if |layer| > 1 {
      SiblingMeaning(layer, place);
      assert PairsOf(c, layer, NextLayer(c, layer)) && ClimbsTo(c, layer, place, NextLayer(c, layer));
    }
  }

  predicate ClimbsTo(c: Crypto, layer: seq<string>, place: nat, next: seq<string>)
    requires place < |layer|
  {
    && Climb(c, layer, place) != [] && IsSibling(layer, place, Climb(c, layer, place)[0])
    && place / 2 < |next| && Climb(c, layer, place)[1..] == Climb(c, next, place / 2)
  }

  predicate PairsOf(c: Crypto, layer: seq<string>, next: seq<string>) {
    forall i :: 0 <= i < |next| && 2 * i < |layer| ==>
      var right := if 2 * i + 1 < |layer| then layer[2 * i + 1] else layer[2 * i];
      next[i] == ToHex(c.sha(TextBytes(layer[2 * i] + right)))
  }

  lemma NextLayerDigests(c: Crypto, layer: seq<string>)
    ensures AllDigests(NextLayer(c, layer))
  {
  }

  /** Two lists of digests of the same length with the same root are equal, unless two texts
      collide. */
  lemma {:induction false} RootBindsLeaves(c: Crypto, a: seq<string>, b: seq<string>)
    returns (x: seq<byte>, y: seq<byte>)
    requires a != [] && |a| == |b| && AllDigests(a) && AllDigests(b) && TreeHash(c, a) == TreeHash(c, b)
    ensures Collision(c, x, y) || a == b
    decreases |a|
  {
    if |a| == 1 {
      x, y := [], [];
      assert a == [a[0]] && b == [b[0]];
    } else {
      var na, nb := NextLayer(c, a), NextLayer(c, b);
      TreeHashOfNext(c, a);
      TreeHashOfNext(c, b);
      NextLayerDigests(c, a);
      NextLayerDigests(c, b);
      x, y := RootBindsLeaves(c, na, nb);
      if !Collision(c, x, y) {
        x, y := LayerInjective(c, a, b, |a|);
        assert a[..|a|] == a && b[..|b|] == b;
      }
    }
  }

  /** Leaves of records are digests, so equal roots of equally long chains mean equal leaves. */
  lemma LeavesAreDigests(c: Crypto, records: seq<Record>)
    requires Leaves(c, records).Ok?
    ensures AllDigests(Leaves(c, records).value)
  {
    var leaves := Leaves(c, records).value;
    forall i | 0 <= i < |leaves| ensures |leaves[i]| == 64 && AllHex(leaves[i]) {
      assert Leaf(c, records[i]) == Ok(leaves[i]);
    }
  }

  /** The bytes whose hash is the leaf of a record. */
  function LeafInput(c: Crypto, r: Record): seq<byte> {
    match NormalizePrevHash(r)
    case Err(_) => []
    case Ok(p) => HashInput(c, WithPrev(r, p), p)
  }

  lemma LeafBindsInput(c: Crypto, r: Record, r': Record)
    requires Leaf(c, r).Ok? && Leaf(c, r) == Leaf(c, r')
    ensures LeafInput(c, r) == LeafInput(c, r') || Collision(c, LeafInput(c, r), LeafInput(c, r'))
  {
    ToHexInjective(c.sha(LeafInput(c, r)), c.sha(LeafInput(c, r')));
  }

  /** A root binds the records: equally long lists with equal roots hash the same bytes record by record,
      or a collision is exhibited. */
  lemma RootBindsRecords(c: Crypto, a: seq<Record>, b: seq<Record>) returns (x: seq<byte>, y: seq<byte>)
    requires a != [] && |a| == |b| && Leaves(c, a).Ok? && Leaves(c, b).Ok?
    requires TreeHash(c, Leaves(c, a).value) == TreeHash(c, Leaves(c, b).value)
    ensures Collision(c, x, y) || forall i :: 0 <= i < |a| ==> LeafInput(c, a[i]) == LeafInput(c, b[i])
  {
    LeavesAreDigests(c, a);
    LeavesAreDigests(c, b);
    x, y := RootBindsLeaves(c, Leaves(c, a).value, Leaves(c, b).value);
    if !Collision(c, x, y) && exists i :: 0 <= i < |a| && LeafInput(c, a[i]) != LeafInput(c, b[i]) {
      var i :| 0 <= i < |a| && LeafInput(c, a[i]) != LeafInput(c, b[i]);
      assert Leaf(c, a[i]) == Leaf(c, b[i]);
      LeafBindsInput(c, a[i], b[i]);
      x, y := LeafInput(c, a[i]), LeafInput(c, b[i]);
    }
  }
}
