/** Merkle trees of internal/ledger/merkle.go: the recursive definitions of root, inclusion
    path and consistency path (RFC 6962, section 2.1), and what it means to recompute a root
    from a path. The loops that do it with bit arithmetic are in MerkleVerify. */
module Merkle {
  import opened Bytes
  import opened Hashing

  // ---------------------------------------------------------------- hashes

  function LeafInput(data: Bytes): Bytes {
    [0] + data
  }

  function NodeInput(left: Digest, right: Digest): Bytes {
    [1] + left + right
  }

  function LeafHash(h: HashFn, data: Bytes): Digest {
    h(LeafInput(data))
  }

  function NodeHash(h: HashFn, left: Digest, right: Digest): Digest {
    h(NodeInput(left, right))
  }

  lemma NodeInputInjective(l: Digest, r: Digest, l': Digest, r': Digest)
    requires NodeInput(l, r) == NodeInput(l', r')
    ensures l == l' && r == r'
  {
    assert NodeInput(l, r)[1..33] == l && NodeInput(l', r')[1..33] == l';
    assert NodeInput(l, r)[33..] == r && NodeInput(l', r')[33..] == r';
  }

  lemma LeafInputInjective(a: Bytes, b: Bytes)
    requires LeafInput(a) == LeafInput(b)
    ensures a == b
  {
    assert LeafInput(a)[1..] == a && LeafInput(b)[1..] == b;
  }

  // ----------------------------------------------------------- split point

  predicate IsPowerOfTwo(k: nat) {
    k == 1 || (k > 0 && k % 2 == 0 && IsPowerOfTwo(k / 2))
  }

  /** The largest power of two strictly below `n`, by halving the number of leaves. */
  function SplitPoint(n: nat): (k: nat)
    requires n >= 2
    ensures IsPowerOfTwo(k) && k < n <= 2 * k
  {
    if n == 2 then 1 else
      var k := SplitPoint((n + 1) / 2);
      assert (2 * k) / 2 == k;
      2 * k
  }

  /** At most one power of two lies in `[n/2, n)`. */
  lemma {:induction false} PowerOfTwoUnique(a: nat, b: nat, n: nat)
    requires IsPowerOfTwo(a) && IsPowerOfTwo(b)
    requires a < n <= 2 * a && b < n <= 2 * b
    ensures a == b
  {
    if a != 1 && b != 1 {
      PowerOfTwoUnique(a / 2, b / 2, (n + 1) / 2);
    }
  }

  lemma SameSplit(m: nat, n: nat)
    requires 2 <= n && SplitPoint(n) < m <= n
    ensures SplitPoint(m) == SplitPoint(n)
  {
    PowerOfTwoUnique(SplitPoint(m), SplitPoint(n), m);
  }

  // ------------------------------------------------- root and proof generators

  function Root(h: HashFn, leaves: seq<Bytes>): Digest {
    if |leaves| == 0 then h([])
    else if |leaves| == 1 then LeafHash(h, leaves[0])
    else
      var k := SplitPoint(|leaves|);
      NodeHash(h, Root(h, leaves[..k]), Root(h, leaves[k..]))
  }

  /** proofPath: PATH(m, D[n]), siblings from the leaf upwards. */
  function InclusionPath(h: HashFn, leaves: seq<Bytes>, m: nat): seq<Digest>
    requires m < |leaves|
    decreases |leaves|
  {
    if |leaves| == 1 then []
    else
      var k := SplitPoint(|leaves|);
      if m < k then InclusionPath(h, leaves[..k], m) + [Root(h, leaves[k..])]
      else InclusionPath(h, leaves[k..], m - k) + [Root(h, leaves[..k])]
  }

  /** consistencyPath: SUBPROOF(m, D[n], complete). */
  function ConsistencyPath(h: HashFn, leaves: seq<Bytes>, m: nat, complete: bool): seq<Digest>
    requires 0 < m <= |leaves|
    decreases |leaves|
  {
    if m == |leaves| then (if complete then [] else [Root(h, leaves)])
    else
      var k := SplitPoint(|leaves|);
      if m <= k then ConsistencyPath(h, leaves[..k], m, complete) + [Root(h, leaves[k..])]
      else ConsistencyPath(h, leaves[k..], m - k, false) + [Root(h, leaves[..k])]
  }

  /** InclusionProof: None is ErrLeafIndex. */
  function InclusionProof(h: HashFn, leaves: seq<Bytes>, m: int): Option<seq<Digest>> {
    if m < 0 || m >= |leaves| then None else Some(InclusionPath(h, leaves, m))
  }

  /** ConsistencyProof: None is ErrTreeSize. */
  function ConsistencyProof(h: HashFn, leaves: seq<Bytes>, oldSize: int): Option<seq<Digest>> {
    if oldSize <= 0 || oldSize > |leaves| then None
    else if oldSize == |leaves| then Some([])
    else Some(ConsistencyPath(h, leaves, oldSize, true))
  }

  // ------------------------------------------------------- what was hashed

  /** Every byte string hashed while computing `Root(h, leaves)`. */
  function RootInputs(h: HashFn, leaves: seq<Bytes>): set<Bytes> {
    if |leaves| == 0 then {[]}
    else if |leaves| == 1 then {LeafInput(leaves[0])}
    else
      var k := SplitPoint(|leaves|);
      {NodeInput(Root(h, leaves[..k]), Root(h, leaves[k..]))}
      + RootInputs(h, leaves[..k]) + RootInputs(h, leaves[k..])
  }

  /** The byte string whose hash is the root. */
  function RootInput(h: HashFn, leaves: seq<Bytes>): (b: Bytes)
    ensures h(b) == Root(h, leaves) && b in RootInputs(h, leaves)
  {
    if |leaves| == 0 then []
    else if |leaves| == 1 then LeafInput(leaves[0])
    else
      var k := SplitPoint(|leaves|);
      NodeInput(Root(h, leaves[..k]), Root(h, leaves[k..]))
  }

  /** The half of the leaves that lies to the left, or to the right, of the split point. */
  function Half(d: seq<Bytes>, left: bool): (e: seq<Bytes>)
    requires |d| >= 2
    ensures 0 < |e| < |d|
  {
    if left then d[..SplitPoint(|d|)] else d[SplitPoint(|d|)..]
  }

  lemma HalfInputs(h: HashFn, d: seq<Bytes>)
    requires |d| >= 2
    ensures d == Half(d, true) + Half(d, false)
    ensures RootInput(h, d) == NodeInput(Root(h, Half(d, true)), Root(h, Half(d, false)))
    ensures forall left :: RootInputs(h, Half(d, left)) <= RootInputs(h, d)
  {
    RootInputHalves(h, d);
    OneHalfInputs(h, d, true);
    OneHalfInputs(h, d, false);
    hide *;
  }

  lemma RootInputHalves(h: HashFn, d: seq<Bytes>)
    requires |d| >= 2
    ensures d == Half(d, true) + Half(d, false)
    ensures RootInput(h, d) == NodeInput(Root(h, Half(d, true)), Root(h, Half(d, false)))
  {
    hide Root, RootInputs, NodeInput, SplitPoint;
  }

  lemma OneHalfInputs(h: HashFn, d: seq<Bytes>, left: bool)
    requires |d| >= 2
    ensures RootInputs(h, Half(d, left)) <= RootInputs(h, d)
  {
    hide Root, NodeInput, SplitPoint;
  }

  lemma RootInputTag(h: HashFn, d: seq<Bytes>)
    ensures var b := RootInput(h, d);
            if |d| == 0 then b == [] else b != [] && (b[0] == 0 <==> |d| == 1) && (b[0] == 1 <==> |d| > 1)
  {
  }

  /** A root determines its leaves, whatever the two sizes, unless the hash collided on
      something hashed in one of the two trees. The 0x00 and 0x01 prefixes are what rules out
      trees of different shapes. */
  lemma {:induction false} RootInjective(h: HashFn, d: seq<Bytes>, e: seq<Bytes>)
    requires Root(h, d) == Root(h, e)
    ensures d == e || CollisionIn(h, RootInputs(h, d) + RootInputs(h, e))
    decreases |d|
  {
    if RootInput(h, d) == RootInput(h, e) {
      RootInputTag(h, d);
      RootInputTag(h, e);
      if |d| >= 2 {
        HalfInputs(h, d);
        HalfInputs(h, e);
        hide RootInputs, Root, RootInput, Half, SplitPoint, IsPowerOfTwo, NodeInput;
        NodeInputInjective(Root(h, Half(d, true)), Root(h, Half(d, false)),
                           Root(h, Half(e, true)), Root(h, Half(e, false)));
        forall left ensures Half(d, left) == Half(e, left) || CollisionIn(h, RootInputs(h, d) + RootInputs(h, e)) {
          RootInjective(h, Half(d, left), Half(e, left));
          if Half(d, left) != Half(e, left) {
            CollisionMonotone(h, RootInputs(h, Half(d, left)) + RootInputs(h, Half(e, left)),
                              RootInputs(h, d) + RootInputs(h, e));
          }
        }
      } else if |d| == 1 {
        LeafInputInjective(d[0], e[0]);
      }
    }
  }

  // ------------------------------------------------- recomputing from a path

  /** On which side of the running hash a sibling goes. */
  datatype Side = LeftSibling | RightSibling

  /** The sides met from leaf `m` of a tree of `n` leaves up to the root. */
  function Sides(m: nat, n: nat): seq<Side>
    requires m < n
    decreases n
  {
    if n == 1 then []
    else
      var k := SplitPoint(n);
      if m < k then Sides(m, k) + [RightSibling] else Sides(m - k, n - k) + [LeftSibling]
  }

  /** The sides met from the largest subtree that ends at leaf `m` up to the root. */
  function ConsistencySides(m: nat, n: nat): seq<Side>
    requires 0 < m <= n
    decreases n
  {
    if m == n then []
    else
      var k := SplitPoint(n);
      if m <= k then ConsistencySides(m, k) + [RightSibling]
      else ConsistencySides(m - k, n - k) + [LeftSibling]
  }

  function JoinInput(side: Side, sibling: Digest, below: Digest): Bytes {
    if side == LeftSibling then NodeInput(sibling, below) else NodeInput(below, sibling)
  }

  function Join(h: HashFn, side: Side, sibling: Digest, below: Digest): Digest {
    h(JoinInput(side, sibling, below))
  }

  /** The root of the whole tree, from a starting hash and its siblings. */
  function FoldRoot(h: HashFn, seed: Digest, sides: seq<Side>, path: seq<Digest>): Digest
    requires |sides| == |path|
    decreases |sides|
  {
    if sides == [] then seed
    else Join(h, Last(sides), Last(path), FoldRoot(h, seed, Init(sides), Init(path)))
  }

  /** The root of the old tree: only what lies to the left belongs to it. */
  function FoldOldRoot(h: HashFn, seed: Digest, sides: seq<Side>, path: seq<Digest>): Digest
    requires |sides| == |path|
    decreases |sides|
  {
    if sides == [] then seed
    else
      var below := FoldOldRoot(h, seed, Init(sides), Init(path));
      if Last(sides) == LeftSibling then NodeHash(h, Last(path), below) else below
  }

  /** Every byte string hashed by FoldRoot. */
  function FoldInputs(h: HashFn, seed: Digest, sides: seq<Side>, path: seq<Digest>): set<Bytes>
    requires |sides| == |path|
    decreases |sides|
  {
    if sides == [] then {}
    else
      FoldInputs(h, seed, Init(sides), Init(path))
      + {JoinInput(Last(sides), Last(path), FoldRoot(h, seed, Init(sides), Init(path)))}
  }

  lemma FoldSnoc(h: HashFn, seed: Digest, sides: seq<Side>, path: seq<Digest>, side: Side, sibling: Digest)
    requires |sides| == |path|
    ensures FoldRoot(h, seed, sides + [side], path + [sibling])
            == Join(h, side, sibling, FoldRoot(h, seed, sides, path))
    ensures FoldOldRoot(h, seed, sides + [side], path + [sibling])
            == if side == LeftSibling then NodeHash(h, sibling, FoldOldRoot(h, seed, sides, path))
               else FoldOldRoot(h, seed, sides, path)
    ensures FoldInputs(h, seed, sides + [side], path + [sibling])
            == FoldInputs(h, seed, sides, path) + {JoinInput(side, sibling, FoldRoot(h, seed, sides, path))}
  {
    assert Init(sides + [side]) == sides && Init(path + [sibling]) == path;
  }

  // ----------------------------------------------------------- one step down

  function Other(left: bool): Side {
    if left then RightSibling else LeftSibling
  }

  lemma OtherSide(left: bool)
    ensures Other(left) == LeftSibling <==> !left
  {
  }

  lemma RootStep(h: HashFn, d: seq<Bytes>, left: bool)
    requires |d| >= 2
    ensures Root(h, d) == Join(h, Other(left), Root(h, Half(d, !left)), Root(h, Half(d, left)))
  {
  }

  /** Reading the last step of a fold that ends in the root of `d`: the running hash was the
      root of the half it came from, and the sibling the root of the other half. */
  lemma UnfoldLast(h: HashFn, d: seq<Bytes>, seed: Digest, sides: seq<Side>, path: seq<Digest>, left: bool,
                   sibling: Digest)
    requires |d| >= 2 && |sides| == |path|
    requires FoldRoot(h, seed, sides + [Other(left)], path + [sibling]) == Root(h, d)
    ensures || (FoldRoot(h, seed, sides, path) == Root(h, Half(d, left)) && sibling == Root(h, Half(d, !left)))
            || CollisionIn(h, RootInputs(h, d) + FoldInputs(h, seed, sides + [Other(left)], path + [sibling]))
  {
    var below := FoldRoot(h, seed, sides, path);
    FoldSnoc(h, seed, sides, path, Other(left), sibling);
    HalfInputs(h, d);
    hide Root, FoldRoot, FoldInputs, RootInputs, Half, SplitPoint, IsPowerOfTwo, RootInput;
    var asked := JoinInput(Other(left), sibling, below);
    assert h(asked) == h(RootInput(h, d));
    if asked == RootInput(h, d) {
      var l, r := Root(h, Half(d, true)), Root(h, Half(d, false));
      if left { NodeInputInjective(below, sibling, l, r); } else { NodeInputInjective(sibling, below, l, r); }
    }
  }

  lemma InputsGrow(h: HashFn, d: seq<Bytes>, left: bool, seed: Digest, sides: seq<Side>, path: seq<Digest>,
                   sibling: Digest)
    requires |d| >= 2 && |sides| == |path|
    requires CollisionIn(h, RootInputs(h, Half(d, left)) + FoldInputs(h, seed, sides, path))
    ensures CollisionIn(h, RootInputs(h, d) + FoldInputs(h, seed, sides + [Other(left)], path + [sibling]))
  {
    FoldSnoc(h, seed, sides, path, Other(left), sibling);
    HalfInputs(h, d);
    hide Root, FoldRoot, FoldInputs, RootInputs, Half, SplitPoint, IsPowerOfTwo;
    CollisionMonotone(h, RootInputs(h, Half(d, left)) + FoldInputs(h, seed, sides, path),
                      RootInputs(h, d) + FoldInputs(h, seed, sides + [Other(left)], path + [sibling]));
  }

  // ---------------------------------------------------------------- inclusion

  lemma InclusionStep(h: HashFn, d: seq<Bytes>, m: nat) returns (left: bool, e: seq<Bytes>, i: nat)
    requires m < |d| && |d| >= 2
    ensures e == Half(d, left) && i < |e| && e[i] == d[m]
    ensures InclusionPath(h, d, m) == InclusionPath(h, e, i) + [Root(h, Half(d, !left))]
    ensures Sides(m, |d|) == Sides(i, |e|) + [Other(left)]
  {
    hide Root, IsPowerOfTwo;
    var k := SplitPoint(|d|);
    left := m < k;
    e, i := Half(d, left), if left then m else m - k;
  }

  /** Completeness: the generated path leads from the leaf to the root. */
  lemma {:induction false} InclusionComplete(h: HashFn, d: seq<Bytes>, m: nat)
    requires m < |d|
    ensures |InclusionPath(h, d, m)| == |Sides(m, |d|)|
    ensures FoldRoot(h, LeafHash(h, d[m]), Sides(m, |d|), InclusionPath(h, d, m)) == Root(h, d)
    decreases |d|
  {
    if |d| > 1 {
      var left, e, i := InclusionStep(h, d, m);
      RootStep(h, d, left);
      hide Root, SplitPoint, IsPowerOfTwo, InclusionPath, Sides, FoldRoot, Half;
      InclusionComplete(h, e, i);
      FoldSnoc(h, LeafHash(h, d[m]), Sides(i, |e|), InclusionPath(h, e, i), Other(left), Root(h, Half(d, !left)));
    }
  }

  lemma OneLeaf(h: HashFn, d: seq<Bytes>, seed: Digest, path: seq<Digest>)
    requires |d| == 1
    ensures Sides(0, |d|) == [] && InclusionPath(h, d, 0) == []
    ensures path == [] ==> FoldRoot(h, seed, [], path) == seed
    ensures Root(h, d) == LeafHash(h, d[0])
  {
  }

  /** Soundness and uniqueness: nothing else leads there. */
  lemma {:induction false} InclusionSound(h: HashFn, d: seq<Bytes>, m: nat, leaf: Digest, path: seq<Digest>)
    requires m < |d|
    requires |path| == |Sides(m, |d|)|
    requires FoldRoot(h, leaf, Sides(m, |d|), path) == Root(h, d)
    ensures (leaf == LeafHash(h, d[m]) && path == InclusionPath(h, d, m))
         || CollisionIn(h, RootInputs(h, d) + FoldInputs(h, leaf, Sides(m, |d|), path))
    decreases |d|
  {
    hide *;
    if |d| == 1 {
      OneLeaf(h, d, leaf, path);
    } else {
      var left, e, i := InclusionStep(h, d, m);
      var p, y := path[..|path| - 1], path[|path| - 1];
      assert path == p + [y];
      UnfoldLast(h, d, leaf, Sides(i, |e|), p, left, y);
      if FoldRoot(h, leaf, Sides(i, |e|), p) == Root(h, e) && y == Root(h, Half(d, !left)) {
        InclusionSound(h, e, i, leaf, p);
        if CollisionIn(h, RootInputs(h, e) + FoldInputs(h, leaf, Sides(i, |e|), p)) {
          InputsGrow(h, d, left, leaf, Sides(i, |e|), p, y);
        }
      }
    }
  }

  // -------------------------------------------------------------- consistency

  /** The path with its seed always in front: the `false` form of the generator. */
  function SeededPath(h: HashFn, d: seq<Bytes>, m: nat): seq<Digest>
    requires 0 < m <= |d|
  {
    ConsistencyPath(h, d, m, false)
  }

  /** The root of a prefix that reaches past the split point of the whole. */
  lemma PrefixSplit(h: HashFn, d: seq<Bytes>, m: nat, k: nat)
    requires 2 <= m <= |d| && SplitPoint(m) == k
    ensures Root(h, d[..m]) == NodeHash(h, Root(h, d[..k]), Root(h, d[k..][..m - k]))
  {
    assert d[..m][..k] == d[..k] && d[..m][k..] == d[k..][..m - k];
  }

  lemma ConsistencyStep(h: HashFn, d: seq<Bytes>, m: nat) returns (left: bool, e: seq<Bytes>, i: nat)
    requires 0 < m < |d|
    ensures e == Half(d, left) && 0 < i <= |e|
    ensures SeededPath(h, d, m) == SeededPath(h, e, i) + [Root(h, Half(d, !left))]
    ensures ConsistencySides(m, |d|) == ConsistencySides(i, |e|) + [Other(left)]
    ensures Root(h, d[..m]) == if left then Root(h, e[..i]) else NodeHash(h, Root(h, Half(d, true)), Root(h, e[..i]))
  {
    hide Root, IsPowerOfTwo;
    var k := SplitPoint(|d|);
    left := m <= k;
    e, i := Half(d, left), if left then m else m - k;
    if left {
      assert d[..k][..m] == d[..m];
    } else {
      SameSplit(m, |d|);
      PrefixSplit(h, d, m, k);
    }
  }

  lemma {:induction false} SeededPathShape(h: HashFn, d: seq<Bytes>, m: nat)
    requires 0 < m <= |d|
    ensures |SeededPath(h, d, m)| == 1 + |ConsistencySides(m, |d|)|
    decreases |d|
  {
    if m < |d| {
      var left, e, i := ConsistencyStep(h, d, m);
      hide *;
      SeededPathShape(h, e, i);
    }
  }

  /** Completeness: the generated path leads to both roots. */
  lemma {:induction false} ConsistencyComplete(h: HashFn, d: seq<Bytes>, m: nat)
    requires 0 < m <= |d|
    ensures |SeededPath(h, d, m)| == 1 + |ConsistencySides(m, |d|)|
    ensures var p := SeededPath(h, d, m);
            && FoldRoot(h, p[0], ConsistencySides(m, |d|), p[1..]) == Root(h, d)
            && FoldOldRoot(h, p[0], ConsistencySides(m, |d|), p[1..]) == Root(h, d[..m])
    decreases |d|
  {
    hide *;
    if m == |d| {
      WholeTree(h, d, Root(h, d), []);
      assert SeededPath(h, d, m)[1..] == [];
    } else {
      var left, e, i := ConsistencyStep(h, d, m);
      RootStep(h, d, left);
      ConsistencyComplete(h, e, i);
      var q, y := SeededPath(h, e, i), Root(h, Half(d, !left));
      assert (q + [y])[1..] == q[1..] + [y];
      FoldSnoc(h, q[0], ConsistencySides(i, |e|), q[1..], Other(left), y);
      OtherSide(left);
    }
  }

  lemma WholeTree(h: HashFn, d: seq<Bytes>, seed: Digest, path: seq<Digest>)
    requires |d| > 0
    ensures ConsistencySides(|d|, |d|) == [] && SeededPath(h, d, |d|) == [Root(h, d)]
    ensures path == [] ==> FoldRoot(h, seed, [], path) == seed && FoldOldRoot(h, seed, [], path) == seed
    ensures d[..|d|] == d
  {
  }

  /** Soundness and uniqueness: only the generated path, from the generated seed, leads to the
      root of the whole. */
  lemma {:induction false} ConsistencySound(h: HashFn, d: seq<Bytes>, m: nat, seed: Digest, path: seq<Digest>)
    requires 0 < m <= |d|
    requires |path| == |ConsistencySides(m, |d|)|
    requires FoldRoot(h, seed, ConsistencySides(m, |d|), path) == Root(h, d)
    ensures [seed] + path == SeededPath(h, d, m)
         || CollisionIn(h, RootInputs(h, d) + FoldInputs(h, seed, ConsistencySides(m, |d|), path))
    decreases |d|
  {
    hide *;
    if m == |d| {
      WholeTree(h, d, seed, path);
    } else {
      var left, e, i := ConsistencyStep(h, d, m);
      var p, y := path[..|path| - 1], path[|path| - 1];
      assert path == p + [y];
      UnfoldLast(h, d, seed, ConsistencySides(i, |e|), p, left, y);
      if FoldRoot(h, seed, ConsistencySides(i, |e|), p) == Root(h, e) && y == Root(h, Half(d, !left)) {
        ConsistencySound(h, e, i, seed, p);
        assert [seed] + path == ([seed] + p) + [y];
        if CollisionIn(h, RootInputs(h, e) + FoldInputs(h, seed, ConsistencySides(i, |e|), p)) {
          InputsGrow(h, d, left, seed, ConsistencySides(i, |e|), p, y);
        }
      }
    }
  }

  /** The generator leaves the seed out exactly when the old size is a power of two, and then
      the seed is the old root. */
  lemma {:induction false} CompletePath(h: HashFn, d: seq<Bytes>, m: nat)
    requires 0 < m <= |d|
    requires IsPowerOfTwo(m) || m < |d|
    ensures |SeededPath(h, d, m)| >= 1
    ensures ConsistencyPath(h, d, m, true)
            == if IsPowerOfTwo(m) then SeededPath(h, d, m)[1..] else SeededPath(h, d, m)
    ensures IsPowerOfTwo(m) ==> SeededPath(h, d, m)[0] == Root(h, d[..m])
    decreases |d|
  {
    hide Root, ConsistencyPath, IsPowerOfTwo;
    SeededPathShape(h, d, m);
    if m == |d| {
      WholePath(h, d);
    } else {
      var k := SplitPoint(|d|);
      PathStep(h, d, m, true);
      PathStep(h, d, m, false);
      if m <= k {
        SeededPathShape(h, d[..k], m);
        CompletePath(h, d[..k], m);
        assert d[..k][..m] == d[..m];
        var p := SeededPath(h, d[..k], m);
        assert (p + [Root(h, d[k..])])[1..] == p[1..] + [Root(h, d[k..])];
      } else if IsPowerOfTwo(m) {
        PowerOfTwoUnique(k, m, |d|);
      }
    }
  }

  lemma WholePath(h: HashFn, d: seq<Bytes>)
    requires d != []
    ensures ConsistencyPath(h, d, |d|, true) == [] && ConsistencyPath(h, d, |d|, false) == [Root(h, d)] && d[..|d|] == d
  {
  }

  lemma PathStep(h: HashFn, d: seq<Bytes>, m: nat, complete: bool)
    requires 0 < m < |d|
    ensures var k := SplitPoint(|d|);
            ConsistencyPath(h, d, m, complete)
            == if m <= k then ConsistencyPath(h, d[..k], m, complete) + [Root(h, d[k..])]
               else ConsistencyPath(h, d[k..], m - k, false) + [Root(h, d[..k])]
  {
    hide Root;
  }

  // -------------------------------------------------------------- path length

  function PowerOfTwo(e: nat): nat {
    if e == 0 then 1 else 2 * PowerOfTwo(e - 1)
  }

  lemma {:induction false} SplitWithin(n: nat, e: nat)
    requires 2 <= n <= PowerOfTwo(e)
    ensures e > 0 && SplitPoint(n) <= PowerOfTwo(e - 1) && n - SplitPoint(n) <= PowerOfTwo(e - 1)
  {
    if n > 2 {
      SplitWithin((n + 1) / 2, e - 1);
    }
  }

  /** A tree of at most 2^e leaves needs at most e siblings. */
  lemma {:induction false} SidesBound(m: nat, n: nat, e: nat)
    requires 0 < m <= n <= PowerOfTwo(e)
    ensures |ConsistencySides(m, n)| <= e
    decreases n
  {
    if m < n {
      var k := SplitPoint(n);
      SplitWithin(n, e);
      if m <= k { SidesBound(m, k, e - 1); } else { SidesBound(m - k, n - k, e - 1); }
    }
  }

  /** Every consistency proof of a tree that can exist under the 2^53 index limit fits in the
      63 proof lines of an add-checkpoint request. */
  lemma ConsistencyProofFits(h: HashFn, d: seq<Bytes>, m: nat)
    requires 0 < m <= |d| <= PowerOfTwo(53)
    ensures ConsistencyProof(h, d, m).Some? && |ConsistencyProof(h, d, m).value| <= 54
  {
    if m < |d| {
      SidesBound(m, |d|, 53);
      SeededPathShape(h, d, m);
      CompletePath(h, d, m);
    }
  }
}
