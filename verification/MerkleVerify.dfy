/** The verifiers of internal/ledger/merkle.go: loops over the bits of a leaf index
    (RFC 9162, sections 2.1.3.2 and 2.1.4.2), proved against the recursive tree of Merkle. */
module MerkleVerify {
  import opened Bytes
  import opened Hashing
  import opened Merkle

  datatype Verdict = Accepted | BadLeafIndex | BadTreeSize | BadInclusion | BadConsistency

  // ------------------------------------------------- the shape, bottom up

  /** The sides met from position `fn` of a level whose last position is `sn`, one level at a
      time: a last node without a sibling is carried up unchanged. */
  function SidesUp(fn: nat, sn: nat): seq<Side>
    requires fn <= sn
  {
    if sn == 0 then []
    else if fn % 2 == 0 && fn == sn then SidesUp(fn / 2, sn / 2)
    else [if fn % 2 == 1 then LeftSibling else RightSibling] + SidesUp(fn / 2, sn / 2)
  }

  lemma SidesStep(i: nat, n: nat)
    requires i < n && n >= 2
    ensures var k := SplitPoint(n);
            && 0 < k < n <= 2 * k
            && (n > 2 ==> k == 2 * SplitPoint((n + 1) / 2))
            && Sides(i, n) == if i < k then Sides(i, k) + [RightSibling] else Sides(i - k, n - k) + [LeftSibling]
  {
  }

  /** The sides one level has to offer at position `i`. */
  function LevelSides(i: nat, n: nat): seq<Side> {
    if i % 2 == 1 then [LeftSibling] else if i == n - 1 then [] else [RightSibling]
  }

  lemma TwoLeaves(i: nat)
    requires i < 2
    ensures Sides(i, 2) == LevelSides(i, 2) && Sides(0, 1) == []
  {
  }

  lemma LevelSidesOfHalf(i: nat, n: nat, q: nat)
    requires i < n && 0 < 2 * q < n
    ensures if i < 2 * q then LevelSides(i, 2 * q) == LevelSides(i, n)
            else LevelSides(i - 2 * q, n - 2 * q) == LevelSides(i, n)
  {
    SameParity(i, q);
    SameParity(2 * q - 1, q);
  }

  lemma SameParity(i: int, q: int)
    ensures (i - 2 * q) % 2 == i % 2
  {
    assert i - 2 * q == 2 * (i / 2 - q) + i % 2;
  }

  /** Going up one level of the top-down tree: pairs of leaves become leaves. */
  lemma {:induction false} LevelUp(i: nat, n: nat)
    requires i < n && n >= 2
    ensures Sides(i, n) == LevelSides(i, n) + Sides(i / 2, (n + 1) / 2)
    decreases n, 1
  {
    if n == 2 {
      TwoLeaves(i);
    } else {
      LevelUpHalves(i, n, i / 2, (n + 1) / 2);
    }
  }

  lemma {:induction false} LevelUpHalves(i: nat, n: nat, i': nat, n': nat)
    requires i < n && n > 2 && i' == i / 2 && n' == (n + 1) / 2
    ensures Sides(i, n) == LevelSides(i, n) + Sides(i', n')
    decreases n, 0
  {
    hide *;
    var k, q := SplitPoint(n), SplitPoint(n');
    SidesStep(i, n);
    SidesStep(i', n');
    assert k == 2 * q;
    LevelSidesOfHalf(i, n, q);
    if i < k {
      LevelUp(i, k);
      assert (k + 1) / 2 == q;
    } else {
      assert (i - k) / 2 == i' - q && (n - k + 1) / 2 == n' - q;
      if n - k > 1 {
        LevelUp(i - k, n - k);
      } else {
        TwoLeaves(0);
        OnlyLeaf(i - k);
      }
    }
  }

  lemma OnlyLeaf(i: nat)
    requires i == 0
    ensures LevelSides(i, 1) == []
  {
  }

  /** Top down and bottom up, the shape is the same. */
  lemma {:induction false} SidesBothWays(i: nat, n: nat)
    requires i < n
    ensures Sides(i, n) == SidesUp(i, n - 1)
    decreases n
  {
    if n > 1 {
      LevelUp(i, n);
      SidesBothWays(i / 2, (n + 1) / 2);
      assert (n + 1) / 2 - 1 == (n - 1) / 2;
    }
  }

  lemma ConsistencySidesStep(m: nat, n: nat)
    requires 0 < m < n
    ensures var k := SplitPoint(n);
            && 0 < k < n <= 2 * k
            && (n > 2 ==> k == 2 * SplitPoint((n + 1) / 2))
            && ConsistencySides(m, n) == (if m <= k then ConsistencySides(m, k) + [RightSibling]
                                          else ConsistencySides(m - k, n - k) + [LeftSibling])
            && ConsistencySides(k, k) == []
  {
  }

  /** While the old size is even, its last subtree is a subtree of the level above. */
  lemma {:induction false} ConsistencyLevelUp(m: nat, n: nat, m': nat, n': nat)
    requires 0 < m < n && m == 2 * m' && n' == (n + 1) / 2
    ensures m' < n'
    ensures ConsistencySides(m, n) == ConsistencySides(m', n')
    decreases n
  {
    hide *;
    var k, q := SplitPoint(n), SplitPoint(n');
    ConsistencySidesStep(m, n);
    ConsistencySidesStep(m', n');
    assert k == 2 * q;
    if m < k {
      ConsistencyLevelUp(m, k, m', q);
    } else if m > k {
      assert (n - k + 1) / 2 == n' - q;
      ConsistencyLevelUp(m - k, n - k, m' - q, n' - q);
    }
  }

  /** When the old size is odd, its last subtree is its last leaf. */
  lemma {:induction false} ConsistencyOdd(m: nat, n: nat)
    requires 0 < m < n && m % 2 == 1
    ensures ConsistencySides(m, n) == Sides(m - 1, n)
    decreases n
  {
    hide *;
    var k := SplitPoint(n);
    ConsistencySidesStep(m, n);
    SidesStep(m - 1, n);
    if m < k {
      ConsistencyOdd(m, k);
    } else if m > k {
      ConsistencyOdd(m - k, n - k);
    } else {
      OddSplit(n);
    }
  }

  /** A split point is odd only for two leaves. */
  lemma OddSplit(n: nat)
    requires n >= 2 && SplitPoint(n) % 2 == 1
    ensures n == 2 && SplitPoint(n) == 1 && Sides(0, 1) == [] && ConsistencySides(1, 1) == []
  {
    SidesStep(0, n);
  }

  lemma {:induction false} SidesUpNonempty(fn: nat, sn: nat)
    requires fn <= sn && sn > 0
    ensures SidesUp(fn, sn) != []
  {
    if fn % 2 == 0 && fn == sn {
      SidesUpNonempty(fn / 2, sn / 2);
    }
  }

  // ---------------------------------------------------------------- verdicts

  /** What VerifyInclusion decides, said with the recursive tree. */
  function InclusionVerdict(h: HashFn, leafData: Bytes, m: int, n: int, proof: seq<Digest>, root: Bytes): Verdict {
    if m < 0 || n <= 0 || m >= n then BadLeafIndex
    else if |proof| != |Sides(m, n)| then BadInclusion
    else if FoldRoot(h, LeafHash(h, leafData), Sides(m, n), proof) != root then BadInclusion
    else Accepted
  }

  /** The seed and the siblings that a consistency proof stands for: the old root is the seed
      exactly when the old size is a power of two. */
  function SeedAndPath(m: nat, oldRoot: Digest, proof: seq<Digest>): Option<(Digest, seq<Digest>)> {
    if IsPowerOfTwo(m) then Some((oldRoot, proof))
    else if proof == [] then None
    else Some((proof[0], proof[1..]))
  }

  /** What VerifyConsistency decides, said with the recursive tree. */
  function ConsistencyVerdict(h: HashFn, m: int, n: int, oldRoot: Bytes, newRoot: Bytes, proof: seq<Digest>): Verdict {
    if m <= 0 || n < m then BadTreeSize
    else if |oldRoot| != 32 || |newRoot| != 32 then BadConsistency
    else if m == n then (if proof == [] && oldRoot == newRoot then Accepted else BadConsistency)
    else match SeedAndPath(m, oldRoot, proof)
      case None => BadConsistency
      case Some((seed, path)) => PairVerdict(h, ConsistencySides(m, n), seed, path, oldRoot, newRoot)
  }

  /** Both roots recomputed from one seed and one path. */
  function PairVerdict(h: HashFn, sides: seq<Side>, seed: Digest, path: seq<Digest>, oldRoot: Bytes,
                       newRoot: Bytes): Verdict
  {
    if |path| == |sides| && FoldOldRoot(h, seed, sides, path) == oldRoot && FoldRoot(h, seed, sides, path) == newRoot
    then Accepted else BadConsistency
  }

  /** Every byte string VerifyInclusion hashes. */
  function InclusionInputs(h: HashFn, leafData: Bytes, m: int, n: int, proof: seq<Digest>): set<Bytes> {
    {LeafInput(leafData)}
    + if 0 <= m < n && |proof| == |Sides(m, n)| then FoldInputs(h, LeafHash(h, leafData), Sides(m, n), proof) else {}
  }

  /** Every byte string VerifyConsistency hashes towards the new root. */
  function ConsistencyInputs(h: HashFn, m: int, n: int, oldRoot: Bytes, proof: seq<Digest>): set<Bytes> {
    if 0 < m < n && |oldRoot| == 32 then
      match SeedAndPath(m, oldRoot, proof)
      case None => {}
      case Some((seed, path)) =>
        if |path| == |ConsistencySides(m, n)| then FoldInputs(h, seed, ConsistencySides(m, n), path) else {}
    else {}
  }

  // ------------------------------------------------------------------- loops

  /** largestPowerOfTwoBelow, by doubling. */
  method LargestPowerOfTwoBelow(n: nat) returns (k: nat)
    ensures n >= 2 ==> k == SplitPoint(n)
    ensures n < 2 ==> k == 1
  {
    k := 1;
    while k * 2 < n
      invariant IsPowerOfTwo(k) && (k == 1 || k < n)
    {
      assert (k * 2) / 2 == k;
      k := k * 2;
    }
    if n >= 2 {
      PowerOfTwoUnique(k, SplitPoint(n), n);
    }
  }

  /** The state of a verifier's loop after `j` siblings: what is left of the shape above the
      current level, and the hash of the part below it. */
  ghost predicate Climbed(sides: seq<Side>, j: nat, fn: nat, sn: nat) {
    fn <= sn && j <= |sides| && SidesUp(fn, sn) == sides[j..]
  }

  lemma ClimbEnd(sides: seq<Side>, j: nat, fn: nat, sn: nat)
    requires Climbed(sides, j, fn, sn)
    ensures sn == 0 <==> j == |sides|
  {
    if sn > 0 { SidesUpNonempty(fn, sn); }
  }

  lemma ClimbNext(sides: seq<Side>, j: nat, fn: nat, sn: nat)
    requires Climbed(sides, j, fn, sn)
    requires sn > 0 && (fn % 2 == 1 || fn < sn)
    ensures j < |sides| && sides[j] == (if fn % 2 == 1 then LeftSibling else RightSibling)
    ensures Climbed(sides, j + 1, fn / 2, sn / 2)
  {
    assert sides[j..] == [sides[j]] + sides[j + 1..];
  }

  /** Carry a node without a sibling up to the level where it has one. */
  method CarryUp(ghost sides: seq<Side>, ghost j: nat, fn0: nat, sn0: nat) returns (fn: nat, sn: nat)
    requires Climbed(sides, j, fn0, sn0) && sn0 > 0 && (fn0 % 2 == 1 || fn0 == sn0)
    ensures Climbed(sides, j, fn, sn) && sn > 0 && fn % 2 == 1
  {
    fn, sn := fn0, sn0;
    while fn % 2 == 0 && fn != 0
      invariant sn > 0 && (fn % 2 == 1 || fn == sn)
      invariant Climbed(sides, j, fn, sn)
      decreases fn
    {
      fn, sn := fn / 2, sn / 2;
    }
  }

  lemma FoldStart(h: HashFn, seed: Digest, sides: seq<Side>, path: seq<Digest>)
    ensures FoldRoot(h, seed, sides[..0], path[..0]) == seed
    ensures FoldOldRoot(h, seed, sides[..0], path[..0]) == seed
  {
  }

  lemma FoldNext(h: HashFn, seed: Digest, sides: seq<Side>, path: seq<Digest>, j: nat)
    requires j < |sides| && j < |path|
    ensures FoldRoot(h, seed, sides[..j + 1], path[..j + 1])
            == Join(h, sides[j], path[j], FoldRoot(h, seed, sides[..j], path[..j]))
    ensures FoldOldRoot(h, seed, sides[..j + 1], path[..j + 1])
            == if sides[j] == LeftSibling then NodeHash(h, path[j], FoldOldRoot(h, seed, sides[..j], path[..j]))
               else FoldOldRoot(h, seed, sides[..j], path[..j])
  {
    assert sides[..j + 1] == sides[..j] + [sides[j]] && path[..j + 1] == path[..j] + [path[j]];
    FoldSnoc(h, seed, sides[..j], path[..j], sides[j], path[j]);
  }

  method VerifyInclusion(h: HashFn, leafData: Bytes, m: int, n: int, proof: seq<Digest>, root: Bytes)
    returns (v: Verdict)
    ensures v == InclusionVerdict(h, leafData, m, n, proof, root)
  {
    if m < 0 || n <= 0 || m >= n { return BadLeafIndex; }
    var fn: nat, sn: nat := m, n - 1;
    var r := LeafHash(h, leafData);
    ghost var seed, sides := r, Sides(m, n);
    SidesBothWays(m, n);
    FoldStart(h, seed, sides, proof);
    assert Climbed(sides, 0, fn, sn);
    hide Sides, SidesUp, LeafHash, FoldRoot, FoldOldRoot, Climbed;
    for j := 0 to |proof|
      invariant fn <= sn && j <= |sides| && Climbed(sides, j, fn, sn)
      invariant r == FoldRoot(h, seed, sides[..j], proof[..j])
    {
      ClimbEnd(sides, j, fn, sn);
      if sn == 0 { return BadInclusion; }
      if fn % 2 == 1 || fn == sn {
        r := NodeHash(h, proof[j], r);
        fn, sn := CarryUp(sides, j, fn, sn);
      } else {
        r := NodeHash(h, r, proof[j]);
      }
      ClimbNext(sides, j, fn, sn);
      FoldNext(h, seed, sides, proof, j);
      fn, sn := fn / 2, sn / 2;
    }
    ClimbEnd(sides, |proof|, fn, sn);
    assert proof[..|proof|] == proof && (sn == 0 ==> sides[..|proof|] == sides);
    if sn != 0 || r != root { return BadInclusion; }
    return Accepted;
  }

  lemma StripOne(fn: nat, sn: nat, f: nat, s: nat)
    requires fn < sn && fn == 2 * f + 1 && s == sn / 2
    ensures f < s
    ensures ConsistencySides(fn + 1, sn + 1) == ConsistencySides(f + 1, s + 1)
    ensures IsPowerOfTwo(fn + 1) == IsPowerOfTwo(f + 1)
  {
    hide *;
    PowerOfTwoDouble(f + 1);
    ConsistencyLevelUp(fn + 1, sn + 1, f + 1, s + 1);
  }

  lemma PowerOfTwoDouble(k: nat)
    requires k > 0
    ensures IsPowerOfTwo(2 * k) == IsPowerOfTwo(k)
  {
    assert (2 * k) / 2 == k;
  }

  lemma StripDone(fn: nat, sn: nat)
    requires fn < sn && fn % 2 == 0
    ensures SidesUp(fn, sn) == ConsistencySides(fn + 1, sn + 1)
    ensures fn == 0 <==> IsPowerOfTwo(fn + 1)
  {
    ConsistencyOdd(fn + 1, sn + 1);
    SidesBothWays(fn, sn + 1);
  }

  /** Stripping the trailing ones of `oldSize - 1`: up to the level where the last subtree of
      the old tree is a single node. */
  method LastSubtree(oldSize: nat, newSize: nat) returns (fn: nat, sn: nat)
    requires 0 < oldSize < newSize
    ensures fn < sn
    ensures SidesUp(fn, sn) == ConsistencySides(oldSize, newSize)
    ensures fn == 0 <==> IsPowerOfTwo(oldSize)
  {
    hide *;
    fn, sn := oldSize - 1, newSize - 1;
    while fn % 2 == 1
      decreases fn
      invariant fn < sn
      invariant ConsistencySides(oldSize, newSize) == ConsistencySides(fn + 1, sn + 1)
      invariant IsPowerOfTwo(oldSize) == IsPowerOfTwo(fn + 1)
    {
      StripOne(fn, sn, fn / 2, sn / 2);
      fn, sn := fn / 2, sn / 2;
    }
    StripDone(fn, sn);
  }

  method VerifyConsistency(h: HashFn, oldSize: int, newSize: int, oldRoot: Bytes, newRoot: Bytes, proof0: seq<Digest>)
    returns (v: Verdict)
    ensures v == ConsistencyVerdict(h, oldSize, newSize, oldRoot, newRoot, proof0)
  {
    if oldSize <= 0 || newSize < oldSize { return BadTreeSize; }
    if |oldRoot| != 32 || |newRoot| != 32 { return BadConsistency; }
    if oldSize == newSize {
      if |proof0| == 0 && oldRoot == newRoot { return Accepted; }
      return BadConsistency;
    }
    hide ConsistencyVerdict, ConsistencySides, SidesUp, IsPowerOfTwo, PairVerdict;
    VerdictIsPair(h, oldSize, newSize, oldRoot, newRoot, proof0);
    var proof := proof0;
    var fn, sn := LastSubtree(oldSize, newSize);
    var seed: Digest;
    if fn == 0 {
      seed := oldRoot;
    } else {
      if |proof| == 0 { return BadConsistency; }
      seed := proof[0];
      proof := proof[1..];
    }
    v := ClimbBoth(h, ConsistencySides(oldSize, newSize), fn, sn, seed, proof, oldRoot, newRoot);
  }

  lemma VerdictIsPair(h: HashFn, oldSize: nat, newSize: nat, oldRoot: Digest, newRoot: Digest, proof: seq<Digest>)
    requires 0 < oldSize < newSize
    ensures ConsistencyVerdict(h, oldSize, newSize, oldRoot, newRoot, proof)
            == if IsPowerOfTwo(oldSize)
               then PairVerdict(h, ConsistencySides(oldSize, newSize), oldRoot, proof, oldRoot, newRoot)
               else if proof == [] then BadConsistency
               else PairVerdict(h, ConsistencySides(oldSize, newSize), proof[0], proof[1..], oldRoot, newRoot)
  {
    hide ConsistencySides, PairVerdict, IsPowerOfTwo;
  }

  /** The loop of VerifyConsistency, from the last subtree of the old tree: fr and sr climb together. */
  method ClimbBoth(h: HashFn, ghost sides: seq<Side>, fn0: nat, sn0: nat, seed: Digest, proof: seq<Digest>,
                   oldRoot: Digest, newRoot: Digest) returns (v: Verdict)
    requires fn0 <= sn0 && sides == SidesUp(fn0, sn0)
    ensures v == PairVerdict(h, sides, seed, proof, oldRoot, newRoot)
  {
    var fn, sn, fr, sr := fn0, sn0, seed, seed;
    FoldStart(h, seed, sides, proof);
    assert Climbed(sides, 0, fn, sn);
    hide SidesUp, FoldRoot, FoldOldRoot, Climbed;
    for j := 0 to |proof|
      invariant fn <= sn && j <= |sides| && Climbed(sides, j, fn, sn)
      invariant fr == FoldOldRoot(h, seed, sides[..j], proof[..j])
      invariant sr == FoldRoot(h, seed, sides[..j], proof[..j])
    {
      ClimbEnd(sides, j, fn, sn);
      if sn == 0 { return BadConsistency; }
      if fn % 2 == 1 || fn == sn {
        fr := NodeHash(h, proof[j], fr);
        sr := NodeHash(h, proof[j], sr);
        fn, sn := CarryUp(sides, j, fn, sn);
      } else {
        sr := NodeHash(h, sr, proof[j]);
      }
      ClimbNext(sides, j, fn, sn);
      FoldNext(h, seed, sides, proof, j);
      fn, sn := fn / 2, sn / 2;
    }
    ClimbEnd(sides, |proof|, fn, sn);
    assert proof[..|proof|] == proof && (sn == 0 ==> sides[..|proof|] == sides);
    if sn != 0 || fr != oldRoot || sr != newRoot { return BadConsistency; }
    return Accepted;
  }

  // ---------------------------------------------------------------- theorems

  lemma {:induction false} LeafAsked(h: HashFn, d: seq<Bytes>, m: nat)
    requires m < |d|
    ensures LeafInput(d[m]) in RootInputs(h, d)
    decreases |d|
  {
    if |d| > 1 {
      var left, e, i := InclusionStep(h, d, m);
      HalfInputs(h, d);
      LeafAsked(h, e, i);
    }
  }

  /** Against the root of `d`, the loop accepts a leaf at `m` with a proof exactly when it is
      the leaf at `m` and the proof is the generated one. */
  lemma InclusionExact(h: HashFn, d: seq<Bytes>, x: Bytes, m: int, proof: seq<Digest>)
    ensures 0 <= m < |d| && x == d[m] && InclusionProof(h, d, m) == Some(proof)
            ==> InclusionVerdict(h, x, m, |d|, proof, Root(h, d)) == Accepted
    ensures InclusionVerdict(h, x, m, |d|, proof, Root(h, d)) == Accepted
            ==> || (0 <= m < |d| && x == d[m] && InclusionProof(h, d, m) == Some(proof))
                || CollisionIn(h, RootInputs(h, d) + InclusionInputs(h, x, m, |d|, proof))
  {
    if 0 <= m < |d| {
      InclusionComplete(h, d, m);
      if InclusionVerdict(h, x, m, |d|, proof, Root(h, d)) == Accepted {
        var asked := RootInputs(h, d) + InclusionInputs(h, x, m, |d|, proof);
        InclusionSound(h, d, m, LeafHash(h, x), proof);
        LeafAsked(h, d, m);
        if CollisionIn(h, RootInputs(h, d) + FoldInputs(h, LeafHash(h, x), Sides(m, |d|), proof)) {
          CollisionMonotone(h, RootInputs(h, d) + FoldInputs(h, LeafHash(h, x), Sides(m, |d|), proof), asked);
        } else if x != d[m] {
          if LeafInput(x) == LeafInput(d[m]) { LeafInputInjective(x, d[m]); }
          assert LeafInput(x) in asked && LeafInput(d[m]) in asked;
        }
      }
    }
  }

  /** Seed and path together are the generated ones exactly when the proof is, and, for a power
      of two, the old root is. */
  lemma SeedIsProof(h: HashFn, d: seq<Bytes>, m: nat, oldRoot: Digest, proof: seq<Digest>)
    requires 0 < m < |d|
    ensures |SeededPath(h, d, m)| == 1 + |ConsistencySides(m, |d|)|
    ensures match SeedAndPath(m, oldRoot, proof)
            case None => ConsistencyProof(h, d, m) != Some(proof)
            case Some((seed, path)) =>
              [seed] + path == SeededPath(h, d, m)
              <==> ConsistencyProof(h, d, m) == Some(proof) && (IsPowerOfTwo(m) ==> oldRoot == Root(h, d[..m]))
  {
    hide *;
    ProofIs(h, d, m);
    SeedSplit(SeededPath(h, d, m), m, oldRoot, proof);
  }

  lemma ProofIs(h: HashFn, d: seq<Bytes>, m: nat)
    requires 0 < m < |d|
    ensures |SeededPath(h, d, m)| == 1 + |ConsistencySides(m, |d|)|
    ensures ConsistencyProof(h, d, m)
            == Some(if IsPowerOfTwo(m) then SeededPath(h, d, m)[1..] else SeededPath(h, d, m))
    ensures IsPowerOfTwo(m) ==> SeededPath(h, d, m)[0] == Root(h, d[..m])
  {
    hide IsPowerOfTwo, ConsistencyPath, Root, SeededPath, ConsistencySides;
    CompletePath(h, d, m);
    SeededPathShape(h, d, m);
  }

  lemma SeedSplit(p: seq<Digest>, m: nat, oldRoot: Digest, proof: seq<Digest>)
    requires p != []
    ensures match SeedAndPath(m, oldRoot, proof)
            case None => proof == [] && !IsPowerOfTwo(m)
            case Some((seed, path)) =>
              [seed] + path == p <==> (if IsPowerOfTwo(m) then oldRoot == p[0] && proof == p[1..] else proof == p)
  {
    hide IsPowerOfTwo;
    assert p == [p[0]] + p[1..];
    assert proof != [] ==> proof == [proof[0]] + proof[1..];
    assert ([oldRoot] + proof)[0] == oldRoot && ([oldRoot] + proof)[1..] == proof;
  }

  lemma PairExact(h: HashFn, d: seq<Bytes>, m: nat, seed: Digest, path: seq<Digest>, oldRoot: Digest)
    requires 0 < m < |d|
    ensures [seed] + path == SeededPath(h, d, m) && oldRoot == Root(h, d[..m])
            ==> PairVerdict(h, ConsistencySides(m, |d|), seed, path, oldRoot, Root(h, d)) == Accepted
    ensures PairVerdict(h, ConsistencySides(m, |d|), seed, path, oldRoot, Root(h, d)) == Accepted
            ==> |path| == |ConsistencySides(m, |d|)|
                && (|| ([seed] + path == SeededPath(h, d, m) && oldRoot == Root(h, d[..m]))
                    || CollisionIn(h, RootInputs(h, d) + FoldInputs(h, seed, ConsistencySides(m, |d|), path)))
  {
    hide SeededPath, Root, ConsistencySides, FoldRoot, FoldOldRoot, RootInputs, FoldInputs, CollisionIn;
    ConsistencyComplete(h, d, m);
    assert ([seed] + path)[0] == seed && ([seed] + path)[1..] == path;
    if PairVerdict(h, ConsistencySides(m, |d|), seed, path, oldRoot, Root(h, d)) == Accepted {
      ConsistencySound(h, d, m, seed, path);
    }
  }

  /** Against the root of `d`, the loop accepts an old size and root with a proof exactly when
      that root is the root of that prefix of `d` and the proof is the generated one. */
  lemma ConsistencyExact(h: HashFn, d: seq<Bytes>, m: int, oldRoot: Bytes, proof: seq<Digest>)
    ensures 0 < m <= |d| && oldRoot == Root(h, d[..m]) && ConsistencyProof(h, d, m) == Some(proof)
            ==> ConsistencyVerdict(h, m, |d|, oldRoot, Root(h, d), proof) == Accepted
    ensures ConsistencyVerdict(h, m, |d|, oldRoot, Root(h, d), proof) == Accepted
            ==> || (0 < m <= |d| && oldRoot == Root(h, d[..m]) && ConsistencyProof(h, d, m) == Some(proof))
                || CollisionIn(h, RootInputs(h, d) + ConsistencyInputs(h, m, |d|, oldRoot, proof))
  {
    hide ConsistencyPath, Root, ConsistencySides, IsPowerOfTwo, SeededPath, RootInputs, FoldInputs, CollisionIn,
         PairVerdict, SeedAndPath;
    if m == |d| {
      assert d[..m] == d;
    } else if 0 < m < |d| && |oldRoot| == 32 {
      SeedIsProof(h, d, m, oldRoot, proof);
      if SeedAndPath(m, oldRoot, proof).Some? {
        var (seed, path) := SeedAndPath(m, oldRoot, proof).value;
        PairExact(h, d, m, seed, path, oldRoot);
      }
    }
  }
}
