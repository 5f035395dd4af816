/** The trees in the words of RFC 6962, section 2.1: the root of each list of leaves with its prefixes
    written out, and the proofs of the example of section 2.1.3, in the order the standard gives them. */
module MerkleStandard {
  import opened Bytes
  import opened Hashing
  import opened Merkle

  lemma {:induction false} PowersArePowers(e: nat)
    ensures IsPowerOfTwo(PowerOfTwo(e))
  {
    if e > 0 {
      PowersArePowers(e - 1);
      assert PowerOfTwo(e) / 2 == PowerOfTwo(e - 1);
    }
  }

  lemma {:induction false} PowersOnly(k: nat) returns (e: nat)
    requires IsPowerOfTwo(k)
    ensures k == PowerOfTwo(e)
  {
    if k == 1 {
      e := 0;
    } else {
      var half := PowersOnly(k / 2);
      e := half + 1;
    }
  }

  /** Every list of two leaves or more has such a cut. */
  lemma HasCut(n: nat) returns (e: nat)
    requires n >= 2
    ensures PowerOfTwo(e) < n <= 2 * PowerOfTwo(e)
  {
    e := PowersOnly(SplitPoint(n));
  }

  /** The empty list has the hash of the empty string; one leaf, that of a zero byte and the leaf. */
  lemma RootOfFew(h: HashFn, leaf: Bytes)
    ensures Root(h, []) == h([])
    ensures Root(h, [leaf]) == h([0] + leaf)
  {
  }

  /** A longer list, cut after the largest power of two below its length: a one byte, the root of the
      left part and that of the right one. */
  lemma RootOfParts(h: HashFn, left: seq<Bytes>, right: seq<Bytes>, e: nat)
    requires |left| == PowerOfTwo(e) && 0 < |right| <= |left|
    ensures Root(h, left + right) == h([1] + Root(h, left) + Root(h, right))
  {
    PowersArePowers(e);
    Parts(left, right);
    hide IsPowerOfTwo;
    PowerOfTwoUnique(|left|, SplitPoint(|left + right|), |left + right|);
  }

  lemma Parts<T>(left: seq<T>, right: seq<T>)
    ensures (left + right)[..|left|] == left && (left + right)[|left|..] == right
  {
  }

  // ------------------------------------------------- the example of seven leaves

  lemma InclusionIn(h: HashFn, left: seq<Bytes>, right: seq<Bytes>, e: nat, m: nat)
    requires |left| == PowerOfTwo(e) && 0 < |right| <= |left| && m < |left| + |right|
    ensures InclusionPath(h, left + right, m)
            == if m < |left| then InclusionPath(h, left, m) + [Root(h, right)]
               else InclusionPath(h, right, m - |left|) + [Root(h, left)]
  {
    PowersArePowers(e);
    Parts(left, right);
    hide IsPowerOfTwo, Root;
    PowerOfTwoUnique(|left|, SplitPoint(|left + right|), |left + right|);
  }

  lemma ConsistencyIn(h: HashFn, left: seq<Bytes>, right: seq<Bytes>, e: nat, m: nat, complete: bool)
    requires |left| == PowerOfTwo(e) && 0 < |right| <= |left| && 0 < m < |left| + |right|
    ensures ConsistencyPath(h, left + right, m, complete)
            == if m <= |left| then ConsistencyPath(h, left, m, complete) + [Root(h, right)]
               else ConsistencyPath(h, right, m - |left|, false) + [Root(h, left)]
  {
    PowersArePowers(e);
    Parts(left, right);
    hide IsPowerOfTwo, Root;
    PowerOfTwoUnique(|left|, SplitPoint(|left + right|), |left + right|);
  }

  lemma Whole(h: HashFn, d: seq<Bytes>)
    requires d != []
    ensures ConsistencyPath(h, d, |d|, true) == [] && ConsistencyPath(h, d, |d|, false) == [Root(h, d)]
    ensures |d| == 1 ==> InclusionPath(h, d, 0) == []
  {
    hide Root;
  }

  /** The nodes of the tree of section 2.1.3 over seven leaves, by the letters the standard gives them. */
  datatype Nodes = Nodes(a: Digest, b: Digest, c: Digest, d: Digest, e: Digest, f: Digest, g: Digest, h: Digest,
                         i: Digest, j: Digest, k: Digest, l: Digest)

  function Tree(h: HashFn, d: seq<Bytes>): Nodes
    requires |d| == 7
  {
    var a, b, c, dd, e, f, j := h([0] + d[0]), h([0] + d[1]), h([0] + d[2]), h([0] + d[3]), h([0] + d[4]),
                                h([0] + d[5]), h([0] + d[6]);
    var g, hh, i := h([1] + a + b), h([1] + c + dd), h([1] + e + f);
    Nodes(a, b, c, dd, e, f, g, hh, i, j, h([1] + g + hh), h([1] + i + j))
  }

  lemma RootsOfTwo(h: HashFn, x: Bytes, y: Bytes)
    ensures Root(h, [x, y]) == h([1] + h([0] + x) + h([0] + y))
  {
    RootOfFew(h, x);
    RootOfFew(h, y);
    assert [x] + [y] == [x, y];
    hide Root;
    RootOfParts(h, [x], [y], 0);
  }

  /** How seven leaves are cut. */
  lemma Cuts(d: seq<Bytes>)
    requires |d| == 7
    ensures d[..2] == [d[0], d[1]] && d[2..4] == [d[2], d[3]] && d[4..6] == [d[4], d[5]] && d[6..] == [d[6]]
    ensures [d[2]] + [d[3]] == d[2..4] && d[..2] + d[2..4] == d[..4] && d[4..6] + d[6..] == d[4..]
    ensures d[..4] + d[4..] == d
    ensures PowerOfTwo(0) == 1 && PowerOfTwo(1) == 2 && PowerOfTwo(2) == 4
  {
  }

  lemma TreeIs(h: HashFn, d: seq<Bytes>)
    requires |d| == 7
    ensures var t := Tree(h, d);
            && t.a == h([0] + d[0]) && t.b == h([0] + d[1]) && t.c == h([0] + d[2]) && t.d == h([0] + d[3])
            && t.e == h([0] + d[4]) && t.f == h([0] + d[5]) && t.j == h([0] + d[6])
            && t.g == h([1] + t.a + t.b) && t.h == h([1] + t.c + t.d) && t.i == h([1] + t.e + t.f)
            && t.k == h([1] + t.g + t.h) && t.l == h([1] + t.i + t.j)
  {
  }

  /** The roots of the subtrees. */
  lemma SubtreeRoots(h: HashFn, d: seq<Bytes>)
    requires |d| == 7
    ensures var t := Tree(h, d);
            && Root(h, d[..2]) == t.g && Root(h, d[2..4]) == t.h && Root(h, d[4..6]) == t.i && Root(h, d[6..]) == t.j
            && Root(h, d[..4]) == t.k && Root(h, d[4..]) == t.l && Root(h, d) == h([1] + t.k + t.l)
  {
    hide *;
    Cuts(d);
    TreeIs(h, d);
    RootsOfTwo(h, d[0], d[1]);
    RootsOfTwo(h, d[2], d[3]);
    RootsOfTwo(h, d[4], d[5]);
    RootOfFew(h, d[6]);
    RootOfParts(h, d[..2], d[2..4], 1);
    RootOfParts(h, d[4..6], d[6..], 1);
    RootOfParts(h, d[..4], d[4..], 2);
  }

  lemma InclusionOfTwo(h: HashFn, x: Bytes, y: Bytes)
    ensures InclusionPath(h, [x, y], 0) == [h([0] + y)] && InclusionPath(h, [x, y], 1) == [h([0] + x)]
  {
    RootOfFew(h, x);
    RootOfFew(h, y);
    assert [x] + [y] == [x, y];
    hide Root, InclusionPath;
    InclusionIn(h, [x], [y], 0, 0);
    InclusionIn(h, [x], [y], 0, 1);
    Whole(h, [x]);
    Whole(h, [y]);
  }

  /** The audit paths of section 2.1.3: for d0, [b, h, l]; for d3, [c, g, l]. */
  lemma LeftAuditPaths(h: HashFn, d: seq<Bytes>)
    requires |d| == 7
    ensures var t := Tree(h, d);
            && InclusionPath(h, d, 0) == [t.b] + [t.h] + [t.l] == [t.b, t.h, t.l]
            && InclusionPath(h, d, 3) == [t.c] + [t.g] + [t.l] == [t.c, t.g, t.l]
  {
    hide *;
    Cuts(d);
    TreeIs(h, d);
    SubtreeRoots(h, d);
    InclusionOfTwo(h, d[0], d[1]);
    InclusionOfTwo(h, d[2], d[3]);
    InclusionIn(h, d[..2], d[2..4], 1, 0);
    InclusionIn(h, d[..2], d[2..4], 1, 3);
    InclusionIn(h, d[..4], d[4..], 2, 0);
    InclusionIn(h, d[..4], d[4..], 2, 3);
  }

  /** And for d4, [f, j, k]; for d6, [i, k]. */
  lemma RightAuditPaths(h: HashFn, d: seq<Bytes>)
    requires |d| == 7
    ensures var t := Tree(h, d);
            && InclusionPath(h, d, 4) == [t.f] + [t.j] + [t.k] == [t.f, t.j, t.k]
            && InclusionPath(h, d, 6) == [] + [t.i] + [t.k] == [t.i, t.k]
  {
    hide *;
    Cuts(d);
    TreeIs(h, d);
    SubtreeRoots(h, d);
    InclusionOfTwo(h, d[4], d[5]);
    Whole(h, d[6..]);
    InclusionIn(h, d[4..6], d[6..], 1, 0);
    InclusionIn(h, d[4..6], d[6..], 1, 2);
    InclusionIn(h, d[..4], d[4..], 2, 4);
    InclusionIn(h, d[..4], d[4..], 2, 6);
  }

  lemma ProofIs(h: HashFn, d: seq<Bytes>, m: nat)
    requires 0 < m < |d|
    ensures ConsistencyProof(h, d, m) == Some(ConsistencyPath(h, d, m, true))
  {
    hide ConsistencyPath;
  }

  /** The consistency proofs of section 2.1.3: from three leaves, [c, d, g, l]; from four, [l]; from six,
      [i, j, k]. */
  lemma ConsistencyProofs(h: HashFn, d: seq<Bytes>)
    requires |d| == 7
    ensures var t := Tree(h, d);
            && ConsistencyProof(h, d, 3) == Some([t.c] + [t.d] + [t.g] + [t.l])
            && ConsistencyProof(h, d, 4) == Some([] + [t.l])
            && ConsistencyProof(h, d, 6) == Some([t.i] + [t.j] + [t.k])
  {
    hide *;
    Cuts(d);
    TreeIs(h, d);
    SubtreeRoots(h, d);
    RootOfFew(h, d[2]);
    RootOfFew(h, d[3]);
    Whole(h, [d[2]]);
    Whole(h, d[..4]);
    Whole(h, d[4..6]);
    ConsistencyIn(h, [d[2]], [d[3]], 0, 1, false);
    ConsistencyIn(h, d[..2], d[2..4], 1, 3, true);
    ConsistencyIn(h, d[4..6], d[6..], 1, 2, false);
    ConsistencyIn(h, d[..4], d[4..], 2, 3, true);
    ConsistencyIn(h, d[..4], d[4..], 2, 4, true);
    ConsistencyIn(h, d[..4], d[4..], 2, 6, true);
    ProofIs(h, d, 3);
    ProofIs(h, d, 4);
    ProofIs(h, d, 6);
  }
}
