/** Opening the ledger (internal/store/integrity.go): one pass over the block table that checks
    signatures only above an attested checkpoint, and the root below it. */
module Integrity {
  import opened Bytes
  import opened Hashing
  import Hex
  import Merkle
  import opened Blocks
  import opened Store

  datatype Fault = Sequence | HashFault | SignatureText | LeafFault | NoSigner | UnexpectedKey | SignerChanged
                 | UnreadableBlock | BlockFault(problem: Problem) | LinkFault(problem: Problem)
                 | MissingHistory | RootMismatch

  /** What walk has built so far: the leaves, the last block it decoded, the signer of block 0. */
  datatype Pass = Pass(leaves: seq<Bytes>, prev: Option<Block>, signer: Bytes) | Stopped(fault: Fault)

  type Going = p: Pass | p.Pass? witness Pass([], None, [])

  const START: Going := Pass([], None, [])

  /** The checks made on every row, whatever the checkpoint: position, hash of the stored bytes,
      the leaf, and the signer read by search. */
  function RowLeaf(env: Env, row: Row, i: nat): Pass {
    if row.idx != i then Stopped(Sequence)
    else if Hex.Encode(env.sha(row.headerJson)) != row.hash then Stopped(HashFault)
    else if !IsHash(row.hash) then Stopped(HashFault)
    else
      var sig := Hex.Decode(row.signature);
      if sig.None? then Stopped(SignatureText)
      else if |sig.value| != 64 then Stopped(LeafFault)
      else
        var signer := SignerOf(row.headerJson);
        if signer.None? then Stopped(NoSigner)
        else Pass([env.sha(row.headerJson) + sig.value], None, signer.value)
  }

  /** One turn of walk's loop. */
  function Turn(env: Env, row: Row, i: nat, signedFrom: nat, expected: Bytes, p: Going): Pass {
    var r := RowLeaf(env, row, i);
    if r.Stopped? then r
    else if expected != [] && r.signer != expected then Stopped(UnexpectedKey)
    else if i > 0 && r.signer != p.signer then Stopped(SignerChanged)
    else
      var next := Pass(p.leaves + r.leaves, p.prev, if i == 0 then r.signer else p.signer);
      if i + 1 < signedFrom then next
      else
        var b := BlockOf(env, row);
        if b.None? then Stopped(UnreadableBlock)
        else if i >= signedFrom && Blocks.Verify(env, b.value).Some? then
          Stopped(BlockFault(Blocks.Verify(env, b.value).value))
        else if i >= signedFrom && p.prev.Some? && VerifyLink(env, p.prev.value, b.value).Some? then
          Stopped(LinkFault(VerifyLink(env, p.prev.value, b.value).value))
        else next.(prev := b)
  }

  function WalkFrom(env: Env, rows: seq<Row>, signedFrom: nat, expected: Bytes, i: nat, p: Going): Pass
    requires i <= |rows|
    decreases |rows| - i
  {
    if i == |rows| then p
    else
      var q := Turn(env, rows[i], i, signedFrom, expected, p);
      if q.Stopped? then q else WalkFrom(env, rows, signedFrom, expected, i + 1, q)
  }

  /** walk. */
  method Walk(env: Env, rows: seq<Row>, signedFrom: nat, expected: Bytes) returns (p: Pass)
    ensures p == WalkFrom(env, rows, signedFrom, expected, 0, START)
  {
    hide *;
    var leaves: seq<Bytes>, prev: Option<Block>, signer: Bytes, i := [], None, [], 0;
    StartIs();
    while i < |rows|
      invariant i <= |rows|
      invariant WalkFrom(env, rows, signedFrom, expected, i, Pass(leaves, prev, signer))
             == WalkFrom(env, rows, signedFrom, expected, 0, START)
    {
      WalkStep(env, rows, signedFrom, expected, i, Pass(leaves, prev, signer));
      var row := rows[i];
      var q := Turn(env, row, i, signedFrom, expected, Pass(leaves, prev, signer));
      if q.Stopped? { return q; }
      leaves, prev, signer := q.leaves, q.prev, q.signer;
      i := i + 1;
    }
    WalkEnd(env, rows, signedFrom, expected, Pass(leaves, prev, signer));
    return Pass(leaves, prev, signer);
  }

  lemma StartIs()
    ensures START == Pass([], None, [])
  {
  }

  lemma WalkStep(env: Env, rows: seq<Row>, signedFrom: nat, expected: Bytes, i: nat, p: Going)
    requires i < |rows|
    ensures var q := Turn(env, rows[i], i, signedFrom, expected, p);
            WalkFrom(env, rows, signedFrom, expected, i, p)
            == if q.Stopped? then q else WalkFrom(env, rows, signedFrom, expected, i + 1, q)
  {
  }

  lemma WalkEnd(env: Env, rows: seq<Row>, signedFrom: nat, expected: Bytes, p: Going)
    ensures WalkFrom(env, rows, signedFrom, expected, |rows|, p) == p
  {
  }

  // ------------------------------------------------------- what walk accepts

  ghost predicate RowGood(env: Env, rows: seq<Row>, expected: Bytes, i: nat)
    requires i < |rows|
  {
    var r := RowLeaf(env, rows[i], i);
    && r.Pass?
    && (expected != [] ==> r.signer == expected)
    && r.signer == FirstSigner(env, rows)
  }

  /** The signer of block 0, if it can be read. */
  ghost function FirstSigner(env: Env, rows: seq<Row>): Bytes {
    if rows != [] && RowLeaf(env, rows[0], 0).Pass? then RowLeaf(env, rows[0], 0).signer else []
  }

  /** A block at or above the checkpoint: it verifies and follows the one before it. */
  ghost predicate BlockGood(env: Env, rows: seq<Row>, i: nat)
    requires i < |rows|
  {
    var b := BlockOf(env, rows[i]);
    && b.Some? && Blocks.Verify(env, b.value) == None
    && (i > 0 ==> BlockOf(env, rows[i - 1]).Some? && VerifyLink(env, BlockOf(env, rows[i - 1]).value, b.value) == None)
  }

  ghost predicate GoodUpTo(env: Env, rows: seq<Row>, signedFrom: nat, expected: Bytes, n: nat)
    requires n <= |rows|
  {
    && (forall i :: 0 <= i < n ==> RowGood(env, rows, expected, i))
    && (forall i :: 0 <= i < n && i + 1 >= signedFrom ==> BlockOf(env, rows[i]).Some?)
    && (forall i :: 0 <= i < n && i >= signedFrom ==> BlockGood(env, rows, i))
  }

  ghost function Leaves(env: Env, rows: seq<Row>, n: nat): (l: seq<Bytes>)
    requires n <= |rows|
    ensures |l| == n
  {
    seq(n, i requires 0 <= i < n => LeafOf(RowLeaf(env, rows[i], i)))
  }

  ghost function LeafOf(p: Pass): Bytes {
    if p.Pass? && |p.leaves| == 1 then p.leaves[0] else []
  }

  /** The state walk is in after `n` good rows. */
  ghost predicate StateAfter(env: Env, rows: seq<Row>, signedFrom: nat, expected: Bytes, n: nat, p: Going)
    requires n <= |rows|
  {
    && GoodUpTo(env, rows, signedFrom, expected, n)
    && p.leaves == Leaves(env, rows, n)
    && p.signer == (if n == 0 then [] else FirstSigner(env, rows))
    && p.prev == (if n == 0 || n < signedFrom then None else BlockOf(env, rows[n - 1]))
  }

  lemma TurnMeaning(env: Env, rows: seq<Row>, signedFrom: nat, expected: Bytes, n: nat, p: Going)
    requires n < |rows| && StateAfter(env, rows, signedFrom, expected, n, p)
    ensures var q := Turn(env, rows[n], n, signedFrom, expected, p);
            && (q.Pass? <==> GoodUpTo(env, rows, signedFrom, expected, n + 1))
            && (q.Pass? ==> StateAfter(env, rows, signedFrom, expected, n + 1, q))
  {
    hide RowLeaf, BlockOf, Blocks.Verify, VerifyLink;
    OneLeaf(env, rows[n], n);
    GoodOneMore(env, rows, signedFrom, expected, n);
    hide GoodUpTo;
    PrevIsDecoded(env, rows, signedFrom, expected, n, p);
    var q := Turn(env, rows[n], n, signedFrom, expected, p);
    if q.Pass? { assert q.leaves == Leaves(env, rows, n + 1); }
  }

  lemma PrevIsDecoded(env: Env, rows: seq<Row>, signedFrom: nat, expected: Bytes, n: nat, p: Going)
    requires n <= |rows| && StateAfter(env, rows, signedFrom, expected, n, p)
    ensures p.prev.Some? <==> n > 0 && n >= signedFrom
    ensures p.prev.Some? ==> p.prev == BlockOf(env, rows[n - 1])
  {
    hide RowGood, BlockOf, BlockGood;
  }

  lemma GoodOneMore(env: Env, rows: seq<Row>, signedFrom: nat, expected: Bytes, n: nat)
    requires n < |rows|
    ensures GoodUpTo(env, rows, signedFrom, expected, n + 1)
            <==> && GoodUpTo(env, rows, signedFrom, expected, n)
                 && RowGood(env, rows, expected, n)
                 && (n + 1 >= signedFrom ==> BlockOf(env, rows[n]).Some?)
                 && (n >= signedFrom ==> BlockGood(env, rows, n))
  {
    hide RowGood, BlockOf, BlockGood;
  }

  lemma OneLeaf(env: Env, row: Row, i: nat)
    ensures var r := RowLeaf(env, row, i); r.Pass? ==> r.leaves == [LeafOf(r)]
  {
  }

  lemma {:induction false} WalkMeaningFrom(env: Env, rows: seq<Row>, signedFrom: nat, expected: Bytes, n: nat, p: Going)
    requires n <= |rows| && StateAfter(env, rows, signedFrom, expected, n, p)
    ensures var q := WalkFrom(env, rows, signedFrom, expected, n, p);
            && (q.Pass? <==> GoodUpTo(env, rows, signedFrom, expected, |rows|))
            && (q.Pass? ==> StateAfter(env, rows, signedFrom, expected, |rows|, q))
    decreases |rows| - n
  {
    hide *;
    if n == |rows| {
      WalkEnd(env, rows, signedFrom, expected, p);
      StateIsGood(env, rows, signedFrom, expected, p);
    } else {
      WalkStep(env, rows, signedFrom, expected, n, p);
      TurnMeaning(env, rows, signedFrom, expected, n, p);
      var q := Turn(env, rows[n], n, signedFrom, expected, p);
      if q.Pass? {
        WalkMeaningFrom(env, rows, signedFrom, expected, n + 1, q);
      } else if GoodUpTo(env, rows, signedFrom, expected, |rows|) {
        GoodIsMonotone(env, rows, signedFrom, expected, n + 1);
      }
    }
  }

  lemma StateIsGood(env: Env, rows: seq<Row>, signedFrom: nat, expected: Bytes, p: Going)
    requires StateAfter(env, rows, signedFrom, expected, |rows|, p)
    ensures GoodUpTo(env, rows, signedFrom, expected, |rows|)
  {
  }

  lemma GoodIsMonotone(env: Env, rows: seq<Row>, signedFrom: nat, expected: Bytes, n: nat)
    requires n <= |rows| && GoodUpTo(env, rows, signedFrom, expected, |rows|)
    ensures GoodUpTo(env, rows, signedFrom, expected, n)
  {
    hide RowGood, BlockGood, BlockOf;
  }

  /** walk accepts exactly the tables all of whose rows are good, and its leaves and its signer
      do not depend on the checkpoint. */
  lemma WalkMeaning(env: Env, rows: seq<Row>, signedFrom: nat, expected: Bytes)
    ensures var q := WalkFrom(env, rows, signedFrom, expected, 0, START);
            && (q.Pass? <==> GoodUpTo(env, rows, signedFrom, expected, |rows|))
            && (q.Pass? ==> q.leaves == Leaves(env, rows, |rows|) && q.signer == FirstSigner(env, rows))
  {
    hide RowGood, BlockGood, BlockOf, RowLeaf, WalkFrom;
    assert Leaves(env, rows, 0) == [];
    WalkMeaningFrom(env, rows, signedFrom, expected, 0, START);
  }

  // -------------------------------------------------- the fast form and the full one

  /** verifyRootAt. */
  function VerifyRootAt(h: HashFn, leaves: seq<Bytes>, size: nat, root: Bytes): Option<Fault> {
    if size > |leaves| then Some(MissingHistory)
    else if Merkle.Root(h, leaves[..size]) != root then Some(RootMismatch)
    else None
  }

  /** walk and then verifyRootAt, as verify calls them. */
  function Open(env: Env, rows: seq<Row>, signedFrom: nat, expected: Bytes, size: nat, root: Bytes): Pass {
    var p := WalkFrom(env, rows, signedFrom, expected, 0, START);
    if p.Stopped? then p
    else match VerifyRootAt(env.sha, p.leaves, size, root)
      case Some(f) => Stopped(f)
      case None => p
  }

  /** The stored headers that were hashed. */
  function HeaderInputs(rows: seq<Row>): set<Bytes> {
    set i | 0 <= i < |rows| :: rows[i].headerJson
  }

  /** What hashing the leaves of a table of `n` rows and its headers went through. */
  ghost function TableInputs(env: Env, rows: seq<Row>, n: nat): set<Bytes>
    requires n <= |rows|
  {
    HeaderInputs(rows) + Merkle.RootInputs(env.sha, Leaves(env, rows, n))
  }

  lemma OpenMeaning(env: Env, rows: seq<Row>, signedFrom: nat, expected: Bytes, size: nat, root: Bytes)
    ensures var p := Open(env, rows, signedFrom, expected, size, root);
            && (p.Pass? <==> && GoodUpTo(env, rows, signedFrom, expected, |rows|) && size <= |rows|
                             && Merkle.Root(env.sha, Leaves(env, rows, |rows|)[..size]) == root)
            && (p.Pass? ==> p.leaves == Leaves(env, rows, |rows|) && p.signer == FirstSigner(env, rows))
  {
    hide GoodUpTo, WalkFrom, FirstSigner, Merkle.Root, Leaves;
    WalkMeaning(env, rows, signedFrom, expected);
  }

  /** The same leaf comes from the same header and the same raw signature. */
  lemma SameLeafSameRow(env: Env, x: Row, y: Row, i: nat, inputs: set<Bytes>)
    requires RowLeaf(env, x, i).Pass? && RowLeaf(env, y, i).Pass?
    requires LeafOf(RowLeaf(env, x, i)) == LeafOf(RowLeaf(env, y, i))
    requires x.headerJson in inputs && y.headerJson in inputs
    ensures CollisionIn(env.sha, inputs)
            || (x.headerJson == y.headerJson && x.hash == y.hash
                && Hex.Decode(x.signature) == Hex.Decode(y.signature))
  {
    hide Hex.Encode, Hex.Decode, SignerOf;
    var a, b := env.sha(x.headerJson), env.sha(y.headerJson);
    var s: Bytes, u: Bytes := Hex.Decode(x.signature).value, Hex.Decode(y.signature).value;
    assert LeafOf(RowLeaf(env, x, i)) == a + s && LeafOf(RowLeaf(env, y, i)) == b + u;
    assert (a + s)[..32] == a && (b + u)[..32] == b && (a + s)[32..] == s && (b + u)[32..] == u;
  }

  /** The case of a signature's hexadecimal digits changes no verdict. */
  lemma VerdictIgnoresCase(env: Env, x: Row, y: Row)
    requires x.headerJson == y.headerJson && x.hash == y.hash
    requires Hex.Decode(x.signature) == Hex.Decode(y.signature)
    ensures BlockOf(env, x).Some? == BlockOf(env, y).Some?
    ensures BlockOf(env, x).Some? ==>
              && BlockOf(env, x).value.header == BlockOf(env, y).value.header
              && BlockOf(env, x).value.hash == BlockOf(env, y).value.hash
              && Blocks.Verify(env, BlockOf(env, x).value) == Blocks.Verify(env, BlockOf(env, y).value)
  {
    hide Hex.Encode, Hex.Decode, Validate, Canonical;
  }

  ghost predicate SameRows(x: seq<Row>, y: seq<Row>, n: nat)
    requires n <= |x| && n <= |y|
  {
    forall i :: 0 <= i < n ==> x[i].headerJson == y[i].headerJson && x[i].hash == y[i].hash
                               && Hex.Decode(x[i].signature) == Hex.Decode(y[i].signature)
  }

  lemma BlockGoodCarries(env: Env, x: seq<Row>, y: seq<Row>, n: nat, i: nat)
    requires i < n <= |x| && n <= |y| && SameRows(x, y, n) && BlockGood(env, y, i)
    ensures BlockGood(env, x, i)
  {
    hide Hex.Decode, Blocks.Verify;
    hide BlockOf;
    VerdictIgnoresCase(env, x[i], y[i]);
    if i > 0 { VerdictIgnoresCase(env, x[i - 1], y[i - 1]); }
  }

  /** Below the checkpoint the rows are the ones the attested table had. */
  lemma RowsBelow(env: Env, rows: seq<Row>, k: nat, expected: Bytes, h: seq<Row>, e: Bytes)
    requires GoodUpTo(env, rows, k, expected, |rows|) && GoodUpTo(env, h, 0, e, |h|)
    requires |h| == k <= |rows|
    requires Leaves(env, rows, |rows|)[..k] == Leaves(env, h, k)
    ensures SameRows(rows, h, k) || CollisionIn(env.sha, HeaderInputs(rows) + HeaderInputs(h))
  {
    var inputs := HeaderInputs(rows) + HeaderInputs(h);
    forall i | 0 <= i < k && !CollisionIn(env.sha, inputs)
      ensures rows[i].headerJson == h[i].headerJson && rows[i].hash == h[i].hash
              && Hex.Decode(rows[i].signature) == Hex.Decode(h[i].signature)
    {
      assert RowGood(env, rows, expected, i) && RowGood(env, h, e, i);
      hide RowLeaf, BlockGood, CollisionIn;
      assert Leaves(env, rows, |rows|)[..k][i] == LeafOf(RowLeaf(env, rows[i], i));
      assert Leaves(env, h, k)[i] == LeafOf(RowLeaf(env, h[i], i));
      SameLeafSameRow(env, rows[i], h[i], i, inputs);
    }
  }

  lemma FullFromFast(env: Env, rows: seq<Row>, k: nat, expected: Bytes, h: seq<Row>, e: Bytes)
    requires GoodUpTo(env, rows, k, expected, |rows|) && GoodUpTo(env, h, 0, e, |h|)
    requires |h| == k <= |rows| && SameRows(rows, h, k)
    ensures GoodUpTo(env, rows, 0, expected, |rows|)
  {
    hide RowGood, BlockGood, SameRows, BlockOf;
    forall i | 0 <= i < |rows| ensures BlockGood(env, rows, i) {
      if i < k { BlockGoodCarries(env, rows, h, k, i); }
    }
    forall i | 0 <= i < |rows| ensures BlockOf(env, rows[i]).Some? {
      BlockGoodDecodes(env, rows, i);
    }
  }

  lemma BlockGoodDecodes(env: Env, rows: seq<Row>, i: nat)
    requires i < |rows| && BlockGood(env, rows, i)
    ensures BlockOf(env, rows[i]).Some?
  {
  }

  lemma FastFromFull(env: Env, rows: seq<Row>, k: nat, expected: Bytes)
    requires GoodUpTo(env, rows, 0, expected, |rows|)
    ensures GoodUpTo(env, rows, k, expected, |rows|)
  {
    hide RowGood, BlockGood, BlockOf;
  }

  /** Skipping the signatures below an attested root changes nothing: if that root is the root of
      some table that passed the full walk, then the fast opening and the full one give the same
      answer on any table — accept the same tables, with the same leaves and signer — or a
      collision is among what the two tables hashed. */
  lemma FastOpenRefinesFull(env: Env, rows: seq<Row>, expected: Bytes, root: Bytes, h: seq<Row>, e: Bytes)
    requires Open(env, h, 0, e, |h|, root).Pass?
    ensures var k := |h|;
            var fast, full := Open(env, rows, k, expected, k, root), Open(env, rows, 0, expected, k, root);
            || (fast.Pass? == full.Pass? && (fast.Pass? ==> fast.leaves == full.leaves && fast.signer == full.signer))
            || (k <= |rows| && CollisionIn(env.sha, TableInputs(env, rows, k) + TableInputs(env, h, k)))
  {
    var k := |h|;
    var fast, full := Open(env, rows, k, expected, k, root), Open(env, rows, 0, expected, k, root);
    hide *;
    OpenMeaning(env, rows, k, expected, k, root);
    OpenMeaning(env, rows, 0, expected, k, root);
    OpenMeaning(env, h, 0, e, k, root);
    assert Leaves(env, h, k)[..k] == Leaves(env, h, k);
    if full.Pass? { FastFromFull(env, rows, k, expected); }
    if fast.Pass? { AttestedRows(env, rows, expected, root, h, e); }
  }

  lemma AttestedRows(env: Env, rows: seq<Row>, expected: Bytes, root: Bytes, h: seq<Row>, e: Bytes)
    requires GoodUpTo(env, rows, |h|, expected, |rows|) && GoodUpTo(env, h, 0, e, |h|)
    requires |h| <= |rows|
    requires Merkle.Root(env.sha, Leaves(env, rows, |rows|)[..|h|]) == root == Merkle.Root(env.sha, Leaves(env, h, |h|))
    ensures GoodUpTo(env, rows, 0, expected, |rows|)
            || CollisionIn(env.sha, TableInputs(env, rows, |h|) + TableInputs(env, h, |h|))
  {
    var k := |h|;
    var a, b := Leaves(env, rows, |rows|)[..k], Leaves(env, h, k);
    hide GoodUpTo, Merkle.Root, Merkle.RootInputs, RowLeaf, HeaderInputs;
    assert a == Leaves(env, rows, k);
    hide Leaves;
    var inputs := TableInputs(env, rows, k) + TableInputs(env, h, k);
    Merkle.RootInjective(env.sha, a, b);
    if a != b {
      CollisionMonotone(env.sha, Merkle.RootInputs(env.sha, a) + Merkle.RootInputs(env.sha, b), inputs);
    } else {
      RowsBelow(env, rows, k, expected, h, e);
      if SameRows(rows, h, k) {
        FullFromFast(env, rows, k, expected, h, e);
      } else {
        CollisionMonotone(env.sha, HeaderInputs(rows) + HeaderInputs(h), inputs);
      }
    }
  }
}
