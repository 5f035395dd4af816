/** What opening means for a ledger that was only ever appended to: when it opens, and why skipping
    signatures below its checkpoints changes nothing. */
module OpeningAppended {
  import opened Bytes
  import opened Hashing
  import Hex
  import Merkle
  import N = Notes
  import PN = ProofNote
  import opened Blocks
  import opened Store
  import opened StoreRun
  import opened Integrity
  import opened Opening

  // -------------------------------------------------------------- one signer

  ghost predicate OneSigner(env: Env, rows: seq<Row>, signer: Bytes)
    requires Decodes(env, rows)
  {
    Hex.Lower(signer, 64) && forall i :: 0 <= i < |rows| ==> BlocksOf(env, rows)[i].header.signer == signer
  }

  lemma SoundRowLeaf(env: Env, rows: seq<Row>, signer: Bytes, i: nat)
    requires Sound(env, rows) && OneSigner(env, rows, signer) && i < |rows|
    ensures RowLeaf(env, rows[i], i).Pass? && RowLeaf(env, rows[i], i).signer == signer
    ensures BlockOf(env, rows[i]).Some?
            && LeafData(BlockOf(env, rows[i]).value) == Some(LeafOf(RowLeaf(env, rows[i], i)))
  {
    var b := BlocksOf(env, rows)[i];
    assert BlockOf(env, rows[i]) == Some(b);
    assert Blocks.Verify(env, b) == None && IsCanonical(env, rows[i]) && rows[i].idx == i;
    hide Sound, OneSigner, Chain;
    CanonicalRow(env, rows[i], b, signer, i);
  }

  lemma CanonicalRow(env: Env, row: Row, b: Block, signer: Bytes, i: nat)
    requires BlockOf(env, row) == Some(b) && Blocks.Verify(env, b) == None && IsCanonical(env, row) && row.idx == i
    requires b.header.signer == signer && Hex.Lower(signer, 64)
    ensures RowLeaf(env, row, i).Pass? && RowLeaf(env, row, i).signer == signer
    ensures LeafData(b) == Some(LeafOf(RowLeaf(env, row, i)))
  {
    hide Blocks.Verify, Canonical, SignerOf, Hex.Encode, Hex.Decode, Hex.Lower;
    SignerOfExact(b.header, signer);
    VerifiedForm(env, b);
    Hex.DecodeOfEncode(Blocks.Digest(env, b.header));
    VerifiedSignature(env, b);
  }

  lemma VerifiedSignature(env: Env, b: Block)
    requires Blocks.Verify(env, b) == None
    ensures Hex.Decode(b.signature).Some? && |Hex.Decode(b.signature).value| == 64
  {
    hide Canonical, Validate, Hex.Encode, Hex.Decode;
  }

  lemma SoundBlock(env: Env, rows: seq<Row>, i: nat)
    requires Sound(env, rows) && i < |rows|
    ensures BlockGood(env, rows, i)
  {
    hide BlockOf, Blocks.Verify, VerifyLink, IsCanonical;
    assert BlockOf(env, rows[i]) == Some(BlocksOf(env, rows)[i]);
    if i > 0 { assert BlockOf(env, rows[i - 1]) == Some(BlocksOf(env, rows)[i - 1]); }
  }

  lemma RowIsGood(env: Env, rows: seq<Row>, signer: Bytes, expected: Bytes, i: nat)
    requires Sound(env, rows) && OneSigner(env, rows, signer) && (expected == [] || expected == signer) && i < |rows|
    ensures RowGood(env, rows, expected, i) && BlockGood(env, rows, i)
  {
    hide RowLeaf, Sound, OneSigner, BlockGood, LeafData, BlockOf;
    SoundRowLeaf(env, rows, signer, i);
    SoundRowLeaf(env, rows, signer, 0);
    SoundBlock(env, rows, i);
  }

  lemma AllRowsGood(env: Env, rows: seq<Row>, signer: Bytes, expected: Bytes)
    requires Sound(env, rows) && OneSigner(env, rows, signer) && (expected == [] || expected == signer)
    ensures GoodUpTo(env, rows, 0, expected, |rows|)
  {
    hide RowGood, BlockGood, Sound, OneSigner, BlockOf;
    forall i | 0 <= i < |rows|
      ensures RowGood(env, rows, expected, i) && BlockGood(env, rows, i) && BlockOf(env, rows[i]).Some?
    {
      RowIsGood(env, rows, signer, expected, i);
      BlockGoodDecodes(env, rows, i);
    }
  }

  /** A ledger built by AppendRecord under one signer passes the full walk, and its leaves are the
      blocks' leaf data: what the log signs is what opening reconstructs. */
  lemma AppendedLedgerOpens(env: Env, rows: seq<Row>, signer: Bytes, expected: Bytes)
    requires Sound(env, rows) && OneSigner(env, rows, signer) && (expected == [] || expected == signer)
    ensures var w := WalkFrom(env, rows, 0, expected, 0, START);
            && w.Pass? && |w.leaves| == |rows| && (rows != [] ==> w.signer == signer)
            && forall i :: 0 <= i < |rows| ==>
                 BlockOf(env, rows[i]).Some? && LeafData(BlockOf(env, rows[i]).value) == Some(w.leaves[i])
  {
    AllRowsGood(env, rows, signer, expected);
    WalkMeaning(env, rows, 0, expected);
    if rows != [] { SoundRowLeaf(env, rows, signer, 0); }
    var w := WalkFrom(env, rows, 0, expected, 0, START);
    hide RowLeaf, Sound, OneSigner, LeafData, BlockOf, WalkFrom, GoodUpTo, LeafOf;
    forall i | 0 <= i < |rows|
      ensures BlockOf(env, rows[i]).Some? && LeafData(BlockOf(env, rows[i]).value) == Some(w.leaves[i])
    {
      SoundRowLeaf(env, rows, signer, i);
    }
  }

  // ------------------------------------------------------------ exactly when it opens

  /** What the walk reads in a sound row: its signer, if that is 64 lower-case hexadecimal digits. */
  lemma SignerRead(env: Env, rows: seq<Row>, i: nat)
    requires Sound(env, rows) && i < |rows| && RowLeaf(env, rows[i], i).Pass?
    ensures var signer := BlocksOf(env, rows)[i].header.signer;
            RowLeaf(env, rows[i], i).signer == signer && Hex.Lower(signer, 64)
  {
    hide Chain, IsCanonical, RowLeaf, Hex.Lower;
    var b := BlocksOf(env, rows)[i];
    assert BlockOf(env, rows[i]) == Some(b) && IsCanonical(env, rows[i]);
    CanonicalSigner(env, rows[i], b, i);
  }

  lemma CanonicalSigner(env: Env, row: Row, b: Block, i: nat)
    requires BlockOf(env, row) == Some(b) && IsCanonical(env, row) && RowLeaf(env, row, i).Pass?
    ensures RowLeaf(env, row, i).signer == b.header.signer && Hex.Lower(b.header.signer, 64)
  {
    hide SignerOf, Canonical, Hex.Encode, Hex.Decode, Hex.Lower, BlockOf;
    SignerOfExact(b.header, RowLeaf(env, row, i).signer);
  }

  /** The signer of the first block of a table that is not empty. */
  ghost function SignerOfFirst(env: Env, rows: seq<Row>): Bytes
    requires Decodes(env, rows) && rows != []
  {
    BlocksOf(env, rows)[0].header.signer
  }

  lemma GoodIsOneSigner(env: Env, rows: seq<Row>, signedFrom: nat, expected: Bytes)
    requires Sound(env, rows) && rows != [] && GoodUpTo(env, rows, signedFrom, expected, |rows|)
    ensures OneSigner(env, rows, SignerOfFirst(env, rows)) && (expected == [] || expected == SignerOfFirst(env, rows))
  {
    hide Sound, RowLeaf, BlockGood, BlockOf, Hex.Lower;
    assert RowGood(env, rows, expected, 0);
    SignerRead(env, rows, 0);
    forall i | 0 <= i < |rows| ensures BlocksOf(env, rows)[i].header.signer == SignerOfFirst(env, rows) {
      assert RowGood(env, rows, expected, i);
      SignerRead(env, rows, i);
    }
  }

  /** A ledger built by AppendRecord, whatever its signers, passes the full walk exactly when it is
      empty or all its blocks are of one signer written in lower case, the one expected if any is. */
  lemma AppendedOpensExactly(env: Env, rows: seq<Row>, expected: Bytes)
    requires Sound(env, rows)
    ensures WalkFrom(env, rows, 0, expected, 0, START).Pass?
            <==> rows == [] || (var signer := SignerOfFirst(env, rows);
                                OneSigner(env, rows, signer) && (expected == [] || expected == signer))
  {
    hide WalkFrom, GoodUpTo, Chain, InPlace, OneSigner, BlockOf;
    WalkMeaning(env, rows, 0, expected);
    if rows == [] {
      NoRows(env, expected);
    } else {
      if GoodUpTo(env, rows, 0, expected, |rows|) { GoodIsOneSigner(env, rows, 0, expected); }
      var signer := SignerOfFirst(env, rows);
      if OneSigner(env, rows, signer) && (expected == [] || expected == signer) {
        AllRowsGood(env, rows, signer, expected);
      }
    }
  }

  lemma NoRows(env: Env, expected: Bytes)
    ensures GoodUpTo(env, [], 0, expected, 0)
  {
  }

  // ------------------------------------------------------------- the fast opening

  lemma SoundFromFast(env: Env, rows: seq<Row>, signedFrom: nat, expected: Bytes)
    requires Sound(env, rows)
    ensures GoodUpTo(env, rows, signedFrom, expected, |rows|) <==> GoodUpTo(env, rows, 0, expected, |rows|)
  {
    hide Sound, RowGood, BlockGood, BlockOf;
    if GoodUpTo(env, rows, 0, expected, |rows|) { FastFromFull(env, rows, signedFrom, expected); }
    AllBlocksGood(env, rows);
  }

  lemma AllBlocksGood(env: Env, rows: seq<Row>)
    requires Sound(env, rows)
    ensures forall i :: 0 <= i < |rows| ==> BlockGood(env, rows, i) && BlockOf(env, rows[i]).Some?
  {
    hide Sound, BlockGood, BlockOf;
    forall i | 0 <= i < |rows| ensures BlockGood(env, rows, i) && BlockOf(env, rows[i]).Some? {
      SoundBlock(env, rows, i);
      BlockGoodDecodes(env, rows, i);
    }
  }

  /** On a ledger built by AppendRecord the two modes open with the same result or not at all,
      whatever its checkpoints say and whoever signed. */
  lemma AppendedFastIsFull(env: Env, k: PN.Keys, p: Option<WitnessPolicy>, order: seq<Bytes>, l: Ledger)
    requires p.Some? ==> PN.Lists(order, PN.Policy([], [], p.value.witnesses, 0))
    requires Sound(env, l.rows)
    ensures var fast, full := Opening.Verify(env, k, p, order, l, Attested), Opening.Verify(env, k, p, order, l, Full);
            fast.Opened? == full.Opened? && (fast.Opened? ==> fast == full)
  {
    hide *;
    var s := AttestedCheckpoint(k, p, l);
    var a := AttestationOf(k, p, order, l.declared, s);
    var size := if s.Found? && a.0.Verified? then s.checkpoint.size else 0;
    VerifyIs(env, k, p, order, l, Attested);
    VerifyIs(env, k, p, order, l, Full);
    SoundFromFast(env, l.rows, size, Expected(p));
    WalkMeaning(env, l.rows, size, Expected(p));
    WalkMeaning(env, l.rows, 0, Expected(p));
    var w := WalkFrom(env, l.rows, size, Expected(p), 0, START);
    var v := WalkFrom(env, l.rows, 0, Expected(p), 0, START);
    StoppedFails(env, k, p, l, s, a, w);
    StoppedFails(env, k, p, l, s, a, v);
    if w.Pass? { FinishSame(env, k, p, l, s, a, w, v); }
  }

  lemma StoppedFails(env: Env, k: PN.Keys, p: Option<WitnessPolicy>, l: Ledger, s: Stored, a: (Attestation, PN.Verdict),
                     w: Pass)
    ensures w.Stopped? ==> AfterWalk(env, k, p, l, s, a, w).Failed?
  {
    hide Finish;
  }

  // ---------------------------------------------- a file with an appended ledger's checkpoint

  /** The leaf data of the first `n` blocks, of which the log signs the root. */
  ghost function LeafDataOf(env: Env, rows: seq<Row>, n: nat): (leaves: seq<Bytes>)
    requires Decodes(env, rows) && n <= |rows|
    ensures |leaves| == n
  {
    seq(n, i requires 0 <= i < n => LeafOfBlock(BlocksOf(env, rows)[i]))
  }

  ghost function LeafOfBlock(b: Block): Bytes {
    var d := LeafData(b);
    if d.Some? then d.value else []
  }

  lemma SoundPrefix(env: Env, rows: seq<Row>, signer: Bytes, n: nat)
    requires Sound(env, rows) && OneSigner(env, rows, signer) && n <= |rows|
    ensures Sound(env, rows[..n]) && OneSigner(env, rows[..n], signer)
    ensures BlocksOf(env, rows[..n]) == BlocksOf(env, rows)[..n]
  {
    hide BlockOf, Blocks.Verify, VerifyLink, IsCanonical, Hex.Lower;
    var t := rows[..n];
    assert forall i :: 0 <= i < n ==> t[i] == rows[i];
    assert Decodes(env, t);
    forall i | 0 <= i < n ensures BlocksOf(env, t)[i] == BlocksOf(env, rows)[i] {
      assert BlockOf(env, t[i]) == Some(BlocksOf(env, t)[i]);
    }
  }

  /** If the attested checkpoint is over the leaf data of the first blocks of some appended ledger,
      its root is that of a table that passed the full walk. */
  lemma AppendedIsGrounded(env: Env, s: Stored, rows: seq<Row>, signer: Bytes)
    requires Sound(env, rows) && OneSigner(env, rows, signer)
    requires s.Found? ==> s.checkpoint.size <= |rows|
                          && s.checkpoint.root == Merkle.Root(env.sha, LeafDataOf(env, rows, s.checkpoint.size))
    ensures Grounded(env, s, if s.Found? then rows[..s.checkpoint.size] else [], [])
  {
    if s.Found? {
      var n := s.checkpoint.size;
      var h := rows[..n];
      hide *;
      SoundPrefix(env, rows, signer, n);
      AppendedLedgerOpens(env, h, signer, []);
      var w := WalkFrom(env, h, 0, [], 0, START);
      SameLeafData(env, rows, n, w.leaves);
      OpenIs(env, h, 0, [], n, s.checkpoint.root);
      RootIs(env.sha, w.leaves, n);
      GroundedBy(env, s, h);
    }
  }

  lemma SameLeafData(env: Env, rows: seq<Row>, n: nat, leaves: seq<Bytes>)
    requires Decodes(env, rows) && n <= |rows| && |leaves| == n
    requires forall i :: 0 <= i < n ==>
               BlockOf(env, rows[..n][i]).Some? && LeafData(BlockOf(env, rows[..n][i]).value) == Some(leaves[i])
    ensures leaves == LeafDataOf(env, rows, n)
  {
    hide LeafData, BlockOf;
    forall i | 0 <= i < n ensures leaves[i] == LeafDataOf(env, rows, n)[i] {
      assert rows[..n][i] == rows[i];
      assert BlockOf(env, rows[i]) == Some(BlocksOf(env, rows)[i]);
    }
  }

  lemma RootIs(h: HashFn, leaves: seq<Bytes>, n: nat)
    requires n == |leaves|
    ensures VerifyRootAt(h, leaves, n, Merkle.Root(h, leaves)).None?
  {
    assert leaves[..n] == leaves;
  }

  lemma GroundedBy(env: Env, s: Stored, h: seq<Row>)
    requires s.Found? && |h| == s.checkpoint.size && Integrity.Open(env, h, 0, [], |h|, s.checkpoint.root).Pass?
    ensures Grounded(env, s, h, [])
  {
  }

  /** The ledger file may be anything; if its attested checkpoint was made over a prefix of a ledger
      that AppendRecord built, VerifyIntegrity and VerifyFull open it with the same result or not at
      all, unless a collision is among what that prefix and the file hashed. */
  lemma CheckpointOfAppended(env: Env, k: PN.Keys, p: Option<WitnessPolicy>, order: seq<Bytes>, l: Ledger,
                             rows: seq<Row>, signer: Bytes)
    requires p.Some? ==> PN.Lists(order, PN.Policy([], [], p.value.witnesses, 0))
    requires Sound(env, rows) && OneSigner(env, rows, signer)
    requires var s := AttestedCheckpoint(k, p, l);
             s.Found? ==> s.checkpoint.size <= |rows|
                          && s.checkpoint.root == Merkle.Root(env.sha, LeafDataOf(env, rows, s.checkpoint.size))
    ensures var fast, full := Opening.Verify(env, k, p, order, l, Attested), Opening.Verify(env, k, p, order, l, Full);
            var s := AttestedCheckpoint(k, p, l);
            || (fast.Opened? == full.Opened? && (fast.Opened? ==> fast == full))
            || (&& s.Found? && s.checkpoint.size <= |l.rows|
                && CollisionIn(env.sha, TableInputs(env, l.rows, s.checkpoint.size)
                                        + TableInputs(env, rows[..s.checkpoint.size], s.checkpoint.size)))
  {
    hide *;
    var s := AttestedCheckpoint(k, p, l);
    AppendedIsGrounded(env, s, rows, signer);
    FastIsFull(env, k, p, order, l, if s.Found? then rows[..s.checkpoint.size] else [], []);
    if !s.Found? { FastWithoutCheckpoint(env, k, p, order, l); }
  }

  lemma FastWithoutCheckpoint(env: Env, k: PN.Keys, p: Option<WitnessPolicy>, order: seq<Bytes>, l: Ledger)
    requires p.Some? ==> PN.Lists(order, PN.Policy([], [], p.value.witnesses, 0))
    requires !AttestedCheckpoint(k, p, l).Found?
    ensures Opening.Verify(env, k, p, order, l, Attested) == Opening.Verify(env, k, p, order, l, Full)
  {
    hide *;
    VerifyIs(env, k, p, order, l, Attested);
    VerifyIs(env, k, p, order, l, Full);
  }

  // ------------------------------------------------------------------ whole runs

  /** What a run leaves, whatever the calls were, rejected and failed ones included. */
  lemma RunIsSound(env: Env, calls: seq<Call>)
    requires Faithful(env)
    ensures Sound(env, Run(env, EMPTY, calls).blocks)
  {
    hide *;
    EmptyIsSound(env);
    RunKeeps(env, EMPTY, calls);
  }

  /** After any sequence of AppendRecord calls the table passes the full walk exactly when it is empty
      or all its blocks are of one signer written in lower case, the one expected if any is. */
  lemma RunOpensExactly(env: Env, calls: seq<Call>, expected: Bytes)
    requires Faithful(env)
    ensures var rows := Run(env, EMPTY, calls).blocks;
            && Decodes(env, rows)
            && (WalkFrom(env, rows, 0, expected, 0, START).Pass?
                <==> rows == [] || (var signer := SignerOfFirst(env, rows);
                                    OneSigner(env, rows, signer) && (expected == [] || expected == signer)))
  {
    RunIsSound(env, calls);
    hide Run, WalkFrom, Chain, InPlace, OneSigner, BlockOf, Faithful;
    AppendedOpensExactly(env, Run(env, EMPTY, calls).blocks, expected);
  }

  /** After any sequence of AppendRecord calls, VerifyIntegrity and VerifyFull open the ledger with the
      same result or not at all, whatever its checkpoints and its policy say. */
  lemma RunOpensAlike(env: Env, k: PN.Keys, p: Option<WitnessPolicy>, order: seq<Bytes>, calls: seq<Call>, l: Ledger)
    requires p.Some? ==> PN.Lists(order, PN.Policy([], [], p.value.witnesses, 0))
    requires Faithful(env) && l.rows == Run(env, EMPTY, calls).blocks
    ensures var fast, full := Opening.Verify(env, k, p, order, l, Attested), Opening.Verify(env, k, p, order, l, Full);
            fast.Opened? == full.Opened? && (fast.Opened? ==> fast == full)
  {
    hide *;
    RunIsSound(env, calls);
    AppendedFastIsFull(env, k, p, order, l);
  }

  /** Whatever became of the file afterwards: if its attested checkpoint was made over a prefix of what
      some sequence of AppendRecord calls left, under one signer, both modes open it alike, or a
      collision is among what that prefix and the file hashed. */
  lemma CheckpointOfRun(env: Env, k: PN.Keys, p: Option<WitnessPolicy>, order: seq<Bytes>, l: Ledger, calls: seq<Call>,
                        signer: Bytes)
    requires p.Some? ==> PN.Lists(order, PN.Policy([], [], p.value.witnesses, 0))
    requires Faithful(env)
    requires var rows, s := Run(env, EMPTY, calls).blocks, AttestedCheckpoint(k, p, l);
             && Decodes(env, rows) && OneSigner(env, rows, signer)
             && (s.Found? ==> s.checkpoint.size <= |rows|
                              && s.checkpoint.root == Merkle.Root(env.sha, LeafDataOf(env, rows, s.checkpoint.size)))
    ensures var fast, full := Opening.Verify(env, k, p, order, l, Attested), Opening.Verify(env, k, p, order, l, Full);
            var rows, s := Run(env, EMPTY, calls).blocks, AttestedCheckpoint(k, p, l);
            || (fast.Opened? == full.Opened? && (fast.Opened? ==> fast == full))
            || (&& s.Found? && s.checkpoint.size <= |l.rows|
                && CollisionIn(env.sha, TableInputs(env, l.rows, s.checkpoint.size)
                                        + TableInputs(env, rows[..s.checkpoint.size], s.checkpoint.size)))
  {
    hide *;
    RunIsSound(env, calls);
    CheckpointOfAppended(env, k, p, order, l, Run(env, EMPTY, calls).blocks, signer);
  }
}
