/** Signatures, from the single block to whole ledgers: no row gets past AppendRecord, VerifyChain or
    the walk of an opening unless a signature of its own signer verifies over its stored bytes. */
module SignedRows {
  import opened Bytes
  import opened Hashing
  import Hex
  import opened Blocks
  import opened BlockMeaning
  import opened Store
  import opened StoreRun
  import opened Integrity

  /** A row whose hash is that of its stored header, and whose signature verifies over that hash under
      the signer the header names. */
  ghost predicate RowSigned(env: Env, row: Row) {
    var h := env.decode(row.headerJson);
    && h.Some? && row.hash == Hex.Encode(env.sha(row.headerJson))
    && Signs(env, h.value.signer, env.sha(row.headerJson), row.signature)
  }

  lemma CanonicalRowSigned(env: Env, row: Row, b: Block)
    requires BlockOf(env, row) == Some(b) && Blocks.Verify(env, b) == None && b.header.index <= MAX_SAFE_INDEX
    requires env.sha(row.headerJson) == env.sha(Canonical(b.header))
    ensures RowSigned(env, row)
  {
    hide Blocks.Verify, Canonical, Signs, Hex.Encode, HeaderForm;
    VerifyExact(env, b);
  }

  /** A record is accepted only with a block whose signature verifies. */
  lemma AppendNeedsSignature(env: Env, t: Tables, r: Record)
    requires AppendSpec(env, t, r).Appended?
    ensures r.block.Some? && r.block.value.header.index <= MAX_SAFE_INDEX
    ensures var b := r.block.value;
            && HeaderForm(env, b.header) && b.hash == Hex.Encode(env.sha(Canonical(b.header)))
            && Signs(env, b.header.signer, env.sha(Canonical(b.header)), b.signature)
  {
    hide *;
    AppendedIs(env, t, r);
    VerifyExact(env, r.block.value);
  }

  /** What a sound ledger asks of the next block, written out: a valid header, its hash, the signature of
      its signer over it, the next index, the hash of the last block, and a time that does not go back. */
  lemma FitsExact(env: Env, rows: seq<Row>, b: Block)
    requires Sound(env, rows)
    ensures Fits(env, rows, b) ==> b.header.index <= MAX_SAFE_INDEX
    ensures Fits(env, rows, b)
            <==> && HeaderForm(env, b.header)
                 && b.hash == Hex.Encode(env.sha(Canonical(b.header)))
                 && Signs(env, b.header.signer, env.sha(Canonical(b.header)), b.signature)
                 && b.header.index == |rows|
                 && (rows != [] ==> Follows(env, Last(BlocksOf(env, rows)), b))
  {
    hide Blocks.Verify, VerifyLink, Canonical, Signs, HeaderForm, Hex.Encode;
    VerifyExact(env, b);
    if HeaderForm(env, b.header) { FormIsSafe(env, b.header); }
    if rows != [] {
      var bs := BlocksOf(env, rows);
      IndexIsPosition(env, bs, |bs| - 1);
      LinkExact(env, Last(bs), b);
    }
  }

  predicate Follows(env: Env, prev: Block, cur: Block) {
    && cur.header.prevHash == prev.hash
    && Time(env, prev.header).Some? && Time(env, cur.header).Some?
    && Time(env, prev.header).value <= Time(env, cur.header).value
  }

  /** A blob is good exactly when it names a hash of 32 bytes and none of its other fields is empty. */
  lemma BlobExact(b: Blob)
    ensures BlobIsValid(b)
            <==> HexText(b.payloadHash, 64) && b.ciphertext != [] && b.nonce != [] && b.createdAt != []
  {
    hide Hex.Decode;
    DecodesExactly(b.payloadHash);
  }

  /** Every row that any sequence of calls leaves is signed. */
  lemma RunsAreSigned(env: Env, calls: seq<Call>)
    requires Faithful(env)
    ensures var rows := Run(env, EMPTY, calls).blocks;
            forall i :: 0 <= i < |rows| ==> RowSigned(env, rows[i])
  {
    hide Run, Faithful, RowSigned, Chain, InPlace;
    EmptyIsSound(env);
    RunKeeps(env, EMPTY, calls);
    var rows := Run(env, EMPTY, calls).blocks;
    forall i | 0 <= i < |rows| ensures RowSigned(env, rows[i]) { SoundRowSigned(env, rows, i); }
  }

  lemma SoundRowSigned(env: Env, rows: seq<Row>, i: nat)
    requires Sound(env, rows) && i < |rows|
    ensures RowSigned(env, rows[i])
  {
    hide BlockOf, Blocks.Verify, VerifyLink, Canonical, RowSigned;
    var b := BlocksOf(env, rows)[i];
    assert BlockOf(env, rows[i]) == Some(b) && IsCanonical(env, rows[i]);
    CanonicalRowSigned(env, rows[i], b);
  }

  /** Every block of an accepted chain is signed, by the one signer if one is expected. */
  lemma ChainIsSigned(env: Env, blocks: seq<Block>, expected: Bytes, i: nat)
    requires VerifyChain(env, blocks, expected) == None && i < |blocks|
    ensures var b := blocks[i];
            && b.header.index <= MAX_SAFE_INDEX && b.hash == Hex.Encode(env.sha(Canonical(b.header)))
            && Signs(env, b.header.signer, env.sha(Canonical(b.header)), b.signature)
            && (expected != [] ==> b.header.signer == expected)
  {
    hide VerifyChain, Blocks.Verify, VerifyLink, Canonical, Signs, HeaderForm;
    VerifyChainMeaning(env, blocks, expected);
    VerifyExact(env, blocks[i]);
  }

  /** A row at or above the checkpoint of a walk that passes is signed, and by the signer the walk
      reports, or two headers with one hash are at hand. In the full walk that is every row. */
  lemma WalkIsSigned(env: Env, rows: seq<Row>, signedFrom: nat, expected: Bytes, i: nat)
    requires WalkFrom(env, rows, signedFrom, expected, 0, START).Pass? && signedFrom <= i < |rows|
    ensures RowSigned(env, rows[i])
    ensures var h := env.decode(rows[i].headerJson).value;
            && h.index <= MAX_SAFE_INDEX
            && (|| h.signer == WalkFrom(env, rows, signedFrom, expected, 0, START).signer
                || CollisionIn(env.sha, {rows[i].headerJson, Canonical(h)}))
  {
    hide WalkFrom, RowLeaf, Blocks.Verify, VerifyLink, Canonical, RowSigned;
    WalkMeaning(env, rows, signedFrom, expected);
    assert RowGood(env, rows, expected, i) && BlockGood(env, rows, i);
    var b := BlockOf(env, rows[i]).value;
    var l := RowLeaf(env, rows[i], i);
    RowLeafExact(env, rows[i], i, LeafOf(l), l.signer);
    HashOfVerified(env, b);
    Hex.EncodeInjective(env.sha(rows[i].headerJson), env.sha(Canonical(b.header)));
    CanonicalRowSigned(env, rows[i], b);
    if rows[i].headerJson == Canonical(b.header) { SignerOfExact(b.header, RowLeaf(env, rows[i], i).signer); }
  }

  /** A row gives a leaf exactly when it stands at its index, its hash is that of its stored header, its
      signature is 64 bytes in hexadecimal and its signer can be read; the leaf is the hash and the
      signature, raw. */
  lemma RowLeafExact(env: Env, row: Row, i: nat, leaf: Bytes, signer: Bytes)
    ensures RowLeaf(env, row, i) == Pass([leaf], None, signer)
            <==> && row.idx == i && row.hash == Hex.Encode(env.sha(row.headerJson))
                 && SignerOf(row.headerJson) == Some(signer)
                 && var sig := Hex.Decode(row.signature);
                    sig.Some? && |sig.value| == 64 && leaf == env.sha(row.headerJson) + sig.value
    ensures RowLeaf(env, row, i).Pass? ==> |RowLeaf(env, row, i).leaves| == 1 && RowLeaf(env, row, i).prev == None
  {
    hide Hex.Encode, Hex.Decode, SignerOf;
    Hex.DecodeOfEncode(env.sha(row.headerJson));
  }

  lemma HashOfVerified(env: Env, b: Block)
    requires Blocks.Verify(env, b) == None
    ensures b.header.index <= MAX_SAFE_INDEX && b.hash == Hex.Encode(env.sha(Canonical(b.header)))
  {
    hide Blocks.Verify, Canonical, Signs, Hex.Encode, HeaderForm;
    VerifyExact(env, b);
  }
}
