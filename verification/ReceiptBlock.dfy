/** From a receipt to the block: what a valid receipt says about the record a store holds. */
module ReceiptBlock {
  import opened Bytes
  import opened Hashing
  import Hex
  import opened Merkle
  import opened Blocks
  import opened Store
  import opened StoreRun
  import opened ReceiptRun
  import R = Receipts
  import N = Notes
  import OA = OpeningAppended
  import PN = ProofNote
  import SR = SystemRun
  import WR = WitnessRun

  /** The block a row stands for is the one the receipt is about: the same hash, the same header as
      encoding/json keeps it, and the same raw signature. */
  ghost predicate SameBlock(a: Block, b: Block) {
    a.hash == b.hash && Coerced(a.header) == Coerced(b.header) && Hex.Decode(a.signature) == Hex.Decode(b.signature)
  }

  lemma HashIsRead(env: Env, b: Block)
    requires Blocks.Verify(env, b) == None
    ensures b.hash == Hex.Encode(Blocks.Digest(env, b.header))
    ensures Hex.Decode(b.hash) == Some(Blocks.Digest(env, b.header))
  {
    hide Blocks.Verify, Hex.Encode, Hex.Decode, Canonical;
    VerifiedForm(env, b);
    Hex.DecodeOfEncode(Blocks.Digest(env, b.header));
  }

  lemma LeafIsRead(env: Env, b: Block)
    requires Blocks.Verify(env, b) == None
    ensures LeafData(b).Some?
  {
    HashIsRead(env, b);
    OA.VerifiedSignature(env, b);
    hide Blocks.Verify, Hex.Decode, Hex.Encode, Canonical;
  }

  /** One leaf, one block: two verified blocks with the same leaf data are the same, or their canonical
      headers collide. */
  lemma LeafNamesBlock(env: Env, a: Block, b: Block)
    requires Blocks.Verify(env, a) == None && Blocks.Verify(env, b) == None
    requires LeafData(a) == LeafData(b)
    ensures a.header.index <= MAX_SAFE_INDEX && b.header.index <= MAX_SAFE_INDEX
    ensures SameBlock(a, b) || CollisionIn(env.sha, {Canonical(a.header), Canonical(b.header)})
  {
    hide *;
    LeafIsRead(env, a);
    LeafDataInjective(a, b);
    HashIsRead(env, a);
    HashIsRead(env, b);
    VerifiedForm(env, a);
    VerifiedForm(env, b);
    SameHashSameHeader(env, a, b, {Canonical(a.header), Canonical(b.header)});
    SameBlockIs(a, b);
  }

  lemma SameBlockIs(a: Block, b: Block)
    ensures SameBlock(a, b)
            <==> a.hash == b.hash && Coerced(a.header) == Coerced(b.header)
                 && Hex.Decode(a.signature) == Hex.Decode(b.signature)
  {
    hide Hex.Decode, Coerced;
  }

  lemma LeafOfRow(env: Env, rows: seq<Row>, i: nat)
    requires Sound(env, rows) && i < |rows|
    ensures Blocks.Verify(env, BlocksOf(env, rows)[i]) == None
    ensures LeafData(BlocksOf(env, rows)[i]) == Some(OA.LeafDataOf(env, rows, |rows|)[i])
  {
    hide Blocks.Verify, VerifyLink, LeafData, BlockOf, InPlace;
    var b := BlocksOf(env, rows)[i];
    assert Blocks.Verify(env, b) == None;
    LeafIsRead(env, b);
  }

  /** A receipt for block `b` is valid under a policy and names the witness `w`. */
  ghost predicate Shows(env: Env, k: PN.Keys, p: PN.Policy, order: seq<Bytes>, split: Bytes -> Option<N.Note>, b: Block,
                        r: R.Receipt, w: Bytes)
  {
    && PN.Lists(order, p) && Blocks.Verify(env, b) == None && LeafData(b).Some?
    && var v := R.Verify(env.sha, k, p, order, split, LeafData(b).value, r);
       v.Valid? && v.attested.Accepted? && w in v.attested.cosigners
  }

  /** The policy's key for `w` is the witness's own, and the receipt's note holds no forged signature of it. */
  ghost predicate Genuine(p: PN.Policy, split: Bytes -> Option<N.Note>, r: R.Receipt, w: Bytes, me: N.Verifier,
                          g: WR.World)
  {
    && (w in p.witnesses ==> me.key == p.witnesses[w])
    && (split(r.note).Some? ==> SR.Ideal(me.key, g, split(r.note).value))
  }

  lemma ShownStays(env: Env, k: PN.Keys, p: PN.Policy, order: seq<Bytes>, split: Bytes -> Option<N.Note>, b: Block,
                   r: R.Receipt, w: Bytes, me: N.Verifier, events: seq<WR.Event>) returns (j: nat)
    requires Shows(env, k, p, order, split, b, r, w)
    requires Genuine(p, split, r, w, me, WR.Run(env.sha, me, events))
    ensures Blocks.Verify(env, b) == None && LeafData(b).Some?
    ensures var hist := WR.History(WR.Run(env.sha, me, events), p.origin);
            && j < |hist| && r.index < hist[j].c.size
            && forall i, leaves: seq<Bytes> ::
                 j <= i < |hist| && |leaves| == hist[i].c.size && Root(env.sha, leaves) == hist[i].c.root ==>
                   && hist[j].c.size <= |leaves|
                   && (|| leaves[r.index] == LeafData(b).value
                       || CollisionIn(env.sha, ChainAndPath(env.sha, hist, j, i, leaves, LeafData(b).value, r)))
  {
    hide R.Verify, WR.Run, LeafData, Blocks.Verify, PN.Lists, SR.Ideal, Root, ChainAndPath, CollisionIn, WR.History;
    j := ReceiptIsOnTheChain(env.sha, k, p, order, split, LeafData(b).value, r, w, me, events);
  }

  /** A receipt for a block `b`, valid under a policy and naming a witness, over any run of that
      witness: whoever holds a ledger built by AppendRecord whose leaves have a root the witness
      cosigned at the receipt's entry or later, holds that very block at the receipt's index, or a
      collision is at hand. */
  lemma ReceiptNamesBlock(env: Env, k: PN.Keys, p: PN.Policy, order: seq<Bytes>, split: Bytes -> Option<N.Note>,
                          b: Block, r: R.Receipt, w: Bytes, me: N.Verifier, events: seq<WR.Event>) returns (j: nat)
    requires Shows(env, k, p, order, split, b, r, w)
    requires Genuine(p, split, r, w, me, WR.Run(env.sha, me, events))
    ensures var hist := WR.History(WR.Run(env.sha, me, events), p.origin);
            && j < |hist| && r.index < hist[j].c.size
            && forall i, rows ::
                 j <= i < |hist| && Holds(env, rows, hist[i]) ==> NamesBlock(env, hist, j, i, rows, b, r)
  {
    hide *;
    j := ShownStays(env, k, p, order, split, b, r, w, me, events);
    var hist := WR.History(WR.Run(env.sha, me, events), p.origin);
    forall i, rows | j <= i < |hist| && Holds(env, rows, hist[i]) ensures NamesBlock(env, hist, j, i, rows, b, r) {
      var leaves := HeldLeaves(env, rows, hist[i]);
      assert hist[j].c.size <= |leaves|;
      NamesBlockBy(env, hist, j, i, rows, b, r);
    }
  }

  /** A ledger that AppendRecord built, whose leaves have the root of an entry. */
  ghost predicate Holds(env: Env, rows: seq<Row>, e: WR.Entry) {
    Sound(env, rows) && |rows| == e.c.size && Root(env.sha, OA.LeafDataOf(env, rows, |rows|)) == e.c.root
  }

  lemma HeldLeaves(env: Env, rows: seq<Row>, e: WR.Entry) returns (leaves: seq<Bytes>)
    requires Holds(env, rows, e)
    ensures Sound(env, rows) && Decodes(env, rows)
    ensures leaves == OA.LeafDataOf(env, rows, |rows|)
    ensures |leaves| == |rows| == e.c.size && Root(env.sha, leaves) == e.c.root
  {
    hide Root;
    leaves := OA.LeafDataOf(env, rows, |rows|);
  }

  ghost predicate NamesBlock(env: Env, hist: seq<WR.Entry>, j: nat, i: nat, rows: seq<Row>, b: Block, r: R.Receipt) {
    && Decodes(env, rows) && j <= i < |hist| && hist[j].c.size <= |rows| && r.index < |rows|
    && var c, leaves := BlocksOf(env, rows)[r.index], OA.LeafDataOf(env, rows, |rows|);
       && b.header.index <= MAX_SAFE_INDEX && c.header.index <= MAX_SAFE_INDEX && LeafData(b).Some?
       && (|| SameBlock(c, b)
           || CollisionIn(env.sha, {Canonical(c.header), Canonical(b.header)})
           || CollisionIn(env.sha, ChainAndPath(env.sha, hist, j, i, leaves, LeafData(b).value, r)))
  }

  lemma NamesBlockBy(env: Env, hist: seq<WR.Entry>, j: nat, i: nat, rows: seq<Row>, b: Block, r: R.Receipt)
    requires Sound(env, rows) && Decodes(env, rows) && j <= i < |hist| && r.index < hist[j].c.size <= |rows|
    requires Blocks.Verify(env, b) == None && LeafData(b).Some?
    requires var leaves := OA.LeafDataOf(env, rows, |rows|);
             || leaves[r.index] == LeafData(b).value
             || CollisionIn(env.sha, ChainAndPath(env.sha, hist, j, i, leaves, LeafData(b).value, r))
    ensures NamesBlock(env, hist, j, i, rows, b, r)
  {
    hide Sound, Blocks.Verify, LeafData, Coerced, Hex.Decode, Canonical, SameBlock, ChainAndPath, CollisionIn, BlockOf,
         OA.LeafDataOf;
    var c := BlocksOf(env, rows)[r.index];
    LeafOfRow(env, rows, r.index);
    VerifiedForm(env, b);
    VerifiedForm(env, c);
    if OA.LeafDataOf(env, rows, |rows|)[r.index] == LeafData(b).value { LeafNamesBlock(env, c, b); }
  }
}
