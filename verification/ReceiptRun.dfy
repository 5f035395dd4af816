/** A receipt and the witness that stands behind it, over every run of that witness: what it proves
    to whoever holds nothing but the receipt and the policy. */
module ReceiptRun {
  import opened Bytes
  import opened Hashing
  import opened Merkle
  import opened Receipts
  import CF = CheckpointFormat
  import MV = MerkleVerify
  import N = Notes
  import PN = ProofNote
  import SR = SystemRun
  import WR = WitnessRun

  /** A witness that an accepted note names has a line in it, made with its key over its text. */
  lemma CosignerHasLine(k: PN.Keys, p: PN.Policy, order: seq<Bytes>, n: N.Note, w: Bytes) returns (i: nat)
    requires PN.Lists(order, p) && PN.Judge(k, p, order, n).Accepted?
    requires w in PN.Judge(k, p, order, n).cosigners
    ensures w in p.witnesses && i < |n.lines| && n.lines[i].blob.CosignatureBlob?
    ensures n.lines[i].blob.ed == N.Ed(p.witnesses[w], N.CosignedMessage(n.lines[i].blob.time, n.text))
  {
    var v := PN.Judge(k, p, order, n);
    PN.VerdictExact(k, p, order, n);
    var j :| 0 <= j < |v.cosigners| && v.cosigners[j] == w;
    hide PN.Judge, N.CosignedMessage, PN.PolicyValid, CF.Parse, PN.LogOf;
    assert w in PN.SetOf(v.cosigners);
    i :| 0 <= i < |n.lines| && PN.IsWitnessLine(k, p, n.lines[i]) && n.lines[i].name == w;
    assert !PN.Spoils(k, p, n.text, n.lines[i]);
  }

  /** The entry of the witness's history that an accepted note rests on: the same text, hence the same
      checkpoint, persisted for the policy's origin. */
  lemma NoteWasPersisted(h: HashFn, k: PN.Keys, p: PN.Policy, order: seq<Bytes>, n: N.Note, w: Bytes, g: WR.World)
    returns (j: nat)
    requires WR.Invariant(h, g) && PN.Lists(order, p) && PN.Judge(k, p, order, n).Accepted?
    requires w in PN.Judge(k, p, order, n).cosigners
    requires w in p.witnesses ==> SR.Ideal(p.witnesses[w], g, n)
    ensures var hist := WR.History(g, p.origin);
            && j < |hist| && hist[j].note.text == n.text && hist[j].c == PN.Judge(k, p, order, n).checkpoint
            && WR.Chained(h, hist, p.origin)
  {
    var i := CosignerHasLine(k, p, order, n, w);
    PN.VerdictExact(k, p, order, n);
    hide PN.Judge, N.CosignedMessage, CF.Parse, PN.PolicyValid, PN.Spoiling, PN.LogSigned, WR.Invariant;
    var ed := n.lines[i].blob.ed;
    var o, m: nat :| SR.SignedAt(g, ed, o, m);
    N.CosignedMessageInjective(n.lines[i].blob.time, n.text, g.history[o][m].time, g.history[o][m].note.text);
    SR.HistorySound(h, g, o, m);
    hide WR.Chained;
    j := m;
  }

  /** What hashing went through between a receipt and a list `d` with a root cosigned at entry `i`. */
  ghost function ChainAndPath(h: HashFn, hist: seq<WR.Entry>, j: nat, i: nat, d: seq<Bytes>, leafData: Bytes,
                              r: Receipt): set<Bytes>
    requires j <= i < |hist| && hist[j].c.size <= |d|
  {
    var size := hist[j].c.size;
    WR.ChainInputs(h, hist, j, i, d) + RootInputs(h, d[..size])
    + MV.InclusionInputs(h, leafData, r.index, size, r.proof)
  }

  /** Under any list of leaves with a root cosigned at or after the receipt's own, the leaf is at its
      index and the proof is the generated one. */
  lemma LeafStays(h: HashFn, hist: seq<WR.Entry>, origin: Bytes, j: nat, i: nat, d: seq<Bytes>, leafData: Bytes,
                  r: Receipt)
    requires WR.Chained(h, hist, origin) && j <= i < |hist|
    requires |d| == hist[i].c.size && Root(h, d) == hist[i].c.root
    requires r.index < hist[j].c.size
    requires MV.InclusionVerdict(h, leafData, r.index, hist[j].c.size, r.proof, hist[j].c.root) == MV.Accepted
    ensures hist[j].c.size <= |d|
    ensures || (d[r.index] == leafData && InclusionProof(h, d[..hist[j].c.size], r.index) == Some(r.proof))
            || CollisionIn(h, ChainAndPath(h, hist, j, i, d, leafData, r))
  {
    hide *;
    WR.PrefixOfLater(h, hist, origin, j, i, d);
    var size := hist[j].c.size;
    var e := d[..size];
    var chain := WR.ChainInputs(h, hist, j, i, d);
    var path := RootInputs(h, e) + MV.InclusionInputs(h, leafData, r.index, size, r.proof);
    ChainAndPathHas(h, hist, j, i, d, leafData, r);
    if Root(h, e) == hist[j].c.root {
      MV.InclusionExact(h, e, leafData, r.index, r.proof);
      if CollisionIn(h, path) { CollisionMonotone(h, path, ChainAndPath(h, hist, j, i, d, leafData, r)); }
    } else {
      CollisionMonotone(h, chain, ChainAndPath(h, hist, j, i, d, leafData, r));
    }
  }

  lemma ChainAndPathHas(h: HashFn, hist: seq<WR.Entry>, j: nat, i: nat, d: seq<Bytes>, leafData: Bytes, r: Receipt)
    requires j <= i < |hist| && hist[j].c.size <= |d|
    ensures var size, all := hist[j].c.size, ChainAndPath(h, hist, j, i, d, leafData, r);
            && WR.ChainInputs(h, hist, j, i, d) <= all
            && RootInputs(h, d[..size]) + MV.InclusionInputs(h, leafData, r.index, size, r.proof) <= all
  {
    hide WR.ChainInputs, RootInputs, MV.InclusionInputs;
  }

  lemma ValidIs(h: HashFn, k: PN.Keys, p: PN.Policy, order: seq<Bytes>, split: Bytes -> Option<N.Note>, leafData: Bytes,
                r: Receipt)
    requires PN.Lists(order, p) && Verify(h, k, p, order, split, leafData, r).Valid?
    ensures split(r.note).Some?
    ensures var v := PN.Judge(k, p, order, split(r.note).value);
            && v.Accepted? && Verify(h, k, p, order, split, leafData, r) == Valid(v) && r.index < v.checkpoint.size
            && MV.InclusionVerdict(h, leafData, r.index, v.checkpoint.size, r.proof, v.checkpoint.root) == MV.Accepted
  {
    hide PN.PolicyValid, PN.Judge, MV.InclusionVerdict;
  }

  /** A valid receipt that names a witness among its cosigners, over any run of that witness: the
      witness persisted its checkpoint for the policy's origin, and in every list of leaves with a root
      it cosigned then or later, the leaf is the one at the receipt's index, or a collision is at hand. */
  lemma ReceiptIsOnTheChain(h: HashFn, k: PN.Keys, p: PN.Policy, order: seq<Bytes>, split: Bytes -> Option<N.Note>,
                            leafData: Bytes, r: Receipt, w: Bytes, me: N.Verifier, events: seq<WR.Event>)
    returns (j: nat)
    requires PN.Lists(order, p) && Verify(h, k, p, order, split, leafData, r).Valid?
    requires w in Verify(h, k, p, order, split, leafData, r).attested.cosigners
    requires w in p.witnesses ==> me.key == p.witnesses[w]
    requires split(r.note).Some? ==> SR.Ideal(me.key, WR.Run(h, me, events), split(r.note).value)
    ensures var hist := WR.History(WR.Run(h, me, events), p.origin);
            && j < |hist| && r.index < hist[j].c.size
            && Verify(h, k, p, order, split, leafData, r).attested.checkpoint == hist[j].c
            && forall i, d: seq<Bytes> :: j <= i < |hist| && |d| == hist[i].c.size && Root(h, d) == hist[i].c.root ==>
                 && hist[j].c.size <= |d|
                 && (|| (d[r.index] == leafData && InclusionProof(h, d[..hist[j].c.size], r.index) == Some(r.proof))
                     || CollisionIn(h, ChainAndPath(h, hist, j, i, d, leafData, r)))
  {
    hide *;
    ValidIs(h, k, p, order, split, leafData, r);
    var g := WR.Run(h, me, events);
    WR.RunKeeps(h, me, events);
    j := NoteWasPersisted(h, k, p, order, split(r.note).value, w, g);
    var hist := WR.History(g, p.origin);
    forall i, d: seq<Bytes> | j <= i < |hist| && |d| == hist[i].c.size && Root(h, d) == hist[i].c.root
      ensures hist[j].c.size <= |d|
      ensures || (d[r.index] == leafData && InclusionProof(h, d[..hist[j].c.size], r.index) == Some(r.proof))
              || CollisionIn(h, ChainAndPath(h, hist, j, i, d, leafData, r))
    {
      LeafStays(h, hist, p.origin, j, i, d, leafData, r);
    }
  }
}
