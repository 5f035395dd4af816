/** A synchronisation whose monitoring endpoint lags or is replayed: the note it serves is genuine but
    old, while the witness that answers the request is honest and up to date. */
module ReplayedSync {
  import opened Bytes
  import opened Hashing
  import opened Merkle
  import opened MerkleVerify
  import opened Notes
  import CF = CheckpointFormat
  import LL = LogLock
  import LS = LogSync
  import LM = LogSyncMeaning
  import HS = HonestSync
  import W = Witness
  import WD = WitnessDecisions

  /** The fetch is anything; the request is answered by the witness. */
  function Lagging(h: HashFn, wv: Verifier, s: W.State, fetch: LS.Fetch, clock: int): LS.Network {
    LS.Network(fetch, q => HS.Answer(h, wv, s, clock, q))
  }

  /** The log's own request is admissible. */
  lemma AsksAdmissibly(h: HashFn, origin: Bytes, me: Verifier, s: W.State, leaves: seq<Bytes>, x: nat, q: LS.Request)
    requires |leaves| < 0x1_0000_0000_0000_0000 && me.LogVerifier? && x <= |leaves|
    requires origin in s.logs && s.logs[origin] == me && origin !in s.retired
    requires LM.Asks(h, origin, me, leaves, x, q)
    ensures WD.Admissible(s, Some(q.oldSize), q.note)
    ensures CF.Parse(q.note.text) == CF.Ok(LM.Mine(h, origin, leaves))
  {
    hide CF.Parse, Root, ConsistencyPath;
    FirstOfOne(me, SigLine(me.name, me.hash, LogBlob(Ed(me.key, q.note.text))));
  }

  lemma FirstOfOne(v: Verifier, l: SigLine)
    requires OfKey(l, v)
    ensures FirstOf(v, [l]) == Some(l)
  {
  }

  lemma AnswerConflicts(h: HashFn, wv: Verifier, s: W.State, clock: int, q: LS.Request, m: uint64)
    requires WD.ReadableFor(s, q.note) && WD.Contradicts(s, Some(q.oldSize), q.note, m)
    ensures HS.Answer(h, wv, s, clock, q) == LS.ReplyConflict(m)
  {
    hide W.CosignSpec, WD.Contradicts, WD.Deserves, CF.Parse;
    WD.CosignExact(h, wv, s, Some(q.oldSize), q.note, q.proof, clock, true);
  }

  lemma MemoryContradicts(s: W.State, declaredOld: uint64, msg: Note, c: CF.Checkpoint)
    requires CF.Parse(msg.text) == CF.Ok(c) && WD.Readable(s, c.origin)
    requires WD.Admissible(s, Some(declaredOld), msg) && WD.SizeOf(s, c.origin) != declaredOld
    ensures WD.ReadableFor(s, msg) && WD.Contradicts(s, Some(declaredOld), msg, WD.SizeOf(s, c.origin))
  {
    hide WD.Admissible, CF.Parse, WD.Readable, WD.SizeOf;
  }

  /** The replay of an old genuine note of the witness is caught: whatever size `k` the fetched note
      says, if the witness itself remembers another size `m`, the synchronisation reports a rollback
      exactly when one of them is more than there is on disk, and is never attested. In particular,
      with `k` on disk or less and `m` beyond, the report is the rollback of `m`. */
  lemma ReplayExact(h: HashFn, origin: Bytes, me: Verifier, wv: Verifier, s: W.State, fetch: LS.Fetch, clock: int,
                    l: LS.Local, k: nat)
    requires |l.leaves| <= 0x20_0000_0000_0000 && me.LogVerifier? && LM.Signs(h, origin, l, LL.Stored)
    requires origin in s.logs && s.logs[origin] == me && origin !in s.retired && WD.Readable(s, origin)
    requires LM.Known(wv, origin, fetch, k) && k != WD.SizeOf(s, origin)
    ensures var n, m := |l.leaves|, WD.SizeOf(s, origin);
            LS.SyncSpec(h, origin, me, wv, l, LL.Stored, Lagging(h, wv, s, fetch, clock)).result
            == LS.NoSync(if k > n then LS.RolledBack(n, k) else if m > n then LS.RolledBack(n, m) else LS.ReplyError)
  {
    hide *;
    var n := |l.leaves|;
    var net := Lagging(h, wv, s, fetch, clock);
    LaggingIs(h, wv, s, fetch, clock);
    LM.KnownIsRemote(wv, origin, fetch, k);
    if k > n {
      LM.KnownAhead(h, origin, me, wv, l, LL.Stored, net, k, fetch.NotFound?);
    } else {
      LM.SyncIs(h, origin, me, wv, l, LL.Stored, net, k, fetch.NotFound?);
      LM.SignsExact(h, origin, me, l, LL.Stored);
      var msg := LL.SignSpec(origin, me, l.last, true, l.durable, LM.Mine(h, origin, l.leaves), LL.Stored).result.value;
      LM.BuildExact(h, origin, me, l.leaves, k, msg);
      HS.RequestIs(h, l.leaves, k, msg);
      var q := LS.BuildRequest(h, l.leaves, k, msg).value;
      LaggingAnswers(h, wv, s, fetch, clock, q);
      AsksAdmissibly(h, origin, me, s, l.leaves, k, q);
      MineIs(h, origin, l.leaves);
      MemoryContradicts(s, q.oldSize, q.note, LM.Mine(h, origin, l.leaves));
      AnswerConflicts(h, wv, s, clock, q, WD.SizeOf(s, origin));
    }
  }

  lemma LaggingIs(h: HashFn, wv: Verifier, s: W.State, fetch: LS.Fetch, clock: int)
    ensures Lagging(h, wv, s, fetch, clock).fetch == fetch
  {
  }

  lemma LaggingAnswers(h: HashFn, wv: Verifier, s: W.State, fetch: LS.Fetch, clock: int, q: LS.Request)
    ensures Lagging(h, wv, s, fetch, clock).reply(q) == HS.Answer(h, wv, s, clock, q)
  {
    hide HS.Answer;
  }

  lemma MineIs(h: HashFn, origin: Bytes, leaves: seq<Bytes>)
    requires |leaves| < 0x1_0000_0000_0000_0000
    ensures LM.Mine(h, origin, leaves).origin == origin && LM.Mine(h, origin, leaves).size == |leaves|
  {
    hide Root;
  }
}
