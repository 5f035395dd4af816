/** A synchronisation with a witness that is honest, reachable and serves this log: exactly
    when it is attested, when it reports a rollback, and when it merely fails. */
module HonestSync {
  import opened Bytes
  import opened Hashing
  import opened Merkle
  import opened MerkleVerify
  import opened Notes
  import Text
  import CF = CheckpointFormat
  import LL = LogLock
  import LS = LogSync
  import W = Witness
  import WP = WitnessProtocol
  import WR = WitnessRun

  // -------------------------------------------------------- the witness's side

  /** SignatureLines: the lines of a cosigned note that the request did not have. */
  function NewLines(original: seq<SigLine>, cosigned: seq<SigLine>): seq<SigLine> {
    if cosigned == [] then []
    else (if cosigned[0] in original then [] else [cosigned[0]]) + NewLines(original, cosigned[1..])
  }

  /** What the add-checkpoint endpoint answers, and the client makes of it. */
  function Answer(h: HashFn, wv: Verifier, s: W.State, clock: int, q: LS.Request): LS.Reply {
    match W.CosignSpec(h, wv, s, Some(q.oldSize), q.note, q.proof, clock, true).1
    case Cosigned(n) =>
      var added := NewLines(q.note.lines, n.lines);
      if added == [] then LS.ReplyFailed else LS.ReplyOk(Note(q.note.text, q.note.lines + added))
    case Refused(e) => if e.Conflict? then LS.ReplyConflict(e.lastSize) else LS.ReplyFailed
  }

  /** What the monitoring endpoint answers. */
  function Monitor(s: W.State, origin: Bytes): LS.Fetch {
    if origin in s.notes then LS.Fetched(s.notes[origin]) else LS.NotFound
  }

  function Honest(h: HashFn, wv: Verifier, s: W.State, origin: Bytes, clock: int): LS.Network {
    LS.Network(Monitor(s, origin), q => Answer(h, wv, s, clock, q))
  }

  // ------------------------------------------------------------------ setting

  /** The checkpoint the witness remembers; before the first one, that of the empty tree. */
  function Remembered(h: HashFn, s: W.State, origin: Bytes): CF.Checkpoint
    requires origin in s.notes ==> CF.Parse(s.notes[origin].text).Ok?
  {
    if origin in s.notes then CF.Parse(s.notes[origin].text).value else CF.Checkpoint(origin, 0, h([]))
  }

  /** What the witness remembers is a note of its own, which a client can open. */
  ghost predicate MemoryIsSound(h: HashFn, wv: Verifier, s: W.State, origin: Bytes) {
    origin in s.notes ==>
      var c := CF.Parse(s.notes[origin].text);
      && c.Ok? && c.value.origin == origin
      && (c.value.size == 0 ==> c.value.root == h([]))
      && LS.CosignatureTime(wv, s.notes[origin]).Some?
  }

  /** The witness serves this log under its key, and its clock has not gone back. */
  ghost predicate Serves(s: W.State, origin: Bytes, me: Verifier, clock: int) {
    && origin in s.logs && s.logs[origin] == me && origin !in s.retired
    && 0 <= clock && s.lastTime <= clock
  }

  /** The log's own lock lets it sign the state it has. */
  ghost predicate LogWilling(h: HashFn, origin: Bytes, l: LS.Local) {
    && |l.leaves| <= 0x20_0000_0000_0000
    && CF.ValidOrigin(origin)
    && var c := CF.Checkpoint(origin, |l.leaves|, Root(h, l.leaves));
    && LL.Monotonic(l.last, c)
    && |CF.Format(c).value| <= MAX_NOTE_BODY
  }

  ghost predicate Identities(me: Verifier, wv: Verifier) {
    me.LogVerifier? && wv.WitnessVerifier? && (me.name != wv.name || me.hash != wv.hash)
  }

  // --------------------------------------------------------------- the notes

  function LogLine(me: Verifier, text: Bytes): SigLine {
    SigLine(me.name, me.hash, LogBlob(Ed(me.key, text)))
  }

  /** The log's note opens under its key, with nothing set aside. */
  lemma LogNoteOpens(me: Verifier, text: Bytes)
    requires me.LogVerifier?
    ensures Open([me], Note(text, [LogLine(me, text)])) == Opened([LogLine(me, text)], [])
  {
    var l := LogLine(me, text);
    LookupOne(me, l.name, l.hash);
    assert [l][1..] == [];
    assert OpenLines([me], text, [], Opened([l], [])) == Opened([l], []);
    assert OpenLines([me], text, [l], Opened([], [])) == OpenLines([me], text, [], Opened([] + [l], []));
  }

  /** The cosigned note opens under the witness's key, at the instant of the cosignature. */
  lemma CosignedNoteOpens(me: Verifier, wv: Verifier, text: Bytes, t: nat)
    requires Identities(me, wv) && |text| <= MAX_NOTE_BODY
    ensures LS.CosignatureTime(wv, Note(text, [LogLine(me, text), CosignatureLine(wv, t, text)])) == Some(t)
  {
    hide CosignedMessage;
    var l, c := LogLine(me, text), CosignatureLine(wv, t, text);
    LookupOne(wv, l.name, l.hash);
    LookupOne(wv, c.name, c.hash);
    assert [l, c][1..] == [c] && [c][1..] == [] && [] + [c] == [c] && [] + [l] == [l];
    assert Verifies(wv, text, c.blob);
    assert OpenLines([wv], text, [], Opened([c], [l])) == Opened([c], [l]);
    assert OpenLines([wv], text, [c], Opened([], [l])) == OpenLines([wv], text, [], Opened([] + [c], [l]));
    assert OpenLines([wv], text, [l, c], Opened([], [])) == OpenLines([wv], text, [c], Opened([], [] + [l]));
  }

  /** Signing over the log's note adds one line, and it is new. */
  lemma OneNewLine(me: Verifier, wv: Verifier, text: Bytes, t: nat)
    requires Identities(me, wv)
    ensures var l, c := LogLine(me, text), CosignatureLine(wv, t, text);
            && SignNote(text, Opened([l], []), c) == Note(text, [l, c])
            && NewLines([l], [l, c]) == [c]
  {
    hide CosignedMessage;
    var l, c := LogLine(me, text), CosignatureLine(wv, t, text);
    assert [l][1..] == [] && Keep([l], c.name, c.hash) == [l] + Keep([], c.name, c.hash);
    assert [l, c][1..] == [c] && [c][1..] == [];
    assert NewLines([l], [c]) == [c] + NewLines([l], []);
  }

  // ------------------------------------------------------------ the exchange

  /** The request a log sends to a witness that remembers `m`. */
  function ProofFor(h: HashFn, leaves: seq<Bytes>, m: nat): seq<Digest>
    requires m <= |leaves|
  {
    if 0 < m < |leaves| then ConsistencyProof(h, leaves, m).value else []
  }

  /** The witness accepts the extension exactly when its own root is the one the log's leaves
      give at that size. */
  lemma ExtensionExact(h: HashFn, leaves: seq<Bytes>, last: Option<CF.Checkpoint>, m: nat, r: Bytes, c: CF.Checkpoint)
    requires m == (if last.Some? then last.value.size else 0) && r == (if last.Some? then last.value.root else h([]))
    requires m == 0 ==> r == h([])
    requires m <= |leaves| <= 0x20_0000_0000_0000
    requires c.size == |leaves| && c.root == Root(h, leaves)
    ensures var e := W.CheckExtension(h, last, c, ProofFor(h, leaves, m));
            && (r == Root(h, leaves[..m]) ==> e.None?)
            && (e.None? ==> || r == Root(h, leaves[..m])
                            || CollisionIn(h, RootInputs(h, leaves)
                                              + ConsistencyInputs(h, m, |leaves|, r, ProofFor(h, leaves, m))))
  {
    hide ConsistencyVerdict, ConsistencyPath, RootInputs, ConsistencyInputs;
    if m == 0 {
      assert leaves[..0] == [];
    } else if m == |leaves| {
      hide Root;
      assert leaves[..m] == leaves;
    } else {
      hide Root;
      ConsistencyExact(h, leaves, m, r, ProofFor(h, leaves, m));
    }
  }

  lemma ProofForFits(h: HashFn, leaves: seq<Bytes>, m: nat)
    requires m <= |leaves| <= 0x20_0000_0000_0000
    ensures |ProofFor(h, leaves, m)| <= WP.MAX_PROOF_LINES
  {
    hide ConsistencyPath;
    if 0 < m < |leaves| {
      TwoTo53();
      ConsistencyProofFits(h, leaves, m);
    }
  }

  lemma TwoTo53()
    ensures PowerOfTwo(53) == 0x20_0000_0000_0000
  {
    assert PowerOfTwo(8) == 0x100;
    assert PowerOfTwo(16) == 0x1_0000;
    assert PowerOfTwo(24) == 0x100_0000;
    assert PowerOfTwo(32) == 0x1_0000_0000;
    assert PowerOfTwo(40) == 0x100_0000_0000;
    assert PowerOfTwo(48) == 0x1_0000_0000_0000;
  }

  /** What the witness answers to the log's request. */
  lemma AnswerIs(h: HashFn, wv: Verifier, me: Verifier, s: W.State, clock: int, c: CF.Checkpoint, text: Bytes,
                 m: uint64, proof: seq<Digest>)
    requires Identities(me, wv) && Serves(s, c.origin, me, clock)
    requires CF.Parse(text) == CF.Ok(c) && |text| <= MAX_NOTE_BODY
    requires c.origin in s.notes ==> CF.Parse(s.notes[c.origin].text).Ok?
    requires m == Remembered(h, s, c.origin).size && m <= c.size
    ensures var last := if c.origin in s.notes then Some(CF.Parse(s.notes[c.origin].text).value) else None;
            Answer(h, wv, s, clock, LS.Request(m, proof, Note(text, [LogLine(me, text)])))
            == if W.CheckExtension(h, last, c, proof).None?
               then LS.ReplyOk(Note(text, [LogLine(me, text), CosignatureLine(wv, clock, text)]))
               else LS.ReplyFailed
  {
    hide CF.Parse, W.CheckExtension, CosignatureLine, Open, SignNote, NewLines;
    var l := LogLine(me, text);
    LogNoteOpens(me, text);
    OneNewLine(me, wv, text, clock);
    var a := W.Admitted(Some(m), c, text, Opened([l], []), proof);
    assert W.AdmitRequest(s, Some(m), Note(text, [l]), proof) == W.Admit(a) by {
      assert Opened([l], []).sigs[0] == l;
    }
    var last := if c.origin in s.notes then Some(CF.Parse(s.notes[c.origin].text).value) else None;
    CheckNeverConflicts(h, last, c, proof);
    assert [l] + [CosignatureLine(wv, clock, text)] == [l, CosignatureLine(wv, clock, text)];
  }

  lemma CheckNeverConflicts(h: HashFn, last: Option<CF.Checkpoint>, c: CF.Checkpoint, proof: seq<Digest>)
    ensures var e := W.CheckExtension(h, last, c, proof);
            e.Some? ==> !e.value.Conflict?
  {
    hide ConsistencyVerdict;
  }

  lemma LogSigns(h: HashFn, origin: Bytes, me: Verifier, l: LS.Local, mine: CF.Checkpoint, text: Bytes)
    requires LogWilling(h, origin, l) && mine == CF.Checkpoint(origin, |l.leaves|, Root(h, l.leaves))
    requires CF.Format(mine) == CF.Ok(text)
    ensures var msg := Note(text, [LogLine(me, text)]);
            LL.SignSpec(origin, me, l.last, true, l.durable, mine, LL.Stored)
            == LL.Signed(Some(mine), Some(msg), LL.Done(msg))
  {
    hide CF.Format, Root;
  }

  lemma RemoteIs(h: HashFn, wv: Verifier, s: W.State, origin: Bytes)
    requires MemoryIsSound(h, wv, s, origin)
    ensures LS.RemoteSize(wv, origin, Monitor(s, origin))
            == LS.KnownSize(Remembered(h, s, origin).size, origin !in s.notes)
  {
    hide CF.Parse, LS.CosignatureTime;
  }

  lemma CheckpointFormats(c: CF.Checkpoint) returns (text: Bytes)
    requires CF.ValidOrigin(c.origin) && |c.root| == 32
    ensures CF.Format(c) == CF.Ok(text) && CF.Parse(text) == CF.Ok(c)
  {
    text := CF.Format(c).value;
    CF.FormatExact(text, c);
  }

  lemma RequestIs(h: HashFn, leaves: seq<Bytes>, m: uint64, msg: Note)
    requires m <= |leaves| <= 0x20_0000_0000_0000
    ensures var r := LS.BuildRequest(h, leaves, m, msg);
            && r == LL.Done(LS.Request(m, ProofFor(h, leaves, m), msg))
            && |r.value.proof| <= WP.MAX_PROOF_LINES
  {
    hide ConsistencyPath;
    ProofForFits(h, leaves, m);
  }

  /** A synchronisation that gets as far as sending its request ends as the answer to it says. */
  lemma ReplyDecides(h: HashFn, origin: Bytes, me: Verifier, wv: Verifier, l: LS.Local, net: LS.Network, m: nat,
                     first: bool, mine: CF.Checkpoint, msg: Note, request: LS.Request)
    requires |l.leaves| < 0x1_0000_0000_0000_0000 && m <= |l.leaves|
    requires mine == CF.Checkpoint(origin, |l.leaves|, Root(h, l.leaves))
    requires LS.RemoteSize(wv, origin, net.fetch) == LS.KnownSize(m, first)
    requires LL.SignSpec(origin, me, l.last, true, l.durable, mine, LL.Stored)
             == LL.Signed(Some(mine), Some(msg), LL.Done(msg))
    requires LS.BuildRequest(h, l.leaves, m, msg) == LL.Done(request) && |request.proof| <= WP.MAX_PROOF_LINES
    ensures var reply := net.reply(request);
            var r := LS.SyncSpec(h, origin, me, wv, l, LL.Stored, net).result;
            && (reply.ReplyFailed? ==> r == LS.NoSync(LS.ReplyError))
            && (reply.ReplyOk? && LS.CosignatureTime(wv, reply.whole).Some?
                && LS.CoversLocalState(reply.whole, origin, |l.leaves|, Root(h, l.leaves)) ==>
                  r == LS.Attested(m, first, reply.whole, LS.CosignatureTime(wv, reply.whole).value))
  {
    hide Root, LS.RemoteSize, LL.SignSpec, LS.BuildRequest, LS.CosignatureTime, LS.CoversLocalState;
    assert l.leaves[..|l.leaves|] == l.leaves;
  }

  lemma Covers(text: Bytes, lines: seq<SigLine>, c: CF.Checkpoint)
    requires CF.Parse(text) == CF.Ok(c)
    ensures LS.CoversLocalState(Note(text, lines), c.origin, c.size, c.root)
  {
    hide CF.Parse;
  }

  lemma WillingFacts(h: HashFn, origin: Bytes, l: LS.Local, text: Bytes)
    requires LogWilling(h, origin, l) && CF.Format(CF.Checkpoint(origin, |l.leaves|, Root(h, l.leaves))) == CF.Ok(text)
    ensures |text| <= MAX_NOTE_BODY && |l.leaves| <= 0x20_0000_0000_0000
  {
    hide Root, CF.Format;
  }

  lemma MemoryParses(h: HashFn, wv: Verifier, s: W.State, origin: Bytes)
    requires MemoryIsSound(h, wv, s, origin)
    ensures origin in s.notes ==> CF.Parse(s.notes[origin].text).Ok?
  {
    hide CF.Parse, LS.CosignatureTime;
  }

  /** How the exchange ends when the witness does not remember more than there is on disk. */
  lemma Exchange(h: HashFn, origin: Bytes, me: Verifier, wv: Verifier, s: W.State, clock: int, l: LS.Local, m: nat,
                 text: Bytes)
    requires Identities(me, wv) && MemoryIsSound(h, wv, s, origin) && Serves(s, origin, me, clock)
    requires LogWilling(h, origin, l)
    requires m == Remembered(h, s, origin).size && m <= |l.leaves|
    requires var mine := CF.Checkpoint(origin, |l.leaves|, Root(h, l.leaves));
             CF.Format(mine) == CF.Ok(text) && CF.Parse(text) == CF.Ok(mine)
    ensures var mine := CF.Checkpoint(origin, |l.leaves|, Root(h, l.leaves));
            var last := if origin in s.notes then Some(CF.Parse(s.notes[origin].text).value) else None;
            var whole := Note(text, [LogLine(me, text), CosignatureLine(wv, clock, text)]);
            LS.SyncSpec(h, origin, me, wv, l, LL.Stored, Honest(h, wv, s, origin, clock)).result
            == if W.CheckExtension(h, last, mine, ProofFor(h, l.leaves, m)).None?
               then LS.Attested(m, origin !in s.notes, whole, clock)
               else LS.NoSync(LS.ReplyError)
  {
    MemoryParses(h, wv, s, origin);
    WillingFacts(h, origin, l, text);
    hide *;
    var mine := CF.Checkpoint(origin, |l.leaves|, Root(h, l.leaves));
    var msg := Note(text, [LogLine(me, text)]);
    var request := LS.Request(m, ProofFor(h, l.leaves, m), msg);
    var whole := Note(text, [LogLine(me, text), CosignatureLine(wv, clock, text)]);
    var net := Honest(h, wv, s, origin, clock);
    HonestIs(h, wv, s, origin, clock, request);
    LogSigns(h, origin, me, l, mine, text);
    RemoteIs(h, wv, s, origin);
    RequestIs(h, l.leaves, m, msg);
    AnswerIs(h, wv, me, s, clock, mine, text, m, request.proof);
    CosignedNoteOpens(me, wv, text, clock);
    Covers(text, whole.lines, mine);
    ReplyDecides(h, origin, me, wv, l, net, m, origin !in s.notes, mine, msg, request);
  }

  lemma HonestIs(h: HashFn, wv: Verifier, s: W.State, origin: Bytes, clock: int, q: LS.Request)
    ensures Honest(h, wv, s, origin, clock).fetch == Monitor(s, origin)
    ensures Honest(h, wv, s, origin, clock).reply(q) == Answer(h, wv, s, clock, q)
  {
    hide Monitor, Answer;
  }

  // ----------------------------------------------------------------- theorem

  /** With an honest witness that remembers size `m` and root `r`, and `n` leaves on disk: a
      rollback is reported exactly when m > n; otherwise the synchronisation is attested when
      `r` is the root of the first `m` leaves, and only then unless a collision is at hand;
      and in every other case it fails without accusing anyone. */
  lemma HonestSyncExact(h: HashFn, origin: Bytes, me: Verifier, wv: Verifier, s: W.State, clock: int, l: LS.Local)
    requires Identities(me, wv) && MemoryIsSound(h, wv, s, origin) && Serves(s, origin, me, clock)
    requires LogWilling(h, origin, l)
    ensures var c := Remembered(h, s, origin);
            var n := |l.leaves|;
            var r := LS.SyncSpec(h, origin, me, wv, l, LL.Stored, Honest(h, wv, s, origin, clock)).result;
            && (c.size > n <==> r == LS.NoSync(LS.RolledBack(n, c.size)))
            && (c.size > n <==> r.NoSync? && r.error.RolledBack?)
            && (c.size <= n && c.root == Root(h, l.leaves[..c.size])
                ==> r.Attested? && r.at == clock && r.witnessSize == c.size)
            && (r.Attested? ==>
                  && c.size <= n
                  && (|| c.root == Root(h, l.leaves[..c.size])
                      || CollisionIn(h, RootInputs(h, l.leaves)
                                        + ConsistencyInputs(h, c.size, n, c.root, ProofFor(h, l.leaves, c.size)))))
            && (c.size <= n && r.NoSync? ==> r.error == LS.ReplyError)
  {
    var n := |l.leaves|;
    var c := Remembered(h, s, origin);
    if c.size <= n {
      var mine := CF.Checkpoint(origin, n, Root(h, l.leaves));
      var text := CheckpointFormats(mine);
      Exchange(h, origin, me, wv, s, clock, l, c.size, text);
      hide Root, RootInputs, ConsistencyInputs, CF.Parse, CosignatureLine, W.CheckExtension, LogWilling, Serves,
           LS.SyncSpec, Honest;
      var last := if origin in s.notes then Some(CF.Parse(s.notes[origin].text).value) else None;
      assert n <= 0x20_0000_0000_0000 by { WillingBound(h, origin, l); }
      ExtensionExact(h, l.leaves, last, c.size, c.root, mine);
    } else {
      RemoteIs(h, wv, s, origin);
      hide Root, LS.RemoteSize, Remembered, CF.Parse, LL.SignSpec, LS.BuildRequest, LogWilling, Serves, MemoryIsSound;
    }
  }

  lemma WillingBound(h: HashFn, origin: Bytes, l: LS.Local)
    requires LogWilling(h, origin, l)
    ensures |l.leaves| <= 0x20_0000_0000_0000
  {
  }

  // ------------------------------------------------------- the witness's memory

  predicate OtherKey(wv: Verifier, lines: seq<SigLine>) {
    forall i :: 0 <= i < |lines| ==> lines[i].name != wv.name || lines[i].hash != wv.hash
  }

  lemma {:induction false} KeepsOtherKeys(lines: seq<SigLine>, wv: Verifier)
    ensures OtherKey(wv, Keep(lines, wv.name, wv.hash)) && |Keep(lines, wv.name, wv.hash)| <= |lines|
  {
    if lines != [] { KeepsOtherKeys(lines[1..], wv); }
  }

  /** Lines of other keys are set aside on the way to the witness's own. */
  lemma {:induction false} OpensAtTheEnd(wv: Verifier, text: Bytes, lines: seq<SigLine>, c: SigLine,
                                         aside: seq<SigLine>)
    requires OtherKey(wv, lines) && c.name == wv.name && c.hash == wv.hash && Verifies(wv, text, c.blob)
    ensures var r := OpenLines([wv], text, lines + [c], Opened([], aside));
            r.Opened? && r.sigs == [c]
    decreases |lines|
  {
    hide Verifies;
    if lines == [] {
      LookupOne(wv, c.name, c.hash);
      assert [c][1..] == [] && [] + [c] == [c];
      assert OpenLines([wv], text, [], Opened([c], aside)) == Opened([c], aside);
      assert lines + [c] == [c];
    } else {
      LookupOne(wv, lines[0].name, lines[0].hash);
      assert (lines + [c])[1..] == lines[1..] + [c] && (lines + [c])[0] == lines[0];
      OpensAtTheEnd(wv, text, lines[1..], c, if lines[0] in aside then aside else aside + [lines[0]]);
    }
  }

  /** A note the witness has just cosigned opens under its key, at that instant, exactly when it did
      not grow past the hundred lines that a note may have. */
  lemma OwnNoteOpens(wv: Verifier, text: Bytes, checked: Checked, t: nat)
    requires wv.WitnessVerifier? && |text| <= MAX_NOTE_BODY
    ensures var n := SignNote(text, checked, CosignatureLine(wv, t, text));
            LS.CosignatureTime(wv, n) == if |n.lines| <= MAX_LINES then Some(t) else None
    ensures |checked.sigs| + |checked.unverified| < MAX_LINES
            ==> |SignNote(text, checked, CosignatureLine(wv, t, text)).lines| <= MAX_LINES
  {
    hide CosignedMessage;
    var c := CosignatureLine(wv, t, text);
    KeepsOtherKeys(checked.sigs, wv);
    KeepsOtherKeys(checked.unverified, wv);
    OpensAtTheEnd(wv, text, Keep(checked.sigs, wv.name, wv.hash) + Keep(checked.unverified, wv.name, wv.hash), c, []);
    assert [c][0] == c;
  }

  /** The different lines of a note that are neither the log's nor the witness's. */
  function Others(v: Verifier, wv: Verifier, lines: seq<SigLine>): set<SigLine> {
    set l | l in lines && !OfKey(l, v) && !OfKey(l, wv)
  }

  predicate AllDifferent(lines: seq<SigLine>) {
    forall i, j :: 0 <= i < j < |lines| ==> lines[i] != lines[j]
  }

  /** The log's line once, and every other line once. */
  ghost predicate SetApart(v: Verifier, done: Checked, lines: seq<SigLine>) {
    && |done.sigs| <= 1 && (done.sigs != [] ==> OfKey(done.sigs[0], v))
    && AllDifferent(done.unverified)
    && (forall l :: l in done.unverified <==> l in lines && !OfKey(l, v))
  }

  /** Opening under the log's key alone keeps the log's first line and each different line of
      another key, seen so far and to come. */
  lemma {:induction false} OpensApart(v: Verifier, text: Bytes, seen: seq<SigLine>, lines: seq<SigLine>, done: Checked)
    requires SetApart(v, done, seen)
    ensures var r := OpenLines([v], text, lines, done);
            r.Opened? ==> SetApart(v, r, seen + lines)
    decreases |lines|
  {
    hide Verifies;
    if lines == [] {
      assert seen + lines == seen;
    } else {
      var l := lines[0];
      LookupOne(v, l.name, l.hash);
      assert seen + lines == seen + [l] + lines[1..];
      var next := if OfKey(l, v) then (if SeenKey(done.sigs, l) then done else done.(sigs := done.sigs + [l]))
                  else if l in done.unverified then done else done.(unverified := done.unverified + [l]);
      OneApart(v, seen, l, done);
      OpensApart(v, text, seen + [l], lines[1..], next);
    }
  }

  lemma OneApart(v: Verifier, seen: seq<SigLine>, l: SigLine, done: Checked)
    requires SetApart(v, done, seen)
    ensures var next := if OfKey(l, v) then (if SeenKey(done.sigs, l) then done else done.(sigs := done.sigs + [l]))
                        else if l in done.unverified then done else done.(unverified := done.unverified + [l]);
            SetApart(v, next, seen + [l])
  {
  }

  /** The lines that are not of a key. */
  function NotOf(wv: Verifier, lines: seq<SigLine>): set<SigLine> {
    set l | l in lines && !OfKey(l, wv)
  }

  lemma NotOfOne(wv: Verifier, lines: seq<SigLine>)
    requires lines != [] && AllDifferent(lines)
    ensures AllDifferent(lines[1..])
    ensures OfKey(lines[0], wv) ==> NotOf(wv, lines) == NotOf(wv, lines[1..])
    ensures !OfKey(lines[0], wv) ==>
              lines[0] !in NotOf(wv, lines[1..]) && NotOf(wv, lines) == NotOf(wv, lines[1..]) + {lines[0]}
  {
    hide OfKey;
    assert forall l :: l in lines <==> l == lines[0] || l in lines[1..] by { assert lines == [lines[0]] + lines[1..]; }
    forall i | 0 <= i < |lines[1..]| ensures lines[1..][i] != lines[0] { assert lines[1..][i] == lines[i + 1]; }
  }

  lemma {:induction false} KeepCounts(lines: seq<SigLine>, wv: Verifier)
    requires AllDifferent(lines)
    ensures |Keep(lines, wv.name, wv.hash)| == |NotOf(wv, lines)|
  {
    if lines == [] {
      assert NotOf(wv, lines) == {};
    } else {
      NotOfOne(wv, lines);
      hide NotOf, AllDifferent;
      KeepCounts(lines[1..], wv);
    }
  }

  /** What a request must meet for the note that answers it to open: fewer than a hundred lines
      besides the witness's own, the log's and each different other line counted once. */
  predicate LeavesRoom(v: Verifier, wv: Verifier, lines: seq<SigLine>) {
    |Others(v, wv, lines)| + (if v.name == wv.name && v.hash == wv.hash then 0 else 1) < MAX_LINES
  }

  lemma RoomIs(v: Verifier, wv: Verifier, lines: seq<SigLine>, checked: Checked)
    requires SetApart(v, checked, lines) && checked.sigs != []
    ensures LeavesRoom(v, wv, lines)
            <==> |Keep(checked.sigs, wv.name, wv.hash)| + |Keep(checked.unverified, wv.name, wv.hash)| < MAX_LINES
  {
    KeepCounts(checked.unverified, wv);
    assert Others(v, wv, lines) == NotOf(wv, checked.unverified);
    assert checked.sigs[1..] == [];
  }

  /** A note cosigned in answer to a request can be opened under the witness's key exactly when the
      request left room for the witness's line among the hundred. */
  lemma CosignedOpensExactly(h: HashFn, wv: Verifier, s: W.State, declaredOld: Option<uint64>, msg: Note,
                             proof: seq<Digest>, clock: int)
    requires wv.WitnessVerifier?
    requires W.CosignSpec(h, wv, s, declaredOld, msg, proof, clock, true).1.Cosigned?
    ensures var (s', r) := W.CosignSpec(h, wv, s, declaredOld, msg, proof, clock, true);
            var d := CF.Parse(msg.text);
            && d.Ok? && d.value.origin in s.logs
            && d.value.origin in s'.notes && s'.notes[d.value.origin] == r.note
            && (LS.CosignatureTime(wv, r.note).Some? <==> LeavesRoom(s.logs[d.value.origin], wv, msg.lines))
  {
    var v := s.logs[CF.Parse(msg.text).value.origin];
    var checked := Open([v], msg);
    OpensApart(v, msg.text, [], msg.lines, Opened([], []));
    assert [] + msg.lines == msg.lines;
    RoomIs(v, wv, msg.lines, checked);
    hide CF.Parse, W.CheckExtension, LS.CosignatureTime, CosignatureLine, OpenLines, LeavesRoom;
    OwnNoteOpens(wv, msg.text, checked, clock);
  }

  /** What opening sets apart is no more than there was. */
  lemma {:induction false} OpensNoMore(known: seq<Verifier>, text: Bytes, lines: seq<SigLine>, done: Checked)
    ensures var r := OpenLines(known, text, lines, done);
            r.Opened? ==> |r.sigs| + |r.unverified| <= |done.sigs| + |done.unverified| + |lines|
    decreases |lines|
  {
    hide Verifies, Lookup;
    if lines != [] {
      var l := lines[0];
      match Lookup(known, l.name, l.hash)
      case Ambiguous =>
      case Unknown =>
        OpensNoMore(known, text, lines[1..],
                    if l in done.unverified then done else done.(unverified := done.unverified + [l]));
      case Known(_) =>
        OpensNoMore(known, text, lines[1..], done);
        OpensNoMore(known, text, lines[1..], done.(sigs := done.sigs + [l]));
    }
  }

  ghost predicate Short(a: W.Admitted) {
    |a.checked.sigs| + |a.checked.unverified| < MAX_LINES
  }

  ghost predicate OwnNotes(wv: Verifier, g: WR.World) {
    && (forall i :: 0 <= i < |g.inFlight| ==> Short(g.inFlight[i]))
    && (forall o :: o in g.w.notes ==> LS.CosignatureTime(wv, g.w.notes[o]).Some?)
  }

  lemma AdmittedIsShort(s: W.State, declaredOld: Option<uint64>, msg: Note, proof: seq<Digest>)
    requires |msg.lines| < MAX_LINES && W.AdmitRequest(s, declaredOld, msg, proof).Admit?
    ensures Short(W.AdmitRequest(s, declaredOld, msg, proof).request)
  {
    hide CF.Parse, OpenLines;
    var v := s.logs[CF.Parse(msg.text).value.origin];
    OpensNoMore([v], msg.text, msg.lines, Opened([], []));
  }

  lemma AdvanceIsOwn(h: HashFn, wv: Verifier, s: W.State, a: W.Admitted, clock: int, commit: bool)
    requires wv.WitnessVerifier? && Short(a)
    ensures var (s', r) := W.Advance(h, wv, s, a, clock, commit);
            && (r.Refused? ==> s'.notes == s.notes)
            && (r.Cosigned? ==> s'.notes == s.notes[a.c.origin := r.note] && LS.CosignatureTime(wv, r.note).Some?)
  {
    hide CF.Parse, W.CheckExtension, LS.CosignatureTime, CosignatureLine, SignNote;
    if clock >= 0 && |a.text| <= MAX_NOTE_BODY { OwnNoteOpens(wv, a.text, a.checked, clock); }
  }

  /** Over any run in which no request came with a hundred signature lines, what the witness
      remembers is a note of its own that a client can open. */
  lemma {:induction false} MemoryAlwaysSound(h: HashFn, wv: Verifier, events: seq<WR.Event>, origin: Bytes)
    requires wv.WitnessVerifier?
    requires forall i :: 0 <= i < |events| && events[i].Receive? ==> |events[i].msg.lines| < MAX_LINES
    ensures OwnNotes(wv, WR.Run(h, wv, events))
    ensures MemoryIsSound(h, wv, WR.Run(h, wv, events).w, origin)
  {
    hide LS.CosignatureTime, W.AdmitRequest, W.Advance, CF.Parse, WR.Extends, WR.Step, Short;
    if events != [] {
      MemoryAlwaysSound(h, wv, Init(events), origin);
      StepOwn(h, wv, WR.Run(h, wv, Init(events)), Last(events));
    }
    WR.RunKeeps(h, wv, events);
    WR.LastIsSound(h, WR.Run(h, wv, events), origin);
  }

  lemma StepOwn(h: HashFn, wv: Verifier, g: WR.World, e: WR.Event)
    requires wv.WitnessVerifier? && OwnNotes(wv, g)
    requires e.Receive? ==> |e.msg.lines| < MAX_LINES
    ensures OwnNotes(wv, WR.Step(h, wv, g, e))
  {
    hide LS.CosignatureTime, W.AdmitRequest, W.Advance, CF.Parse, Short;
    match e {
      case AddLog(_, _) =>
      case RetireLog(_, _) =>
      case Restart =>
      case Receive(declaredOld, msg, proof) =>
        if W.AdmitRequest(g.w, declaredOld, msg, proof).Admit? { AdmittedIsShort(g.w, declaredOld, msg, proof); }
      case Proceed(i, clock, commit, _) =>
        if i < |g.inFlight| {
          AdvanceIsOwn(h, wv, g.w, g.inFlight[i], clock, commit);
          var (w, r) := W.Advance(h, wv, g.w, g.inFlight[i], clock, commit);
          assert r.Cosigned? || w.notes == g.w.notes;
        }
    }
  }

  /** Every note remembered opens exactly when it has at most a hundred lines. */
  ghost predicate NotesOpenWithin(wv: Verifier, notes: map<Bytes, Note>) {
    forall o :: o in notes ==> (LS.CosignatureTime(wv, notes[o]).Some? <==> |notes[o].lines| <= MAX_LINES)
  }

  lemma AdvanceOpensWithin(h: HashFn, wv: Verifier, s: W.State, a: W.Admitted, clock: int, commit: bool)
    requires wv.WitnessVerifier? && NotesOpenWithin(wv, s.notes)
    ensures NotesOpenWithin(wv, W.Advance(h, wv, s, a, clock, commit).0.notes)
  {
    hide CF.Parse, W.CheckExtension, LS.CosignatureTime, CosignatureLine, SignNote;
    if clock >= 0 && |a.text| <= MAX_NOTE_BODY { OwnNoteOpens(wv, a.text, a.checked, clock); }
  }

  /** Over any run, with requests of any kind, what the witness remembers for a log can be opened
      by a client exactly when it did not grow past a hundred lines. */
  lemma {:induction false} MemoryOpensExactly(h: HashFn, wv: Verifier, events: seq<WR.Event>)
    requires wv.WitnessVerifier?
    ensures NotesOpenWithin(wv, WR.Run(h, wv, events).w.notes)
  {
    hide NotesOpenWithin, W.AdmitRequest, W.Advance, CF.Parse;
    if events == [] {
      NothingOpensWithin(wv);
    } else {
      MemoryOpensExactly(h, wv, Init(events));
      var g, e := WR.Run(h, wv, Init(events)), Last(events);
      if e.Proceed? && e.i < |g.inFlight| { AdvanceOpensWithin(h, wv, g.w, g.inFlight[e.i], e.clock, e.commit); }
    }
  }

  lemma NothingOpensWithin(wv: Verifier)
    ensures NotesOpenWithin(wv, map[])
  {
  }

  // ------------------------------------------------------------ the hundredth line

  /** `n` lines of distinct keys, each with one byte of signature after its key ID. */
  function Fillers(name: Bytes, hash: nat, n: nat): (f: seq<SigLine>)
    ensures |f| == n && forall i :: 0 <= i < n ==> f[i] == SigLine(name, hash + i, OtherBlob([0]))
    decreases n
  {
    if n == 0 then [] else [SigLine(name, hash, OtherBlob([0]))] + Fillers(name, hash + 1, n - 1)
  }

  /** A signature line as it can be written: a name, a key ID of 32 bits and at least a byte of
      signature. */
  predicate Writable(l: SigLine) {
    l.name != [] && l.hash < 0x1_0000_0000 && (l.blob.OtherBlob? ==> l.blob.bytes != [])
  }

  lemma OneSetAside(v: Verifier, text: Bytes, l: SigLine, rest: seq<SigLine>, sig: SigLine, aside: seq<SigLine>)
    requires (l.name != v.name || l.hash != v.hash) && l !in aside
    ensures OpenLines([v], text, [l] + rest, Opened([sig], aside))
            == OpenLines([v], text, rest, Opened([sig], aside + [l]))
  {
    LookupOne(v, l.name, l.hash);
    assert ([l] + rest)[0] == l && ([l] + rest)[1..] == rest;
  }

  lemma AllSetAside(v: Verifier, text: Bytes, done: Checked)
    ensures OpenLines([v], text, [], done) == done
  {
  }

  lemma {:induction false} FillersSetAside(v: Verifier, text: Bytes, name: Bytes, hash: nat, n: nat, sig: SigLine,
                                           aside: seq<SigLine>)
    requires name != v.name && forall i :: 0 <= i < |aside| ==> aside[i].hash < hash
    ensures OpenLines([v], text, Fillers(name, hash, n), Opened([sig], aside))
            == Opened([sig], aside + Fillers(name, hash, n))
    decreases n
  {
    hide OpenLines;
    if n == 0 {
      assert aside + [] == aside;
      AllSetAside(v, text, Opened([sig], aside));
    } else {
      var l, more := SigLine(name, hash, OtherBlob([0])), Fillers(name, hash + 1, n - 1);
      OneSetAside(v, text, l, more, sig, aside);
      FillersSetAside(v, text, name, hash + 1, n - 1, sig, aside + [l]);
      assert aside + [l] + more == aside + ([l] + more);
    }
  }

  lemma {:induction false} KeepsAll(lines: seq<SigLine>, wv: Verifier)
    requires OtherKey(wv, lines)
    ensures Keep(lines, wv.name, wv.hash) == lines
  {
    if lines != [] {
      var rest := lines[1..];
      assert forall i :: 0 <= i < |rest| ==> rest[i] == lines[i + 1];
      KeepsAll(rest, wv);
      assert Keep(lines, wv.name, wv.hash) == [lines[0]] + Keep(rest, wv.name, wv.hash);
      hide *;
      assert lines == [lines[0]] + rest;
    }
  }

  /** A name that is neither the log's nor the witness's, of their own characters and an x. */
  function OtherName(v: Verifier, wv: Verifier): (name: Bytes)
    ensures name != v.name && name != wv.name && name != []
  {
    var name := v.name + wv.name + Text.Ascii("x");
    assert |name| > |v.name| && |name| > |wv.name|;
    name
  }

  /** A note of the log's with its own line and `others` of unknown keys. */
  function CrowdedNote(v: Verifier, wv: Verifier, text: Bytes, others: nat): Note {
    Note(text, [LogLine(v, text)] + Fillers(OtherName(v, wv), 0, others))
  }

  lemma OpenIs(known: seq<Verifier>, n: Note, r: Checked)
    requires |n.lines| <= MAX_LINES && OpenLines(known, n.text, n.lines, Opened([], [])) == r && r.sigs != []
    ensures Open(known, n) == r
  {
    hide OpenLines;
  }

  lemma CrowdedLines(v: Verifier, text: Bytes, l: SigLine, name: Bytes, others: nat)
    requires l.name == v.name && l.hash == v.hash && Verifies(v, text, l.blob) && name != v.name
    ensures OpenLines([v], text, [l] + Fillers(name, 0, others), Opened([], []))
            == Opened([l], Fillers(name, 0, others))
  {
    var f := Fillers(name, 0, others);
    hide *;
    OwnLineFirst(v, text, l, f);
    FillersSetAside(v, text, name, 0, others, l, []);
    assert [] + f == f;
  }

  lemma CrowdedOpens(v: Verifier, wv: Verifier, text: Bytes, others: nat)
    requires v.LogVerifier? && others < MAX_LINES
    ensures var n := CrowdedNote(v, wv, text, others);
            |n.lines| == 1 + others && Open([v], n) == Opened(n.lines[..1], n.lines[1..])
  {
    var l, name := LogLine(v, text), OtherName(v, wv);
    CrowdedLines(v, text, l, name, others);
    hide Fillers, OpenLines, Open, Verifies, OtherName;
    var f := Fillers(name, 0, others);
    OpenIs([v], Note(text, [l] + f), Opened([l], f));
    FirstAndRest(l, f);
  }

  lemma FirstAndRest<T>(x: T, s: seq<T>)
    ensures ([x] + s)[..1] == [x] && ([x] + s)[1..] == s
  {
  }

  lemma OwnLineFirst(v: Verifier, text: Bytes, l: SigLine, rest: seq<SigLine>)
    requires l.name == v.name && l.hash == v.hash && Verifies(v, text, l.blob)
    ensures OpenLines([v], text, [l] + rest, Opened([], [])) == OpenLines([v], text, rest, Opened([l], []))
  {
    LookupOne(v, l.name, l.hash);
    assert ([l] + rest)[0] == l && ([l] + rest)[1..] == rest && [] + [l] == [l];
  }

  /** The failing input behind the condition of MemoryAlwaysSound: a log that sends its checkpoint
      with ninety-nine further lines gets it cosigned, and what the witness then remembers, with a
      hundred and one lines, can no longer be opened. */
  lemma HundredLinesAreLost(h: HashFn, wv: Verifier, s: W.State, c: CF.Checkpoint, text: Bytes, clock: nat, others: nat)
    requires wv.WitnessVerifier? && CF.Format(c) == CF.Ok(text) && |text| <= MAX_NOTE_BODY
    requires c.origin in s.logs && c.origin !in s.retired && c.origin !in s.notes
    requires var v := s.logs[c.origin]; v.LogVerifier? && (v.name != wv.name || v.hash != wv.hash)
    requires c.size <= W.MAX_INT && (c.size == 0 ==> c.root == h([])) && s.lastTime <= clock
    requires others + 1 == MAX_LINES
    requires Writable(LogLine(s.logs[c.origin], text))
    ensures var msg := CrowdedNote(s.logs[c.origin], wv, text, others);
            var (s', r) := W.CosignSpec(h, wv, s, Some(0), msg, [], clock, true);
            && |msg.lines| == MAX_LINES && (forall i :: 0 <= i < |msg.lines| ==> Writable(msg.lines[i]))
            && r.Cosigned? && |r.note.lines| == MAX_LINES + 1 && c.origin in s'.notes && s'.notes[c.origin] == r.note
            && LS.CosignatureTime(wv, r.note) == None
  {
    hide *;
    var v := s.logs[c.origin];
    var msg := CrowdedNote(v, wv, text, others);
    CrowdedSays(v, wv, text, others);
    var checked := Opened(msg.lines[..1], msg.lines[1..]);
    CF.FormatExact(text, c);
    CrowdedOpens(v, wv, text, others);
    CrowdedIsKept(v, wv, text, others, clock);
    CrowdedIsWritable(v, wv, text, others);
    FirstRequest(h, wv, s, c, msg, checked, clock);
    OwnNoteOpens(wv, text, checked, clock);
  }

  lemma CrowdedSays(v: Verifier, wv: Verifier, text: Bytes, others: nat)
    ensures var msg := CrowdedNote(v, wv, text, others);
            msg.text == text && msg.lines != [] && W.SignedBy(Opened(msg.lines[..1], msg.lines[1..]), v)
  {
    hide OtherName, Fillers;
    var sigs := CrowdedNote(v, wv, text, others).lines[..1];
    assert sigs[0] == LogLine(v, text);
  }

  /** The first request of a log, signed by it, is cosigned. */
  lemma FirstRequest(h: HashFn, wv: Verifier, s: W.State, c: CF.Checkpoint, msg: Note, checked: Checked, clock: nat)
    requires CF.Parse(msg.text) == CF.Ok(c) && |msg.text| <= MAX_NOTE_BODY
    requires c.origin in s.logs && c.origin !in s.retired && c.origin !in s.notes
    requires Open([s.logs[c.origin]], msg) == checked && W.SignedBy(checked, s.logs[c.origin])
    requires c.size <= W.MAX_INT && (c.size == 0 ==> c.root == h([])) && s.lastTime <= clock
    ensures var (s', r) := W.CosignSpec(h, wv, s, Some(0), msg, [], clock, true);
            && r == W.Cosigned(SignNote(msg.text, checked, CosignatureLine(wv, clock, msg.text)))
            && c.origin in s'.notes && s'.notes[c.origin] == r.note
  {
    hide CF.Parse, Open, SignNote, CosignatureLine, W.SignedBy;
  }

  lemma CrowdedIsWritable(v: Verifier, wv: Verifier, text: Bytes, others: nat)
    requires Writable(LogLine(v, text)) && others < MAX_LINES
    ensures var n := CrowdedNote(v, wv, text, others);
            forall i :: 0 <= i < |n.lines| ==> Writable(n.lines[i])
  {
    hide OtherName;
  }

  lemma CrowdedIsKept(v: Verifier, wv: Verifier, text: Bytes, others: nat, time: nat)
    requires v.name != wv.name || v.hash != wv.hash
    ensures var msg := CrowdedNote(v, wv, text, others);
            var line := CosignatureLine(wv, time, text);
            |SignNote(text, Opened(msg.lines[..1], msg.lines[1..]), line).lines| == 2 + others
  {
    hide CosignedMessage;
    var msg := CrowdedNote(v, wv, text, others);
    KeepsAll(msg.lines[..1], wv);
    KeepsAll(msg.lines[1..], wv);
  }
}
