/** When the witness cosigns, when it answers with a conflict, and what each refusal means; and, over
    runs, that a declared size is the one remembered and that its clock does not go back. */
module WitnessDecisions {
  import opened Bytes
  import opened Hashing
  import opened Merkle
  import opened MerkleVerify
  import opened Notes
  import CF = CheckpointFormat
  import opened Witness
  import WR = WitnessRun

  // ------------------------------------------------------------- the memory

  /** What the witness remembers of an origin can be read. */
  predicate Readable(s: State, origin: Bytes) {
    origin in s.notes ==> CF.Parse(s.notes[origin].text).Ok?
  }

  function LastOf(s: State, origin: Bytes): Option<CF.Checkpoint>
    requires Readable(s, origin)
  {
    if origin in s.notes then Some(CF.Parse(s.notes[origin].text).value) else None
  }

  /** The size remembered; 0 before the first note. */
  function SizeOf(s: State, origin: Bytes): uint64
    requires Readable(s, origin)
  {
    if origin in s.notes then CF.Parse(s.notes[origin].text).value.size else 0
  }

  // -------------------------------------------------------------- the extension

  /** `c` may follow what is remembered: not smaller; nothing to prove from the empty tree; the same
      root at the same size; a consistency proof in between. */
  ghost predicate Follows(h: HashFn, last: Option<CF.Checkpoint>, c: CF.Checkpoint, proof: seq<Digest>) {
    var m := if last.Some? then last.value.size else 0;
    && m <= c.size <= MAX_INT
    && (c.size == 0 ==> c.root == h([]))
    && (m == 0 ==> proof == [])
    && (0 < m == c.size ==> c.root == last.value.root)
    && (0 < m < c.size ==> ConsistencyVerdict(h, m, c.size, last.value.root, c.root, proof) == Accepted)
  }

  lemma ExtensionExact(h: HashFn, last: Option<CF.Checkpoint>, c: CF.Checkpoint, proof: seq<Digest>)
    ensures CheckExtension(h, last, c, proof).None? <==> Follows(h, last, c, proof)
    ensures CheckExtension(h, last, c, proof) in {None, Some(Unprocessable), Some(BadOldSize)}
  {
    hide ConsistencyVerdict;
  }

  // -------------------------------------------------------------- the admission

  lemma OpenIsSigned(v: Verifier, msg: Note)
    ensures Open([v], msg).Opened? <==> SignedUnder(v, msg)
    ensures Open([v], msg).Opened? ==> SignedBy(Open([v], msg), v)
  {
    hide Open, Verifies;
    OpenExact(v, msg);
    if Open([v], msg).Opened? { assert Open([v], msg).sigs[0] == FirstOf(v, msg.lines).value; }
  }

  /** A request that reaches the memory: its body can be read, its origin is active and not retired, the
      origin's key signed it, and it does not declare more than it brings. */
  predicate Admissible(s: State, declaredOld: Option<uint64>, msg: Note) {
    var d := CF.Parse(msg.text);
    && d.Ok? && d.value.origin !in s.retired && d.value.origin in s.logs
    && SignedUnder(s.logs[d.value.origin], msg)
    && (declaredOld.Some? ==> declaredOld.value <= d.value.size)
  }

  /** Why a request does not reach the memory: the first thing that fails. */
  function Rejection(s: State, msg: Note): CosignError {
    var d := CF.Parse(msg.text);
    if d.Err? then Malformed
    else if d.value.origin in s.retired then RetiredLog
    else if d.value.origin !in s.logs then UnknownLog
    else if !SignedUnder(s.logs[d.value.origin], msg) then CosignError.BadSignature
    else BadOldSize
  }

  lemma AdmissionExact(s: State, declaredOld: Option<uint64>, msg: Note, proof: seq<Digest>)
    ensures !Admissible(s, declaredOld, msg) ==> AdmitRequest(s, declaredOld, msg, proof) == Reject(Rejection(s, msg))
    ensures AdmitRequest(s, declaredOld, msg, proof).Admit? <==> Admissible(s, declaredOld, msg)
    ensures Admissible(s, declaredOld, msg) ==>
              var c := CF.Parse(msg.text).value;
              Open([s.logs[c.origin]], msg).Opened?
              && AdmitRequest(s, declaredOld, msg, proof).request
                 == Admitted(declaredOld, c, msg.text, Open([s.logs[c.origin]], msg), proof)
  {
    hide Open, CF.Parse, SignedBy, SignedUnder;
    var d := CF.Parse(msg.text);
    if d.Ok? && d.value.origin in s.logs {
      OpenIsSigned(s.logs[d.value.origin], msg);
    }
  }

  // --------------------------------------------------------------- the decision

  /** The clock lets the witness sign: not before 1970, not before its last signature, and the body is
      not too long. */
  predicate CanSign(s: State, text: Bytes, clock: int) {
    0 <= clock && s.lastTime <= clock && |text| <= MAX_NOTE_BODY
  }

  /** With a memory it can read, the witness uses it exactly as follows. A declared size other than
      the one remembered is a conflict, which tells the size remembered and changes nothing. */
  lemma AdvanceExact(h: HashFn, me: Verifier, s: State, a: Admitted, clock: int, commit: bool)
    requires Readable(s, a.c.origin)
    ensures var (s', r) := Advance(h, me, s, a, clock, commit);
            var m := SizeOf(s, a.c.origin);
            var agreed := a.declaredOld.Some? ==> a.declaredOld.value == m;
            var follows := Follows(h, LastOf(s, a.c.origin), a.c, a.proof);
            && (r.Cosigned? <==> agreed && follows && CanSign(s, a.text, clock) && commit)
            && (forall x: uint64 :: r == Refused(Conflict(x)) <==> !agreed && x == m)
            && (r == Refused(ClockRewind) <==> agreed && follows && !CanSign(s, a.text, clock))
            && (r == Refused(NotPersisted) <==> agreed && follows && CanSign(s, a.text, clock) && !commit)
            && (r.Cosigned? ==>
                  && r.note == SignNote(a.text, a.checked, CosignatureLine(me, clock, a.text))
                  && s' == s.(lastTime := clock, notes := s.notes[a.c.origin := r.note]))
            && (r == Refused(NotPersisted) ==> s' == s.(lastTime := clock))
            && (r.Refused? && r != Refused(NotPersisted) ==> s' == s)
  {
    hide CF.Parse, CheckExtension, SignNote, CosignatureLine, Follows;
    ExtensionExact(h, LastOf(s, a.c.origin), a.c, a.proof);
  }

  /** The memory of the log a request is for can be read. */
  predicate ReadableFor(s: State, msg: Note) {
    var d := CF.Parse(msg.text);
    d.Ok? ==> Readable(s, d.value.origin)
  }

  /** A request to cosign: admissible, declaring what is remembered if it declares anything, extending
      that, at an instant the witness can sign at, and persisted. */
  ghost predicate Deserves(h: HashFn, s: State, declaredOld: Option<uint64>, msg: Note, proof: seq<Digest>, clock: int,
                           commit: bool)
    requires ReadableFor(s, msg)
  {
    Admissible(s, declaredOld, msg)
    && var c := CF.Parse(msg.text).value;
       && (declaredOld.Some? ==> declaredOld.value == SizeOf(s, c.origin))
       && Follows(h, LastOf(s, c.origin), c, proof) && CanSign(s, msg.text, clock) && commit
  }

  /** A request that declares a size other than the one remembered, `x`. */
  predicate Contradicts(s: State, declaredOld: Option<uint64>, msg: Note, x: uint64)
    requires ReadableFor(s, msg)
  {
    && Admissible(s, declaredOld, msg)
    && x == SizeOf(s, CF.Parse(msg.text).value.origin) && declaredOld.Some? && declaredOld.value != x
  }

  /** The note for a cosigned request, and what is remembered then. */
  ghost predicate Remembers(me: Verifier, s: State, msg: Note, clock: int, s': State, n: Note) {
    && 0 <= clock && n.text == msg.text && n.lines != [] && Last(n.lines) == CosignatureLine(me, clock, msg.text)
    && var d := CF.Parse(msg.text);
       d.Ok? && s' == s.(lastTime := clock, notes := s.notes[d.value.origin := n])
  }

  /** A whole request: cosigned exactly when it deserves it; a conflict exactly when it is admissible
      and declares another size, and then the answer is the size remembered and nothing changed. */
  lemma CosignExact(h: HashFn, me: Verifier, s: State, declaredOld: Option<uint64>, msg: Note, proof: seq<Digest>,
                    clock: int, commit: bool)
    requires ReadableFor(s, msg)
    ensures var (s', r) := CosignSpec(h, me, s, declaredOld, msg, proof, clock, commit);
            && (r.Cosigned? <==> Deserves(h, s, declaredOld, msg, proof, clock, commit))
            && (r.Cosigned? ==> Remembers(me, s, msg, clock, s', r.note))
            && (forall x: uint64 :: r == Refused(Conflict(x)) <==> Contradicts(s, declaredOld, msg, x))
            && (r.Refused? && r != Refused(NotPersisted) ==> s' == s)
            && (r == Refused(NotPersisted) ==> s' == s.(lastTime := s'.lastTime))
  {
    hide *;
    AdmissionExact(s, declaredOld, msg, proof);
    if !Admissible(s, declaredOld, msg) {
      NotAdmitted(h, me, s, declaredOld, msg, proof, clock, commit);
      NotDeserved(h, s, declaredOld, msg, proof, clock, commit);
    } else {
      var a := AdmitRequest(s, declaredOld, msg, proof).request;
      AdmissibleParses(s, declaredOld, msg);
      CosignIsAdvance(h, me, s, declaredOld, msg, proof, clock, commit);
      AdvanceExact(h, me, s, a, clock, commit);
      AdmittedDecides(h, s, declaredOld, msg, proof, clock, commit, a.c);
      if Deserves(h, s, declaredOld, msg, proof, clock, commit) {
        SignedNoteIs(me, s, msg, clock, a);
      }
    }
  }

  lemma NotDeserved(h: HashFn, s: State, declaredOld: Option<uint64>, msg: Note, proof: seq<Digest>, clock: int,
                    commit: bool)
    requires ReadableFor(s, msg) && !Admissible(s, declaredOld, msg)
    ensures !Deserves(h, s, declaredOld, msg, proof, clock, commit)
    ensures forall x: uint64 :: !Contradicts(s, declaredOld, msg, x)
  {
    hide Admissible, CF.Parse;
  }

  lemma AdmittedDecides(h: HashFn, s: State, declaredOld: Option<uint64>, msg: Note, proof: seq<Digest>, clock: int,
                        commit: bool, c: CF.Checkpoint)
    requires ReadableFor(s, msg) && Admissible(s, declaredOld, msg) && CF.Parse(msg.text) == CF.Ok(c)
    ensures Readable(s, c.origin)
    ensures var m := SizeOf(s, c.origin);
            var agreed := declaredOld.Some? ==> declaredOld.value == m;
            && (Deserves(h, s, declaredOld, msg, proof, clock, commit)
                <==> agreed && Follows(h, LastOf(s, c.origin), c, proof) && CanSign(s, msg.text, clock) && commit)
            && (forall x: uint64 :: Contradicts(s, declaredOld, msg, x) <==> !agreed && x == m)
  {
    hide Admissible, CF.Parse, SizeOf, LastOf, Follows, Readable;
  }

  lemma AdmissibleParses(s: State, declaredOld: Option<uint64>, msg: Note)
    requires ReadableFor(s, msg) && Admissible(s, declaredOld, msg)
    ensures CF.Parse(msg.text).Ok? && Readable(s, CF.Parse(msg.text).value.origin)
  {
    hide SignedUnder, CF.Parse, Readable;
  }

  lemma SignedNoteIs(me: Verifier, s: State, msg: Note, clock: int, a: Admitted)
    requires CanSign(s, msg.text, clock) && CF.Parse(msg.text) == CF.Ok(a.c)
    ensures var n := SignNote(msg.text, a.checked, CosignatureLine(me, clock, msg.text));
            Remembers(me, s, msg, clock, s.(lastTime := clock, notes := s.notes[a.c.origin := n]), n)
  {
    hide Keep, CF.Parse, CosignatureLine;
  }

  lemma NotAdmitted(h: HashFn, me: Verifier, s: State, declaredOld: Option<uint64>, msg: Note, proof: seq<Digest>,
                    clock: int, commit: bool)
    requires AdmitRequest(s, declaredOld, msg, proof).Reject?
    ensures var (s', r) := CosignSpec(h, me, s, declaredOld, msg, proof, clock, commit);
            r.Refused? && !r.error.Conflict? && s' == s
  {
    hide Open, CF.Parse, SignedBy;
  }

  lemma CosignIsAdvance(h: HashFn, me: Verifier, s: State, declaredOld: Option<uint64>, msg: Note, proof: seq<Digest>,
                        clock: int, commit: bool)
    requires AdmitRequest(s, declaredOld, msg, proof).Admit?
    ensures CosignSpec(h, me, s, declaredOld, msg, proof, clock, commit)
         == Advance(h, me, s, AdmitRequest(s, declaredOld, msg, proof).request, clock, commit)
  {
    hide AdmitRequest, Advance;
  }

  // --------------------------------------------------------------- whole runs

  /** After any run, what is remembered can be read, and its size is the one remembered. */
  lemma RunReadable(h: HashFn, me: Verifier, events: seq<WR.Event>, origin: Bytes)
    ensures var g := WR.Run(h, me, events);
            Readable(g.w, origin) && SizeOf(g.w, origin) == WR.Remembered(g, origin)
  {
    hide WR.Run, CF.Parse, WR.Extends;
    WR.RunKeeps(h, me, events);
    WR.LastIsSound(h, WR.Run(h, me, events), origin);
  }

  /** After any run, a request whose turn comes is cosigned only if the size it declared is the one
      remembered at that moment, and is answered with a conflict exactly when it is another one. */
  lemma RunDecides(h: HashFn, me: Verifier, events: seq<WR.Event>, i: nat, clock: int, commit: bool, deliver: bool)
    requires i < |WR.Run(h, me, events).inFlight|
    ensures var g := WR.Run(h, me, events);
            var a := g.inFlight[i];
            var g' := WR.Step(h, me, g, WR.Proceed(i, clock, commit, deliver));
            var r := Advance(h, me, g.w, a, clock, commit).1;
            var agreed := a.declaredOld.Some? ==> a.declaredOld.value == WR.Remembered(g, a.c.origin);
            && Readable(g.w, a.c.origin)
            && (r.Cosigned? <==>
                  && agreed && Follows(h, LastOf(g.w, a.c.origin), a.c, a.proof)
                  && CanSign(g.w, a.text, clock) && commit)
            && (forall x: uint64 :: r == Refused(Conflict(x)) <==> !agreed && x == WR.Remembered(g, a.c.origin))
            && (g'.w.notes != g.w.notes || g'.history != g.history || g'.handed != g.handed ==> agreed && r.Cosigned?)
  {
    hide WR.Run, CF.Parse, WR.Step, Advance, Follows, LastOf, SizeOf, Readable, WR.Remembered;
    var g := WR.Run(h, me, events);
    var a := g.inFlight[i];
    RunReadable(h, me, events, a.c.origin);
    AdvanceExact(h, me, g.w, a, clock, commit);
    WR.ProceedIs(h, me, g, i, clock, commit, deliver);
  }

  lemma AdvanceClock(h: HashFn, me: Verifier, s: State, a: Admitted, clock: int, commit: bool)
    ensures var (s', r) := Advance(h, me, s, a, clock, commit);
            && s.lastTime <= s'.lastTime && s'.logs == s.logs && s'.retired == s.retired
            && (r.Cosigned? ==> clock >= 0 && s'.lastTime == clock)
  {
    hide CF.Parse, CheckExtension, SignNote, CosignatureLine;
  }

  lemma StepClock(h: HashFn, me: Verifier, g: WR.World, e: WR.Event, origin: Bytes)
    requires !e.Restart?
    ensures var g' := WR.Step(h, me, g, e);
            var before, after := WR.History(g, origin), WR.History(g', origin);
            && g.w.lastTime <= g'.w.lastTime
            && (after == before || (after != [] && Init(after) == before && Last(after).time == g'.w.lastTime))
  {
    hide *;
    if e.Proceed? && e.i < |g.inFlight| {
      var a := g.inFlight[e.i];
      var r := Advance(h, me, g.w, a, e.clock, e.commit).1;
      ProceedEvent(e);
      WR.ProceedIs(h, me, g, e.i, e.clock, e.commit, e.deliver);
      AdvanceClock(h, me, g.w, a, e.clock, e.commit);
      if r.Cosigned? {
        var entry := WR.Entry(a.c, r.note, a.proof, WR.At(e.clock));
        AtIs(e.clock);
        HistoryGrows(g, WR.Step(h, me, g, e), a.c.origin, entry, origin);
      } else {
        SameHistory(g, WR.Step(h, me, g, e), origin);
      }
    } else {
      OnlyProceedSigns(h, me, g, e);
      SameHistory(g, WR.Step(h, me, g, e), origin);
    }
  }

  lemma AtIs(clock: int)
    requires clock >= 0
    ensures WR.At(clock) == clock
  {
  }

  lemma HistoryGrows(g: WR.World, g': WR.World, o: Bytes, e: WR.Entry, origin: Bytes)
    requires g'.history == g.history[o := WR.History(g, o) + [e]]
    ensures var before, after := WR.History(g, origin), WR.History(g', origin);
            after == before || (after != [] && Init(after) == before && Last(after) == e)
  {
  }

  lemma SameHistory(g: WR.World, g': WR.World, origin: Bytes)
    requires g'.history == g.history
    ensures WR.History(g', origin) == WR.History(g, origin)
  {
  }

  lemma ProceedEvent(e: WR.Event)
    requires e.Proceed?
    ensures e == WR.Proceed(e.i, e.clock, e.commit, e.deliver)
  {
  }

  /** Every other event leaves the clock and the histories as they are. */
  lemma OnlyProceedSigns(h: HashFn, me: Verifier, g: WR.World, e: WR.Event)
    requires !e.Restart? && !(e.Proceed? && e.i < |g.inFlight|)
    ensures var g' := WR.Step(h, me, g, e);
            g'.history == g.history && g'.w.lastTime == g.w.lastTime
  {
    hide Advance, AdmitRequest, VerifyCheckpoint;
  }

  /** Until it restarts, the witness never signs at an instant before one it signed at: its clock only
      goes forward, and every note added to a history lies between its old and its new instant. */
  lemma {:induction false} ClockForward(h: HashFn, me: Verifier, events: seq<WR.Event>, more: seq<WR.Event>,
                                        origin: Bytes)
    requires forall i :: 0 <= i < |more| ==> !more[i].Restart?
    ensures var g, g' := WR.Run(h, me, events), WR.Run(h, me, events + more);
            var before, after := WR.History(g, origin), WR.History(g', origin);
            && g.w.lastTime <= g'.w.lastTime && |before| <= |after|
            && forall k :: |before| <= k < |after| ==> g.w.lastTime <= after[k].time <= g'.w.lastTime
  {
    hide WR.Step, WR.History;
    if more == [] {
      assert events + more == events;
    } else {
      ClockForward(h, me, events, Init(more), origin);
      assert Init(events + more) == events + Init(more) && Last(events + more) == Last(more);
      StepClock(h, me, WR.Run(h, me, events + Init(more)), Last(more), origin);
    }
  }

  /** A log is retired exactly when it is not active and the key given signed what is remembered of it,
      if anything is; nothing else changes. */
  lemma RetireExact(s: State, origin: Bytes, v: Verifier, s': State)
    requires Readable(s, origin)
    ensures RetireSpec(s, origin, v) == Some(s')
            <==> && origin !in s.logs && (origin in s.notes ==> SignedUnder(v, s.notes[origin]))
                 && s' == s.(retired := s.retired + {origin})
  {
    hide CF.Parse, Open, SignedUnder;
    if origin in s.notes { OpenIsSigned(v, s.notes[origin]); }
  }

  /** A log is added exactly when it has not been retired, and then its key is the one given. */
  lemma AddExact(s: State, origin: Bytes, v: Verifier)
    ensures AddSpec(s, origin, v).Some? <==> origin !in s.retired
    ensures AddSpec(s, origin, v).Some? ==>
              var s' := AddSpec(s, origin, v).value;
              && origin in s'.logs && s'.logs[origin] == v && s'.logs - {origin} == s.logs - {origin}
              && s' == s.(logs := s'.logs)
  {
  }

  /** In any run, no retired origin is active. */
  lemma {:induction false} RetiredIsNotActive(h: HashFn, me: Verifier, events: seq<WR.Event>)
    ensures var w := WR.Run(h, me, events).w;
            w.retired !! w.logs.Keys
  {
    hide WR.Step;
    if events != [] {
      RetiredIsNotActive(h, me, Init(events));
      StepKeepsApart(h, me, WR.Run(h, me, Init(events)), Last(events));
    }
  }

  lemma StepKeepsApart(h: HashFn, me: Verifier, g: WR.World, e: WR.Event)
    requires g.w.retired !! g.w.logs.Keys
    ensures var w := WR.Step(h, me, g, e).w;
            w.retired !! w.logs.Keys
  {
    hide Advance, AdmitRequest, VerifyCheckpoint;
    if e.Proceed? && e.i < |g.inFlight| { AdvanceClock(h, me, g.w, g.inFlight[e.i], e.clock, e.commit); }
  }
}
