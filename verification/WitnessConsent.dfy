/** What the witness signs and for whom, over whole runs: only texts that the log registered under
    their origin had signed, with its own cosignature as the last line; and no log is both active
    and retired. */
module WitnessConsent {
  import opened Bytes
  import opened Hashing
  import opened Merkle
  import opened Notes
  import W = Witness
  import CF = CheckpointFormat
  import opened WitnessRun

  /** In this run a log was registered for the origin and a request came later that carries a
      signature of that log's key on the text. */
  ghost predicate Submitted(events: seq<Event>, origin: Bytes, text: Bytes) {
    exists j, k :: 0 <= j < k < |events| && Asks(events[j], events[k], origin, text)
  }

  ghost predicate Asks(a: Event, r: Event, origin: Bytes, text: Bytes) {
    && a.AddLog? && a.origin == origin && r.Receive? && r.msg.text == text
    && exists i :: 0 <= i < |r.msg.lines| && Verifies(a.v, text, r.msg.lines[i].blob)
  }

  ghost predicate Registered(events: seq<Event>, origin: Bytes, v: Verifier) {
    exists j :: 0 <= j < |events| && events[j] == AddLog(origin, v)
  }

  /** The witness's own line, over the note's text at the instant recorded. */
  predicate OwnLine(me: Verifier, e: Entry) {
    e.note.lines != [] && Last(e.note.lines) == CosignatureLine(me, e.time, e.note.text)
  }

  ghost predicate LogsRegistered(events: seq<Event>, logs: map<Bytes, Verifier>) {
    forall o :: o in logs ==> Registered(events, o, logs[o])
  }

  ghost predicate FlightSubmitted(events: seq<Event>, inFlight: seq<W.Admitted>) {
    forall i :: 0 <= i < |inFlight| ==> Submitted(events, inFlight[i].c.origin, inFlight[i].text)
  }

  ghost predicate EntriesSubmitted(me: Verifier, events: seq<Event>, hist: seq<Entry>, origin: Bytes) {
    forall k :: 0 <= k < |hist| ==> Submitted(events, origin, hist[k].note.text) && OwnLine(me, hist[k])
  }

  ghost predicate Consent(me: Verifier, events: seq<Event>, g: World) {
    && LogsRegistered(events, g.w.logs)
    && FlightSubmitted(events, g.inFlight)
    && (forall o :: o in g.history ==> EntriesSubmitted(me, events, g.history[o], o))
    && g.w.logs.Keys !! g.w.retired
  }

  lemma SubmittedLater(events: seq<Event>, e: Event, origin: Bytes, text: Bytes)
    requires Submitted(events, origin, text)
    ensures Submitted(events + [e], origin, text)
  {
    hide Asks;
    var j, k :| 0 <= j < k < |events| && Asks(events[j], events[k], origin, text);
    var t := events + [e];
    assert Asks(t[j], t[k], origin, text);
  }

  lemma RegisteredLater(events: seq<Event>, e: Event, origin: Bytes, v: Verifier)
    requires Registered(events, origin, v)
    ensures Registered(events + [e], origin, v)
  {
    var j :| 0 <= j < |events| && events[j] == AddLog(origin, v);
    assert (events + [e])[j] == AddLog(origin, v);
  }

  /** Whatever held after a run still holds when an event that changes nothing follows. */
  lemma ConsentLater(me: Verifier, events: seq<Event>, e: Event, g: World)
    requires Consent(me, events, g)
    ensures Consent(me, events + [e], g)
  {
    hide Submitted, Registered, OwnLine, EntriesSubmitted;
    forall o | o in g.w.logs ensures Registered(events + [e], o, g.w.logs[o]) {
      RegisteredLater(events, e, o, g.w.logs[o]);
    }
    forall i | 0 <= i < |g.inFlight| ensures Submitted(events + [e], g.inFlight[i].c.origin, g.inFlight[i].text) {
      SubmittedLater(events, e, g.inFlight[i].c.origin, g.inFlight[i].text);
    }
    forall o | o in g.history ensures EntriesSubmitted(me, events + [e], g.history[o], o) {
      EntriesLater(me, events, e, g.history[o], o);
    }
  }

  lemma EntriesLater(me: Verifier, events: seq<Event>, e: Event, hist: seq<Entry>, origin: Bytes)
    requires EntriesSubmitted(me, events, hist, origin)
    ensures EntriesSubmitted(me, events + [e], hist, origin)
  {
    hide Submitted, OwnLine;
    forall k | 0 <= k < |hist| ensures Submitted(events + [e], origin, hist[k].note.text) {
      SubmittedLater(events, e, origin, hist[k].note.text);
    }
  }

  lemma AdmittedOpens(s: W.State, declaredOld: Option<uint64>, msg: Note, proof: seq<Digest>)
    requires W.AdmitRequest(s, declaredOld, msg, proof).Admit?
    ensures var a := W.AdmitRequest(s, declaredOld, msg, proof).request;
            a.text == msg.text && a.c.origin in s.logs && Open([s.logs[a.c.origin]], msg).Opened?
  {
    hide Open, CF.Parse;
  }

  lemma SignedLine(v: Verifier, msg: Note) returns (i: nat)
    requires Open([v], msg).Opened?
    ensures i < |msg.lines| && Verifies(v, msg.text, msg.lines[i].blob)
  {
    hide Open, Lookup, Verifies;
    OpenSound([v], msg);
    var sig := Open([v], msg).sigs[0];
    LookupOne(v, sig.name, sig.hash);
    i :| 0 <= i < |msg.lines| && msg.lines[i] == sig;
  }

  /** A request is admitted only with a signature of the key registered for its origin. */
  lemma AdmittedIsSigned(events: seq<Event>, s: W.State, e: Event)
    requires e.Receive? && W.AdmitRequest(s, e.declaredOld, e.msg, e.proof).Admit?
    requires LogsRegistered(events, s.logs)
    ensures var a := W.AdmitRequest(s, e.declaredOld, e.msg, e.proof).request;
            Submitted(events + [e], a.c.origin, a.text)
  {
    hide W.AdmitRequest, Verifies;
    AdmittedOpens(s, e.declaredOld, e.msg, e.proof);
    var a := W.AdmitRequest(s, e.declaredOld, e.msg, e.proof).request;
    var v := s.logs[a.c.origin];
    var i := SignedLine(v, e.msg);
    var j :| 0 <= j < |events| && events[j] == AddLog(a.c.origin, v);
    var t := events + [e];
    assert Verifies(v, a.text, e.msg.lines[i].blob);
    assert Asks(t[j], t[|events|], a.c.origin, a.text);
  }

  lemma AdvanceSigns(h: HashFn, me: Verifier, s: W.State, a: W.Admitted, clock: int, commit: bool)
    ensures var (s', r) := W.Advance(h, me, s, a, clock, commit);
            && s'.logs == s.logs && s'.retired == s.retired
            && (r.Cosigned? ==> r.note.text == a.text && clock >= 0 && OwnLine(me, Entry(a.c, r.note, a.proof, clock)))
  {
    hide CF.Parse, W.CheckExtension, CosignatureLine;
  }

  lemma ProceedConsents(h: HashFn, me: Verifier, events: seq<Event>, g: World, i: nat, clock: int, commit: bool,
                        deliver: bool)
    requires Consent(me, events, g) && i < |g.inFlight|
    ensures Consent(me, events, Step(h, me, g, Proceed(i, clock, commit, deliver)))
  {
    hide Step, W.Advance, Submitted, LogsRegistered, OwnLine;
    AdvanceSigns(h, me, g.w, g.inFlight[i], clock, commit);
    ProceedIs(h, me, g, i, clock, commit, deliver);
    var a := g.inFlight[i];
    var (w, r) := W.Advance(h, me, g.w, a, clock, commit);
    assert FlightSubmitted(events, g.inFlight[..i] + g.inFlight[i + 1..]);
    hide FlightSubmitted;
    if r.Cosigned? {
      OneMoreEntry(me, events, History(g, a.c.origin), Entry(a.c, r.note, a.proof, At(clock)), a.c.origin);
    }
    hide EntriesSubmitted;
  }

  lemma OneMoreEntry(me: Verifier, events: seq<Event>, hist: seq<Entry>, x: Entry, origin: Bytes)
    requires EntriesSubmitted(me, events, hist, origin) && Submitted(events, origin, x.note.text) && OwnLine(me, x)
    ensures EntriesSubmitted(me, events, hist + [x], origin)
  {
    hide Submitted, OwnLine;
  }

  lemma ReceiveConsents(h: HashFn, me: Verifier, events: seq<Event>, g: World, e: Event)
    requires Consent(me, events, g) && e.Receive?
    ensures Consent(me, events + [e], Step(h, me, g, e))
  {
    hide W.AdmitRequest, Submitted, LogsRegistered, EntriesSubmitted;
    ConsentLater(me, events, e, g);
    if W.AdmitRequest(g.w, e.declaredOld, e.msg, e.proof).Admit? { AdmittedIsSigned(events, g.w, e); }
  }

  lemma ConfigConsents(h: HashFn, me: Verifier, events: seq<Event>, g: World, e: Event)
    requires Consent(me, events, g) && (e.AddLog? || e.RetireLog? || e.Restart?)
    ensures Consent(me, events + [e], Step(h, me, g, e))
  {
    ConsentLater(me, events, e, g);
    if e.AddLog? {
      assert (events + [e])[|events|] == AddLog(e.origin, e.v);
      assert Registered(events + [e], e.origin, e.v);
    }
    hide Submitted, Registered, EntriesSubmitted, FlightSubmitted, VerifyCheckpoint;
  }

  lemma StepConsents(h: HashFn, me: Verifier, events: seq<Event>, g: World, e: Event)
    requires Consent(me, events, g)
    ensures Consent(me, events + [e], Step(h, me, g, e))
  {
    match e
    case Receive(_, _, _) => ReceiveConsents(h, me, events, g, e);
    case Proceed(i, clock, commit, deliver) =>
      if i < |g.inFlight| { ProceedConsents(h, me, events, g, i, clock, commit, deliver); }
      ConsentLater(me, events, e, Step(h, me, g, e));
    case _ => ConfigConsents(h, me, events, g, e);
  }

  /** Over every run: each note in the history of an origin has a text that a log registered for that
      origin had signed in a request, and ends with the witness's cosignature of that text; and the
      active and the retired logs never overlap. */
  lemma {:induction false} OnlyWhatWasAsked(h: HashFn, me: Verifier, events: seq<Event>)
    ensures Consent(me, events, Run(h, me, events))
  {
    hide Step, Consent;
    if events == [] {
      StartConsents(h, me);
    } else {
      OnlyWhatWasAsked(h, me, Init(events));
      StepConsents(h, me, Init(events), Run(h, me, Init(events)), Last(events));
      assert Init(events) + [Last(events)] == events;
    }
  }

  lemma StartConsents(h: HashFn, me: Verifier)
    ensures Consent(me, [], Run(h, me, []))
  {
  }
}
