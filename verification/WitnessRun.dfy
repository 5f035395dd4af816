/** Whole runs of the witness: requests in flight, failed signatures and commits, crashes
    between persisting and answering, restarts that keep the memory and nothing else. */
module WitnessRun {
  import opened Bytes
  import opened Hashing
  import opened Merkle
  import opened MerkleVerify
  import opened Notes
  import W = Witness
  import CF = CheckpointFormat

  /** One note the witness persisted, with the proof that let it and the instant it signed at. */
  datatype Entry = Entry(c: CF.Checkpoint, note: Note, proof: seq<Digest>, time: nat)

  /** `history` is what was persisted for each origin, in order; the witness keeps only the
      last. `handed` are the notes given back to clients. */
  datatype World = World(w: W.State, inFlight: seq<W.Admitted>, handed: seq<Note>, history: map<Bytes, seq<Entry>>)

  datatype Event =
    | AddLog(origin: Bytes, v: Verifier)
    | RetireLog(origin: Bytes, v: Verifier)
    | Receive(declaredOld: Option<uint64>, msg: Note, proof: seq<Digest>)
    | Proceed(i: nat, clock: int, commit: bool, deliver: bool)
    | Restart

  /** The instant of a signature; there is none before 1970. */
  function At(clock: int): nat {
    if clock < 0 then 0 else clock
  }

  function Start(): World {
    World(W.State(map[], {}, map[], 0), [], [], map[])
  }

  function History(g: World, origin: Bytes): seq<Entry> {
    if origin in g.history then g.history[origin] else []
  }

  /** One atomic step. The checks of a request and the use of the memory are two of them, so
      anything may happen in between. */
  function Step(h: HashFn, me: Verifier, g: World, e: Event): World {
    match e
    case AddLog(origin, v) =>
      var r := W.AddSpec(g.w, origin, v);
      if r.Some? then g.(w := r.value) else g
    case RetireLog(origin, v) =>
      var r := W.RetireSpec(g.w, origin, v);
      if r.Some? then g.(w := r.value) else g
    case Receive(declaredOld, msg, proof) =>
      var r := W.AdmitRequest(g.w, declaredOld, msg, proof);
      if r.Admit? then g.(inFlight := g.inFlight + [r.request]) else g
    case Proceed(i, clock, commit, deliver) =>
      if i >= |g.inFlight| then g
      else
        var a := g.inFlight[i];
        var (w, r) := W.Advance(h, me, g.w, a, clock, commit);
        var rest := g.inFlight[..i] + g.inFlight[i + 1..];
        if r.Cosigned? then
          World(w, rest, if deliver then g.handed + [r.note] else g.handed,
                g.history[a.c.origin := History(g, a.c.origin) + [Entry(a.c, r.note, a.proof, At(clock))]])
        else g.(w := w, inFlight := rest)
    case Restart => g.(w := W.State(map[], {}, g.w.notes, 0), inFlight := [])
  }

  function Run(h: HashFn, me: Verifier, events: seq<Event>): World {
    if events == [] then Start() else Step(h, me, Run(h, me, Init(events)), Last(events))
  }

  // --------------------------------------------------------------- invariant

  /** `b` may follow `a` in the memory of one origin. */
  ghost predicate Extends(h: HashFn, a: Entry, b: Entry) {
    && a.c.size <= b.c.size
    && (a.c.size == b.c.size ==> a.c.root == b.c.root)
    && (0 < a.c.size < b.c.size ==> ConsistencyVerdict(h, a.c.size, b.c.size, a.c.root, b.c.root, b.proof) == Accepted)
  }

  ghost predicate Sound(h: HashFn, e: Entry, origin: Bytes) {
    && CF.Parse(e.note.text) == CF.Ok(e.c)
    && e.c.origin == origin
    && (e.c.size == 0 ==> e.c.root == h([]))
  }

  ghost predicate Chained(h: HashFn, hist: seq<Entry>, origin: Bytes) {
    && (forall i :: 0 <= i < |hist| ==> Sound(h, hist[i], origin))
    && (forall i :: 0 < i < |hist| ==> Extends(h, hist[i - 1], hist[i]))
  }

  /** The memory is the end of the history of each origin. */
  ghost predicate MemoryOk(h: HashFn, notes: map<Bytes, Note>, history: map<Bytes, seq<Entry>>) {
    && notes.Keys == history.Keys
    && forall o :: o in history ==> OriginOk(h, notes[o], history[o], o)
  }

  ghost predicate OriginOk(h: HashFn, note: Note, hist: seq<Entry>, origin: Bytes) {
    hist != [] && Last(hist).note == note && Chained(h, hist, origin)
  }

  ghost predicate FlightOk(inFlight: seq<W.Admitted>) {
    forall i :: 0 <= i < |inFlight| ==> CF.Parse(inFlight[i].text) == CF.Ok(inFlight[i].c)
  }

  ghost predicate HandedOk(handed: seq<Note>, history: map<Bytes, seq<Entry>>) {
    forall i :: 0 <= i < |handed| ==> WasPersisted(history, handed[i])
  }

  ghost predicate WasPersisted(history: map<Bytes, seq<Entry>>, n: Note) {
    exists o, k :: o in history && 0 <= k < |history[o]| && history[o][k].note == n
  }

  ghost predicate Invariant(h: HashFn, g: World) {
    MemoryOk(h, g.w.notes, g.history) && FlightOk(g.inFlight) && HandedOk(g.handed, g.history)
  }

  lemma AdmittedIsParsed(s: W.State, declaredOld: Option<uint64>, msg: Note, proof: seq<Digest>)
    requires W.AdmitRequest(s, declaredOld, msg, proof).Admit?
    ensures var a := W.AdmitRequest(s, declaredOld, msg, proof).request;
            CF.Parse(a.text) == CF.Ok(a.c)
  {
    hide CF.Parse;
  }

  /** What a successful step adds to the memory of its origin. */
  lemma AdvanceExtends(h: HashFn, me: Verifier, s: W.State, a: W.Admitted, clock: int, commit: bool,
                       last: Option<Entry>)
    requires CF.Parse(a.text) == CF.Ok(a.c)
    requires a.c.origin in s.notes <==> last.Some?
    requires last.Some? ==> last.value.note == s.notes[a.c.origin] && Sound(h, last.value, a.c.origin)
    ensures var (s', r) := W.Advance(h, me, s, a, clock, commit);
            && (r.Refused? ==> s'.notes == s.notes)
            && (r.Cosigned? ==>
                  && s'.notes == s.notes[a.c.origin := r.note]
                  && Sound(h, Entry(a.c, r.note, a.proof, At(clock)), a.c.origin)
                  && (last.Some? ==> Extends(h, last.value, Entry(a.c, r.note, a.proof, At(clock)))))
  {
    hide CF.Parse, ConsistencyVerdict;
  }

  lemma ChainedAppend(h: HashFn, hist: seq<Entry>, e: Entry, origin: Bytes)
    requires Chained(h, hist, origin) && Sound(h, e, origin)
    requires hist != [] ==> Extends(h, Last(hist), e)
    ensures Chained(h, hist + [e], origin)
  {
    hide Sound, Extends;
    var t := hist + [e];
    forall i | 0 < i < |t| ensures Extends(h, t[i - 1], t[i]) {
      if i == |hist| { assert t[i - 1] == Last(hist); }
    }
  }

  lemma EmptyChained(h: HashFn, origin: Bytes)
    ensures Chained(h, [], origin)
  {
  }

  lemma MemoryAppend(h: HashFn, notes: map<Bytes, Note>, history: map<Bytes, seq<Entry>>, o: Bytes, e: Entry)
    requires MemoryOk(h, notes, history) && Sound(h, e, o)
    requires o in history ==> Extends(h, Last(history[o]), e)
    ensures var hist := if o in history then history[o] else [];
            MemoryOk(h, notes[o := e.note], history[o := hist + [e]])
  {
    hide Sound, Extends, Chained;
    var hist := if o in history then history[o] else [];
    EmptyChained(h, o);
    ChainedAppend(h, hist, e, o);
  }

  lemma HandedAppend(handed: seq<Note>, history: map<Bytes, seq<Entry>>, o: Bytes, e: Entry)
    requires HandedOk(handed, history)
    ensures var hist := if o in history then history[o] else [];
            && HandedOk(handed, history[o := hist + [e]])
            && HandedOk(handed + [e.note], history[o := hist + [e]])
  {
    var hist := if o in history then history[o] else [];
    var history' := history[o := hist + [e]];
    forall n | WasPersisted(history, n) ensures WasPersisted(history', n) {
      var p, k :| p in history && 0 <= k < |history[p]| && history[p][k].note == n;
      assert history'[p][k].note == n;
    }
    assert history'[o][|hist|].note == e.note;
  }

  /** What one use of the memory leaves behind. */
  lemma ProceedIs(h: HashFn, me: Verifier, g: World, i: nat, clock: int, commit: bool, deliver: bool)
    requires i < |g.inFlight|
    ensures var a, g' := g.inFlight[i], Step(h, me, g, Proceed(i, clock, commit, deliver));
            var (w, r) := W.Advance(h, me, g.w, a, clock, commit);
            var o := a.c.origin;
            && g'.w == w && g'.inFlight == g.inFlight[..i] + g.inFlight[i + 1..]
            && g'.handed == (if r.Cosigned? && deliver then g.handed + [r.note] else g.handed)
            && g'.history == if r.Cosigned?
                             then g.history[o := History(g, o) + [Entry(a.c, r.note, a.proof, At(clock))]]
                             else g.history
  {
    hide W.Advance;
  }

  lemma FlightRest(f: seq<W.Admitted>, i: nat)
    requires FlightOk(f) && i < |f|
    ensures FlightOk(f[..i] + f[i + 1..]) && CF.Parse(f[i].text) == CF.Ok(f[i].c)
  {
    hide CF.Parse;
  }

  lemma ProceedKeeps(h: HashFn, me: Verifier, g: World, i: nat, clock: int, commit: bool, deliver: bool)
    requires Invariant(h, g) && i < |g.inFlight|
    ensures Invariant(h, Step(h, me, g, Proceed(i, clock, commit, deliver)))
  {
    hide Step, W.Advance, CF.Parse, Extends, Sound, MemoryOk, HandedOk, FlightOk;
    var a := g.inFlight[i];
    var o := a.c.origin;
    LastIsSound(h, g, o);
    var last := if o in g.history then Some(Last(g.history[o])) else None;
    ProceedIs(h, me, g, i, clock, commit, deliver);
    FlightRest(g.inFlight, i);
    AdvanceExtends(h, me, g.w, a, clock, commit, last);
    var (w, r) := W.Advance(h, me, g.w, a, clock, commit);
    if r.Cosigned? {
      var e := Entry(a.c, r.note, a.proof, At(clock));
      MemoryAppend(h, g.w.notes, g.history, o, e);
      HandedAppend(g.handed, g.history, o, e);
    }
  }

  lemma LastIsSound(h: HashFn, g: World, o: Bytes)
    requires Invariant(h, g)
    ensures o in g.w.notes <==> o in g.history
    ensures o in g.history ==>
              g.history[o] != [] && Sound(h, Last(g.history[o]), o) && Last(g.history[o]).note == g.w.notes[o]
  {
    hide FlightOk, HandedOk, Sound;
  }

  lemma StepKeeps(h: HashFn, me: Verifier, g: World, e: Event)
    requires Invariant(h, g)
    ensures Invariant(h, Step(h, me, g, e))
  {
    hide W.Advance, W.AdmitRequest, MemoryOk, HandedOk, CF.Parse;
    match e {
      case AddLog(_, _) =>
      case RetireLog(_, _) =>
      case Receive(declaredOld, msg, proof) =>
        if W.AdmitRequest(g.w, declaredOld, msg, proof).Admit? {
          AdmittedIsParsed(g.w, declaredOld, msg, proof);
        }
      case Proceed(i, clock, commit, deliver) =>
        if i < |g.inFlight| { ProceedKeeps(h, me, g, i, clock, commit, deliver); }
      case Restart =>
    }
  }

  lemma {:induction false} RunKeeps(h: HashFn, me: Verifier, events: seq<Event>)
    ensures Invariant(h, Run(h, me, events))
  {
    hide Step;
    if events != [] {
      RunKeeps(h, me, Init(events));
      StepKeeps(h, me, Run(h, me, Init(events)), Last(events));
    }
  }

  // ---------------------------------------------------------------- theorems

  /** Everything hashed while walking back from entry `j` to entry `i` with the leaves of `j`:
      the prefix roots, and the proofs the witness checked. */
  function ChainInputs(h: HashFn, hist: seq<Entry>, i: nat, j: nat, d: seq<Bytes>): set<Bytes>
    requires i <= j < |hist|
    decreases j
  {
    if i == j then {}
    else
      var m := hist[j - 1].c.size;
      RootInputs(h, d) + ConsistencyInputs(h, m, |d|, hist[j - 1].c.root, hist[j].proof)
      + (if m <= |d| then ChainInputs(h, hist, i, j - 1, d[..m]) else {})
  }

  lemma StepBack(h: HashFn, a: Entry, b: Entry, origin: Bytes, d: seq<Bytes>)
    requires Sound(h, a, origin) && Sound(h, b, origin) && Extends(h, a, b)
    requires |d| == b.c.size && Root(h, d) == b.c.root
    ensures a.c.size <= |d|
    ensures Root(h, d[..a.c.size]) == a.c.root
         || CollisionIn(h, RootInputs(h, d) + ConsistencyInputs(h, a.c.size, |d|, a.c.root, b.proof))
  {
    hide ConsistencyVerdict, RootInputs, ConsistencyInputs, ConsistencyProof, CF.Parse;
    if a.c.size == |d| {
      assert d[..|d|] == d;
    } else if a.c.size == 0 {
      assert d[..0] == [];
    } else {
      hide Root;
      ConsistencyExact(h, d, a.c.size, a.c.root, b.proof);
    }
  }

  lemma {:induction false} SizesGrow(h: HashFn, hist: seq<Entry>, origin: Bytes, i: nat, j: nat)
    requires Chained(h, hist, origin) && i <= j < |hist|
    ensures hist[i].c.size <= hist[j].c.size
    ensures hist[i].c.size == hist[j].c.size ==> hist[i].c.root == hist[j].c.root
    decreases j
  {
    if i < j {
      SizesGrow(h, hist, origin, i, j - 1);
      assert Extends(h, hist[j - 1], hist[j]);
    }
  }

  lemma ChainInputsStep(h: HashFn, hist: seq<Entry>, i: nat, j: nat, d: seq<Bytes>)
    requires i < j < |hist| && hist[j - 1].c.size <= |d|
    ensures var m := hist[j - 1].c.size;
            && RootInputs(h, d) + ConsistencyInputs(h, m, |d|, hist[j - 1].c.root, hist[j].proof)
               <= ChainInputs(h, hist, i, j, d)
            && ChainInputs(h, hist, i, j - 1, d[..m]) <= ChainInputs(h, hist, i, j, d)
  {
    hide RootInputs, ConsistencyInputs;
  }

  /** Any list of leaves with a cosigned root has, as prefixes, lists of leaves with each root
      cosigned before it. */
  lemma {:induction false} PrefixOfLater(h: HashFn, hist: seq<Entry>, origin: Bytes, i: nat, j: nat, d: seq<Bytes>)
    requires Chained(h, hist, origin) && i <= j < |hist|
    requires |d| == hist[j].c.size && Root(h, d) == hist[j].c.root
    ensures hist[i].c.size <= |d|
    ensures Root(h, d[..hist[i].c.size]) == hist[i].c.root || CollisionIn(h, ChainInputs(h, hist, i, j, d))
    decreases j
  {
    hide Root, RootInputs, ConsistencyInputs, Extends, ChainInputs, Sound, CollisionIn;
    if i == j {
      assert d[..|d|] == d;
    } else {
      var m := hist[j - 1].c.size;
      StepBack(h, hist[j - 1], hist[j], origin, d);
      SizesGrow(h, hist, origin, i, j - 1);
      ChainInputsStep(h, hist, i, j, d);
      if Root(h, d[..m]) == hist[j - 1].c.root {
        PrefixOfLater(h, hist, origin, i, j - 1, d[..m]);
        assert d[..m][..hist[i].c.size] == d[..hist[i].c.size];
        if CollisionIn(h, ChainInputs(h, hist, i, j - 1, d[..m])) {
          CollisionMonotone(h, ChainInputs(h, hist, i, j - 1, d[..m]), ChainInputs(h, hist, i, j, d));
        }
      } else {
        CollisionMonotone(h, RootInputs(h, d) + ConsistencyInputs(h, m, |d|, hist[j - 1].c.root, hist[j].proof),
                          ChainInputs(h, hist, i, j, d));
      }
    }
  }

  /** Two lists of leaves with cosigned roots of one origin: the larger begins with the smaller. */
  lemma ListsAgree(h: HashFn, hist: seq<Entry>, origin: Bytes, i: nat, j: nat, d: seq<Bytes>, e: seq<Bytes>)
    requires Chained(h, hist, origin) && i <= j < |hist|
    requires |e| == hist[i].c.size && Root(h, e) == hist[i].c.root
    requires |d| == hist[j].c.size && Root(h, d) == hist[j].c.root
    ensures |e| <= |d|
    ensures e == d[..|e|]
         || CollisionIn(h, ChainInputs(h, hist, i, j, d) + RootInputs(h, e) + RootInputs(h, d[..|e|]))
  {
    hide Root, RootInputs, ChainInputs, Extends;
    PrefixOfLater(h, hist, origin, i, j, d);
    var all := ChainInputs(h, hist, i, j, d) + RootInputs(h, e) + RootInputs(h, d[..|e|]);
    if Root(h, d[..|e|]) == Root(h, e) {
      RootInjective(h, e, d[..|e|]);
      if e != d[..|e|] { CollisionMonotone(h, RootInputs(h, e) + RootInputs(h, d[..|e|]), all); }
    } else {
      CollisionMonotone(h, ChainInputs(h, hist, i, j, d), all);
    }
  }

  /** In any run, two notes cosigned for one origin never contradict each other: the leaves of
      the larger begin with the leaves of the smaller, or a collision is at hand. */
  lemma CosignedNotesAgree(h: HashFn, me: Verifier, events: seq<Event>, origin: Bytes, i: nat, j: nat, d: seq<Bytes>,
                           e: seq<Bytes>)
    requires var hist := History(Run(h, me, events), origin);
             && i <= j < |hist|
             && |e| == hist[i].c.size && Root(h, e) == hist[i].c.root
             && |d| == hist[j].c.size && Root(h, d) == hist[j].c.root
    ensures var hist := History(Run(h, me, events), origin);
            |e| <= |d|
            && (|| e == d[..|e|]
                || CollisionIn(h, ChainInputs(h, hist, i, j, d) + RootInputs(h, e) + RootInputs(h, d[..|e|])))
  {
    hide Run, Root, RootInputs, ChainInputs, Extends;
    RunKeeps(h, me, events);
    ListsAgree(h, History(Run(h, me, events), origin), origin, i, j, d, e);
  }

  /** The size remembered for an origin, which starts at zero. */
  function Remembered(g: World, origin: Bytes): nat {
    if origin !in g.w.notes then 0
    else match CF.Parse(g.w.notes[origin].text)
      case Ok(c) => c.size
      case Err(_) => 0
  }

  lemma StepNeverForgets(h: HashFn, me: Verifier, g: World, e: Event, origin: Bytes)
    requires Invariant(h, g)
    ensures var g' := Step(h, me, g, e);
            && (origin in g.w.notes ==> origin in g'.w.notes)
            && Remembered(g, origin) <= Remembered(g', origin)
            && History(g, origin) <= History(g', origin)
  {
    hide CF.Parse, W.AdmitRequest, W.Advance, MemoryOk, HandedOk;
    if e.Proceed? {
      ProceedNeverForgets(h, me, g, e, origin);
    }
  }

  lemma ProceedNeverForgets(h: HashFn, me: Verifier, g: World, e: Event, origin: Bytes)
    requires Invariant(h, g) && e.Proceed?
    ensures var g' := Step(h, me, g, e);
            && (origin in g.w.notes ==> origin in g'.w.notes)
            && Remembered(g, origin) <= Remembered(g', origin)
            && History(g, origin) <= History(g', origin)
  {
    hide Step, CF.Parse, W.Advance, MemoryOk, HandedOk, FlightOk;
    if e.i < |g.inFlight| {
      var a := g.inFlight[e.i];
      var o := a.c.origin;
      LastIsSound(h, g, o);
      ProceedIs(h, me, g, e.i, e.clock, e.commit, e.deliver);
      FlightRest(g.inFlight, e.i);
      AdvanceExtends(h, me, g.w, a, e.clock, e.commit, if o in g.history then Some(Last(g.history[o])) else None);
      assert e == Proceed(e.i, e.clock, e.commit, e.deliver);
      var (w, r) := W.Advance(h, me, g.w, a, e.clock, e.commit);
      assert r.Cosigned? || w.notes == g.w.notes;
    } else {
      NothingProceeds(h, me, g, e);
    }
  }

  lemma NothingProceeds(h: HashFn, me: Verifier, g: World, e: Event)
    requires e.Proceed? && e.i >= |g.inFlight|
    ensures Step(h, me, g, e) == g
  {
  }

  /** Whatever happens next, what is remembered of an origin never shrinks and what was
      persisted stays in its history. */
  lemma {:induction false} NeverForgets(h: HashFn, me: Verifier, events: seq<Event>, more: seq<Event>, origin: Bytes)
    ensures var g, g' := Run(h, me, events), Run(h, me, events + more);
            && Remembered(g, origin) <= Remembered(g', origin)
            && History(g, origin) <= History(g', origin)
  {
    hide Step, Remembered, History, Invariant;
    if more == [] {
      assert events + more == events;
    } else {
      NeverForgets(h, me, events, Init(more), origin);
      RunKeeps(h, me, events + Init(more));
      assert Init(events + more) == events + Init(more) && Last(events + more) == Last(more);
      StepNeverForgets(h, me, Run(h, me, events + Init(more)), Last(more), origin);
    }
  }

  /** A note is handed out only by a step that leaves it in the memory. */
  lemma HandedIsPersisted(h: HashFn, me: Verifier, events: seq<Event>, e: Event)
    ensures var g := Run(h, me, events);
            var g' := Step(h, me, g, e);
            g'.handed != g.handed ==>
              |g'.handed| == |g.handed| + 1 && exists o :: o in g'.w.notes && g'.w.notes[o] == Last(g'.handed)
  {
    hide CF.Parse, W.AdmitRequest, W.Advance, MemoryOk, HandedOk, Run;
    RunKeeps(h, me, events);
    var g := Run(h, me, events);
    if e.Proceed? && e.i < |g.inFlight| {
      var a := g.inFlight[e.i];
      var o := a.c.origin;
      LastIsSound(h, g, o);
      AdvanceExtends(h, me, g.w, a, e.clock, e.commit, if o in g.history then Some(Last(g.history[o])) else None);
      var g' := Step(h, me, g, e);
      assert g'.handed != g.handed ==> g'.w.notes[o] == Last(g'.handed);
    }
  }
}
