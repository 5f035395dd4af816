/** The log, the witness and the network together: what a synchronisation that succeeded says
    about the local ledger, over every run. */
module SystemRun {
  import opened Bytes
  import opened Hashing
  import opened Merkle
  import opened Notes
  import CF = CheckpointFormat
  import LL = LogLock
  import LS = LogSync
  import WR = WitnessRun

  // ---------------------------------------------------------------- the world

  /** What one successful synchronisation covered. */
  datatype Attestation = Attestation(leaves: seq<Bytes>, note: Note, at: nat)

  /** `wit` is the witness and its history; `attested` what synchronisations have obtained. */
  datatype World = World(wit: WR.World, local: LS.Local, attested: seq<Attestation>)

  /** `EditLocal` is anything at all happening to the log's machine: appends, truncation,
      another fork, a crash that forgets the lock, a restored backup. */
  datatype Event =
    | AtWitness(e: WR.Event)
    | EditLocal(local: LS.Local)
    | Sync(put: LL.Put, net: LS.Network)

  datatype Setup = Setup(h: HashFn, origin: Bytes, me: Verifier, wv: Verifier)

  function Start(): World {
    World(WR.Start(), LS.Local([], map[], None, None), [])
  }

  function SyncOutcome(u: Setup, g: World, put: LL.Put, net: LS.Network): LS.SyncOutcome
    requires |g.local.leaves| < 0x1_0000_0000_0000_0000
  {
    LS.SyncSpec(u.h, u.origin, u.me, u.wv, g.local, put, net)
  }

  function Step(u: Setup, g: World, e: Event): World {
    match e
    case AtWitness(w) => g.(wit := WR.Step(u.h, u.wv, g.wit, w))
    case EditLocal(l) => g.(local := l)
    case Sync(put, net) =>
      if |g.local.leaves| >= 0x1_0000_0000_0000_0000 then g
      else
        var r := SyncOutcome(u, g, put, net);
        if r.result.Attested?
        then World(g.wit, r.local, g.attested + [Attestation(g.local.leaves, r.result.cosigned, r.result.at)])
        else g.(local := r.local)
  }

  function Run(u: Setup, events: seq<Event>): World {
    if events == [] then Start() else Step(u, Run(u, Init(events)), Last(events))
  }

  // ---------------------------------------------------- what a network can do

  /** The witness's key signed this when it persisted entry `k` of origin `o`. */
  ghost predicate SignedAt(g: WR.World, ed: Ed, o: Bytes, k: nat) {
    && o in g.history && k < |g.history[o]|
    && ed.message == CosignedMessage(g.history[o][k].time, g.history[o][k].note.text)
  }

  /** A key verifies only what its owner signed: the cosignatures of the witness found in a
      note that anyone delivers are ones it handed out. They may be old, moved to another
      note, or mixed with any other lines. */
  ghost predicate Ideal(key: Key, g: WR.World, n: Note) {
    forall i :: 0 <= i < |n.lines| && n.lines[i].blob.CosignatureBlob? && n.lines[i].blob.ed.key == key
      ==> exists o, k :: SignedAt(g, n.lines[i].blob.ed, o, k)
  }

  /** To the request that is sent, if one is, a network answers with ideal signatures. */
  ghost predicate Possible(u: Setup, g: World, e: Event) {
    e.Sync? && |g.local.leaves| < 0x1_0000_0000_0000_0000 ==>
      var sent := SyncOutcome(u, g, e.put, e.net).sent;
      sent.Some? ==>
        var r := e.net.reply(sent.value);
        r.ReplyOk? ==> Ideal(u.wv.key, g.wit, r.whole)
  }

  ghost predicate Legal(u: Setup, events: seq<Event>) {
    forall i :: 0 <= i < |events| ==> Possible(u, Run(u, events[..i]), events[i])
  }

  // ------------------------------------------------------------- the witness

  /** A verified cosignature is one the witness made on exactly this text. */
  lemma {:induction false} FirstTimeVerified(wv: Verifier, text: Bytes, sigs: seq<SigLine>)
    requires AllVerify([wv], text, sigs) && LS.FirstTime(wv, sigs).Some?
    ensures exists i :: 0 <= i < |sigs| && sigs[i].blob.CosignatureBlob? && Verifies(wv, text, sigs[i].blob)
                     && sigs[i].blob.time == LS.FirstTime(wv, sigs).value
  {
    LookupOne(wv, sigs[0].name, sigs[0].hash);
    assert Verifies(wv, text, sigs[0].blob);
  }

  lemma CosignatureIsOnText(wv: Verifier, n: Note) returns (i: nat)
    requires wv.WitnessVerifier? && LS.CosignatureTime(wv, n).Some?
    ensures i < |n.lines| && n.lines[i].blob.CosignatureBlob?
    ensures n.lines[i].blob.ed == Ed(wv.key, CosignedMessage(LS.CosignatureTime(wv, n).value, n.text))
  {
    hide CosignedMessage, Open;
    OpenSound([wv], n);
    var sigs := Open([wv], n).sigs;
    FirstTimeVerified(wv, n.text, sigs);
    var k :| 0 <= k < |sigs| && sigs[k].blob.CosignatureBlob? && Verifies(wv, n.text, sigs[k].blob)
          && sigs[k].blob.time == LS.FirstTime(wv, sigs).value;
    assert sigs[k] in n.lines;
    i :| 0 <= i < |n.lines| && n.lines[i] == sigs[k];
  }

  /** The entry of the witness's history that an attestation rests on. */
  ghost predicate RestsOn(h: HashFn, origin: Bytes, x: Attestation, e: WR.Entry) {
    && e.note.text == x.note.text && e.time == x.at
    && e.c.origin == origin && e.c.size == |x.leaves| && e.c.root == Root(h, x.leaves)
  }

  /** A synchronisation that succeeds holds a cosignature the witness made for this origin, this
      size and this root, and had persisted before handing it out. */
  lemma AttestedWasCosigned(u: Setup, g: World, put: LL.Put, net: LS.Network) returns (k: nat)
    requires u.wv.WitnessVerifier? && WR.Invariant(u.h, g.wit)
    requires |g.local.leaves| < 0x1_0000_0000_0000_0000
    requires Possible(u, g, Sync(put, net))
    requires SyncOutcome(u, g, put, net).result.Attested?
    ensures k < |WR.History(g.wit, u.origin)|
    ensures var r := SyncOutcome(u, g, put, net).result;
            RestsOn(u.h, u.origin, Attestation(g.local.leaves, r.cosigned, r.at), WR.History(g.wit, u.origin)[k])
  {
    hide Root, CosignedMessage, LS.CosignatureTime, LL.SignSpec, CF.Parse, LS.BuildRequest, WR.Extends;
    var out := SyncOutcome(u, g, put, net);
    var r := out.result;
    var n := r.cosigned;
    assert net.reply(out.sent.value) == LS.ReplyOk(n);
    var i := CosignatureIsOnText(u.wv, n);
    assert Ideal(u.wv.key, g.wit, n);
    var o, j: nat :| SignedAt(g.wit, n.lines[i].blob.ed, o, j);
    var e := g.wit.history[o][j];
    CosignedMessageInjective(r.at, n.text, e.time, e.note.text);
    assert WR.Sound(u.h, e, o) by { HistorySound(u.h, g.wit, o, j); }
    k := j;
  }

  lemma HistorySound(h: HashFn, g: WR.World, o: Bytes, k: nat)
    requires WR.Invariant(h, g) && o in g.history && k < |g.history[o]|
    ensures WR.Sound(h, g.history[o][k], o) && WR.Chained(h, g.history[o], o)
  {
  }

  // --------------------------------------------------------------- whole runs

  /** Each attestation obtained so far rests on some entry of the witness's history. */
  ghost predicate Invariant(u: Setup, g: World) {
    && WR.Invariant(u.h, g.wit)
    && forall i :: 0 <= i < |g.attested| ==> Rests(u, g, g.attested[i])
  }

  ghost predicate Rests(u: Setup, g: World, x: Attestation) {
    exists k :: 0 <= k < |WR.History(g.wit, u.origin)| && RestsOn(u.h, u.origin, x, WR.History(g.wit, u.origin)[k])
  }

  lemma StepKeeps(u: Setup, g: World, e: Event)
    requires u.wv.WitnessVerifier? && Invariant(u, g) && Possible(u, g, e)
    ensures Invariant(u, Step(u, g, e))
  {
    hide WR.Invariant, WR.Step, RestsOn, LS.SyncSpec, Possible;
    var g' := Step(u, g, e);
    match e {
      case AtWitness(w) =>
        WR.StepKeeps(u.h, u.wv, g.wit, w);
        WR.StepNeverForgets(u.h, u.wv, g.wit, w, u.origin);
        forall i | 0 <= i < |g.attested| ensures Rests(u, g', g.attested[i]) {
          var k :| 0 <= k < |WR.History(g.wit, u.origin)|
            && RestsOn(u.h, u.origin, g.attested[i], WR.History(g.wit, u.origin)[k]);
          assert WR.History(g'.wit, u.origin)[k] == WR.History(g.wit, u.origin)[k];
        }
      case EditLocal(_) =>
      case Sync(put, net) =>
        if |g.local.leaves| < 0x1_0000_0000_0000_0000 && SyncOutcome(u, g, put, net).result.Attested? {
          var k := AttestedWasCosigned(u, g, put, net);
          assert Rests(u, g', Last(g'.attested));
        }
        forall i | 0 <= i < |g'.attested| ensures Rests(u, g', g'.attested[i]) {
          assert i < |g.attested| ==> Rests(u, g, g.attested[i]) && g'.attested[i] == g.attested[i];
        }
    }
  }

  lemma {:induction false} RunKeeps(u: Setup, events: seq<Event>)
    requires u.wv.WitnessVerifier? && Legal(u, events)
    ensures Invariant(u, Run(u, events))
  {
    hide Step, Possible;
    if events != [] {
      var before := Init(events);
      forall i | 0 <= i < |before| ensures Possible(u, Run(u, before[..i]), before[i]) {
        assert before[..i] == events[..i];
      }
      assert events[..|events| - 1] == before;
      RunKeeps(u, before);
      StepKeeps(u, Run(u, before), Last(events));
    }
  }

  /** In every run, whatever the network answered and whatever was done to the local files, a
      ledger that was attested is one the witness cosigned: each root cosigned before is the
      root of a prefix of it, and the leaves of each root cosigned after begin with it, unless
      a collision is at hand. */
  lemma AttestedLedgerIsOnTheChain(u: Setup, events: seq<Event>, i: nat) returns (j: nat)
    requires u.wv.WitnessVerifier? && Legal(u, events)
    requires i < |Run(u, events).attested|
    ensures var g := Run(u, events);
            var x, hist := g.attested[i], WR.History(g.wit, u.origin);
            && j < |hist| && RestsOn(u.h, u.origin, x, hist[j])
            && (forall k :: 0 <= k <= j ==>
                  && hist[k].c.size <= |x.leaves|
                  && (|| Root(u.h, x.leaves[..hist[k].c.size]) == hist[k].c.root
                      || CollisionIn(u.h, WR.ChainInputs(u.h, hist, k, j, x.leaves))))
            && (forall k, d: seq<Bytes> ::
                  j <= k < |hist| && |d| == hist[k].c.size && Root(u.h, d) == hist[k].c.root ==>
                  && |x.leaves| <= |d|
                  && (|| x.leaves == d[..|x.leaves|]
                      || CollisionIn(u.h, WR.ChainInputs(u.h, hist, j, k, d) + RootInputs(u.h, x.leaves)
                                          + RootInputs(u.h, d[..|x.leaves|]))))
  {
    hide *;
    RunKeeps(u, events);
    var g := Run(u, events);
    var x, hist := g.attested[i], WR.History(g.wit, u.origin);
    j := RestingEntry(u, g, i);
    ChainBefore(u.h, hist, u.origin, j, x.leaves);
    ChainAfter(u.h, hist, u.origin, j, x.leaves);
  }

  /** The entry of the witness's history that an attestation of a run rests on. */
  lemma RestingEntry(u: Setup, g: World, i: nat) returns (j: nat)
    requires Invariant(u, g) && i < |g.attested|
    ensures var x, hist := g.attested[i], WR.History(g.wit, u.origin);
            && j < |hist| && RestsOn(u.h, u.origin, x, hist[j]) && WR.Chained(u.h, hist, u.origin)
            && |x.leaves| == hist[j].c.size && Root(u.h, x.leaves) == hist[j].c.root
  {
    hide Root, CF.Parse, WR.Chained, WR.Invariant;
    assert Rests(u, g, g.attested[i]);
    var hist := WR.History(g.wit, u.origin);
    j :| 0 <= j < |hist| && RestsOn(u.h, u.origin, g.attested[i], hist[j]);
    HistorySound(u.h, g.wit, u.origin, j);
  }

  lemma ChainBefore(h: HashFn, hist: seq<WR.Entry>, origin: Bytes, j: nat, leaves: seq<Bytes>)
    requires WR.Chained(h, hist, origin) && j < |hist|
    requires |leaves| == hist[j].c.size && Root(h, leaves) == hist[j].c.root
    ensures forall k :: 0 <= k <= j ==>
              && hist[k].c.size <= |leaves|
              && (|| Root(h, leaves[..hist[k].c.size]) == hist[k].c.root
                  || CollisionIn(h, WR.ChainInputs(h, hist, k, j, leaves)))
  {
    hide *;
    forall k | 0 <= k <= j
      ensures hist[k].c.size <= |leaves|
      ensures || Root(h, leaves[..hist[k].c.size]) == hist[k].c.root
              || CollisionIn(h, WR.ChainInputs(h, hist, k, j, leaves))
    {
      WR.PrefixOfLater(h, hist, origin, k, j, leaves);
    }
  }

  lemma ChainAfter(h: HashFn, hist: seq<WR.Entry>, origin: Bytes, j: nat, leaves: seq<Bytes>)
    requires WR.Chained(h, hist, origin) && j < |hist|
    requires |leaves| == hist[j].c.size && Root(h, leaves) == hist[j].c.root
    ensures forall k, d: seq<Bytes> ::
              j <= k < |hist| && |d| == hist[k].c.size && Root(h, d) == hist[k].c.root ==>
                && |leaves| <= |d|
                && (|| leaves == d[..|leaves|]
                    || CollisionIn(h, WR.ChainInputs(h, hist, j, k, d) + RootInputs(h, leaves)
                                      + RootInputs(h, d[..|leaves|])))
  {
    hide *;
    forall k, d: seq<Bytes> | j <= k < |hist| && |d| == hist[k].c.size && Root(h, d) == hist[k].c.root
      ensures |leaves| <= |d|
      ensures || leaves == d[..|leaves|]
              || CollisionIn(h, WR.ChainInputs(h, hist, j, k, d) + RootInputs(h, leaves) + RootInputs(h, d[..|leaves|]))
    {
      WR.ListsAgree(h, hist, origin, j, k, d, leaves);
    }
  }
}
