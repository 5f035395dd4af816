/** Whole runs of one log at a time over its durable state: signatures, failed writes, crashes
    (also between persisting a note and returning it), restarts, and edits of the ledger. */
module LogLockRun {
  import opened Bytes
  import opened Hashing
  import opened Merkle
  import opened Notes
  import opened LogLock
  import CF = CheckpointFormat

  /** One log object at most is alive. `returned` is what Sign gave back, in order. */
  datatype World = World(leaves: seq<Bytes>, durable: Option<Note>, live: Option<Option<CF.Checkpoint>>,
                         returned: seq<CF.Checkpoint>)

  datatype Event =
    | Append(leaf: Bytes)
    | Edit(leaves: seq<Bytes>)
    | Open
    | Rebind
    | Crash
    | SignAny(c: CF.Checkpoint, put: Put, deliver: bool)
    | SignCheckpoint(size: uint64, put: Put, deliver: bool)

  function AfterSign(origin: Bytes, me: Verifier, g: World, c: CF.Checkpoint, put: Put, deliver: bool): World {
    if g.live.None? then g
    else
      var s := SignSpec(origin, me, g.live.value, true, g.durable, c, put);
      if s.result.Done? && !deliver then g.(durable := s.durable, live := None)
      else if s.result.Done? then g.(durable := s.durable, live := Some(s.last), returned := g.returned + [c])
      else g.(durable := s.durable, live := Some(s.last))
  }

  /** `deliver` false is a crash between persisting the note and returning it. */
  function Step(h: HashFn, origin: Bytes, me: Verifier, g: World, e: Event): World {
    match e
    case Append(leaf) => g.(leaves := g.leaves + [leaf])
    case Edit(leaves) => g.(leaves := leaves)
    case Open =>
      var r := BindSpec(origin, None, g.durable);
      g.(live := if r.Done? then Some(r.value) else None)
    case Rebind =>
      if g.live.None? then g
      else
        var r := BindSpec(origin, g.live.value, g.durable);
        if r.Done? then g.(live := Some(r.value)) else g
    case Crash => g.(live := None)
    case SignAny(c, put, deliver) => AfterSign(origin, me, g, c, put, deliver)
    case SignCheckpoint(size, put, deliver) =>
      var c := StoreCheckpoint(h, origin, g.leaves, size);
      if c.Failed? then g else AfterSign(origin, me, g, c.value, put, deliver)
  }

  function Run(h: HashFn, origin: Bytes, me: Verifier, events: seq<Event>): World {
    if events == [] then World([], None, None, [])
    else Step(h, origin, me, Run(h, origin, me, Init(events)), Last(events))
  }

  /** `b` does not contradict `a`, signed before it. */
  predicate Follows(a: CF.Checkpoint, b: CF.Checkpoint) {
    a.size < b.size || (a.size == b.size && a.root == b.root)
  }

  ghost predicate AllBefore(returned: seq<CF.Checkpoint>, c: Option<CF.Checkpoint>) {
    && (c.None? ==> returned == [])
    && (c.Some? ==> forall i :: 0 <= i < |returned| ==> Follows(returned[i], c.value))
  }

  /** The durable note, as a checkpoint of this log. */
  ghost predicate DurableIs(origin: Bytes, durable: Option<Note>, c: Option<CF.Checkpoint>) {
    && (durable.None? <==> c.None?)
    && (durable.Some? ==> CF.Parse(durable.value.text) == CF.Ok(c.value) && c.value.origin == origin)
  }

  ghost predicate Invariant(origin: Bytes, g: World) {
    && (exists d :: DurableIs(origin, g.durable, d) && AllBefore(g.returned, d))
    && (g.live.Some? ==> AllBefore(g.returned, g.live.value))
    && (forall i, j :: 0 <= i < j < |g.returned| ==> Follows(g.returned[i], g.returned[j]))
  }

  lemma SignedIsParsed(me: Verifier, c: CF.Checkpoint)
    requires SignedNote(me, c).Done?
    ensures CF.Parse(SignedNote(me, c).value.text) == CF.Ok(c)
  {
    CF.FormatExact(SignedNote(me, c).value.text, c);
  }

  lemma AfterSignKeeps(origin: Bytes, me: Verifier, g: World, c: CF.Checkpoint, put: Put, deliver: bool)
    requires Invariant(origin, g)
    ensures Invariant(origin, AfterSign(origin, me, g, c, put, deliver))
  {
    hide CF.Parse, SignedNote;
    if g.live.Some? && c.origin == origin && Monotonic(g.live.value, c) && SignedNote(me, c).Done? {
      SignedIsParsed(me, c);
      assert DurableIs(origin, Some(SignedNote(me, c).value), Some(c));
      assert AllBefore(g.returned, Some(c));
      assert AllBefore(g.returned + [c], Some(c));
    }
  }

  lemma StepKeeps(h: HashFn, origin: Bytes, me: Verifier, g: World, e: Event)
    requires Invariant(origin, g)
    ensures Invariant(origin, Step(h, origin, me, g, e))
  {
    hide CF.Parse, AfterSign;
    match e {
      case SignAny(c, put, deliver) => AfterSignKeeps(origin, me, g, c, put, deliver);
      case SignCheckpoint(size, put, deliver) =>
        if size <= |g.leaves| {
          AfterSignKeeps(origin, me, g, StoreCheckpoint(h, origin, g.leaves, size).value, put, deliver);
        }
      case _ =>
    }
  }

  lemma {:induction false} RunKeeps(h: HashFn, origin: Bytes, me: Verifier, events: seq<Event>)
    ensures Invariant(origin, Run(h, origin, me, events))
  {
    hide Step;
    if events == [] {
      assert DurableIs(origin, None, None);
    } else {
      RunKeeps(h, origin, me, Init(events));
      StepKeeps(h, origin, me, Run(h, origin, me, Init(events)), Last(events));
    }
  }

  /** Over any run, crashes and edits of the ledger included, the notes returned never go back
      in size, and never give one size two roots. */
  lemma NeverContradictsItself(h: HashFn, origin: Bytes, me: Verifier, events: seq<Event>, i: nat, j: nat)
    requires i < j < |Run(h, origin, me, events).returned|
    ensures var r := Run(h, origin, me, events).returned;
            r[i].size <= r[j].size && (r[i].size == r[j].size ==> r[i].root == r[j].root)
  {
    hide Run;
    RunKeeps(h, origin, me, events);
    var r := Run(h, origin, me, events).returned;
    assert Follows(r[i], r[j]);
  }

  /** The ledger only grew, and every checkpoint was taken from it. */
  predicate FromTheLedger(e: Event) {
    !e.Edit? && !e.SignAny?
  }

  /** Over an append-only ledger, every root ever returned is the root of a prefix of what the
      ledger holds in the end. */
  lemma {:induction false} SignedRootsArePrefixes(h: HashFn, origin: Bytes, me: Verifier, events: seq<Event>, i: nat)
    requires forall k :: 0 <= k < |events| ==> FromTheLedger(events[k])
    requires i < |Run(h, origin, me, events).returned|
    ensures var g := Run(h, origin, me, events);
            && g.returned[i].size <= |g.leaves|
            && g.returned[i].root == Root(h, g.leaves[..g.returned[i].size])
  {
    hide Root, BindSpec, SignSpec;
    if events != [] {
      var g, e := Run(h, origin, me, Init(events)), Last(events);
      if i < |g.returned| {
        SignedRootsArePrefixes(h, origin, me, Init(events), i);
        if e.Append? {
          assert (g.leaves + [e.leaf])[..g.returned[i].size] == g.leaves[..g.returned[i].size];
        }
      }
    }
  }
}
