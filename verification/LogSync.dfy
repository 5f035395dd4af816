/** Synchronising a local ledger with a witness: internal/logsync/logsync.go and adapter.go,
    over a network that may answer anything. */
module LogSync {
  import opened Bytes
  import opened Hashing
  import opened Merkle
  import opened Notes
  import opened LogLock
  import CF = CheckpointFormat
  import WP = WitnessProtocol

  // ------------------------------------------------------------- the network

  datatype Request = Request(oldSize: uint64, proof: seq<Digest>, note: Note)

  /** What comes back from the monitoring endpoint. */
  datatype Fetch = FetchFailed | NotFound | Fetched(note: Note)

  /** What comes back from add-checkpoint: for a 200, the note that the checkpoint followed by
      the response body amounts to. */
  datatype Reply = ReplyFailed | ReplyConflict(size: uint64) | ReplyOk(whole: Note)

  datatype Network = Network(fetch: Fetch, reply: Request -> Reply)

  // -------------------------------------------------------------- the client

  /** Client.CosignatureTime: the instant of a cosignature of this witness, once verified. */
  function CosignatureTime(wv: Verifier, n: Note): Option<nat> {
    var r := Open([wv], n);
    if r.NotOpened? then None else FirstTime(wv, r.sigs)
  }

  function FirstTime(wv: Verifier, sigs: seq<SigLine>): Option<nat> {
    if sigs == [] then None
    else if sigs[0].name == wv.name && sigs[0].hash == wv.hash then
      (if sigs[0].blob.CosignatureBlob? then Some(sigs[0].blob.time) else None)
    else FirstTime(wv, sigs[1..])
  }

  datatype SyncError =
    | RolledBack(localSize: nat, witnessSize: nat)
    | FetchError | NotVerified | Unreadable | OtherOrigin | LockRefused(e: LogError)
    | SizeOutOfRange | RequestTooLong | ReplyError | NotAttested

  datatype SyncResult = Attested(witnessSize: nat, first: bool, cosigned: Note, at: nat) | NoSync(error: SyncError)

  datatype Remote = KnownSize(size: nat, first: bool) | NoSize(error: SyncError)

  /** remoteSize: what the witness is known to remember, from a note of its own. */
  function RemoteSize(wv: Verifier, origin: Bytes, fetch: Fetch): Remote {
    match fetch
    case NotFound => KnownSize(0, true)
    case FetchFailed => NoSize(FetchError)
    case Fetched(n) =>
      if CosignatureTime(wv, n).None? then NoSize(NotVerified)
      else match CF.Parse(n.text)
        case Err(_) => NoSize(SyncError.Unreadable)
        case Ok(c) => if c.origin != origin then NoSize(OtherOrigin) else KnownSize(c.size, false)
  }

  /** coversLocalState. */
  predicate CoversLocalState(n: Note, origin: Bytes, size: nat, root: Digest) {
    var c := CF.Parse(n.text);
    c.Ok? && c.value.origin == origin && c.value.size == size && c.value.root == root
  }

  // --------------------------------------------------------------- the local log

  /** The ledger's leaves, its table of cosigned notes (append-only, one per size), and the
      lock of the log that signs for it. */
  datatype Local = Local(leaves: seq<Bytes>, checkpoints: map<nat, Note>, last: Option<CF.Checkpoint>,
                         durable: Option<Note>)

  /** RecordCosigned: the first note for a size stays. */
  function Record(table: map<nat, Note>, size: nat, n: Note): map<nat, Note> {
    if size in table then table else table[size := n]
  }

  /** The request sent for the state the witness is believed to remember. */
  function BuildRequest(h: HashFn, leaves: seq<Bytes>, witnessSize: nat, msg: Note): Outcome<Request>
    requires witnessSize <= |leaves| < 0x1_0000_0000_0000_0000
  {
    var proof := if 0 < witnessSize < |leaves| then ConsistencyProof(h, leaves, witnessSize) else Some([]);
    if proof.None? then Failed(OutOfRange) else Done(Request(witnessSize, proof.value, msg))
  }

  datatype SyncOutcome = SyncOutcome(local: Local, sent: Option<Request>, result: SyncResult)

  /** SyncWithWitness: success is a verified cosignature of the current size and root. */
  function SyncSpec(h: HashFn, origin: Bytes, me: Verifier, wv: Verifier, s: Local, put: Put, net: Network): SyncOutcome
    requires |s.leaves| < 0x1_0000_0000_0000_0000
  {
    var n, root := |s.leaves|, Root(h, s.leaves);
    var remote := RemoteSize(wv, origin, net.fetch);
    if remote.NoSize? then SyncOutcome(s, None, NoSync(remote.error))
    else
      var witnessSize, first := remote.size, remote.first;
      if witnessSize > n then SyncOutcome(s, None, NoSync(RolledBack(n, witnessSize)))
      else
        var signed := SignSpec(origin, me, s.last, true, s.durable,
                               CF.Checkpoint(origin, n, Root(h, s.leaves[..n])), put);
        var s1 := s.(last := signed.last, durable := signed.durable);
        if signed.result.Failed? then SyncOutcome(s1, None, NoSync(LockRefused(signed.result.error)))
        else match BuildRequest(h, s.leaves, witnessSize, signed.result.value)
          case Failed(_) => SyncOutcome(s1, None, NoSync(SizeOutOfRange))
          case Done(request) =>
            if |request.proof| > WP.MAX_PROOF_LINES then SyncOutcome(s1, None, NoSync(RequestTooLong))
            else match net.reply(request)
              case ReplyFailed => SyncOutcome(s1, Some(request), NoSync(ReplyError))
              case ReplyConflict(size) =>
                SyncOutcome(s1, Some(request), NoSync(if size > n then RolledBack(n, size) else ReplyError))
              case ReplyOk(whole) =>
                var at := CosignatureTime(wv, whole);
                if at.None? then SyncOutcome(s1, Some(request), NoSync(NotVerified))
                else if !CoversLocalState(whole, origin, n, root) then
                  SyncOutcome(s1, Some(request), NoSync(NotAttested))
                else
                  SyncOutcome(s1.(checkpoints := Record(s.checkpoints, n, whole)), Some(request),
                              Attested(witnessSize, first, whole, at.value))
  }

  // ------------------------------------------------------------------ classes

  /** Client: the network behind the identity of one witness. */
  class Client {
    const wv: Verifier
    const net: Network

    constructor (wv: Verifier, net: Network)
      ensures this.wv == wv && this.net == net
    {
      this.wv, this.net := wv, net;
    }

    /** AddCheckpoint: only a verified note comes out. */
    method AddCheckpoint(request: Request) returns (r: Reply, e: SyncError)
      ensures |request.proof| > WP.MAX_PROOF_LINES ==> r == ReplyFailed && e == RequestTooLong
      ensures |request.proof| <= WP.MAX_PROOF_LINES ==>
                var got := net.reply(request);
                if got.ReplyOk? && CosignatureTime(wv, got.whole).None? then r == ReplyFailed && e == NotVerified
                else r == got && e == ReplyError
    {
      if |request.proof| > WP.MAX_PROOF_LINES { return ReplyFailed, RequestTooLong; }
      r := net.reply(request);
      if r.ReplyOk? {
        var at := CosignatureTime(wv, r.whole);
        if at.None? { return ReplyFailed, NotVerified; }
      }
      e := ReplyError;
    }
  }

  /** StoreLog: the ledger and the log that signs for it. */
  class StoreLog {
    var leaves: seq<Bytes>
    var checkpoints: map<nat, Note>
    const log: Log

    ghost predicate Valid()
      reads this, log, log.state
    {
      log.state != null && |leaves| < 0x1_0000_0000_0000_0000
    }

    ghost function Snapshot(): Local
      reads this, log, log.state
      requires Valid()
    {
      Local(leaves, checkpoints, log.last, log.state.note)
    }

    /** NewStoreLog: the log is bound to its durable state first. */
    constructor (log: Log, leaves: seq<Bytes>, checkpoints: map<nat, Note>)
      requires log.state != null && |leaves| < 0x1_0000_0000_0000_0000
      ensures Valid() && this.log == log
      ensures Snapshot() == Local(leaves, checkpoints, log.last, log.state.note)
    {
      this.log, this.leaves, this.checkpoints := log, leaves, checkpoints;
    }

    method SignCheckpoint(h: HashFn, size: uint64, put: Put) returns (r: Outcome<Note>)
      requires Valid()
      modifies log`last, log.state
      ensures log.state == old(log.state)
      ensures var c := StoreCheckpoint(h, log.origin, leaves, size);
              Signed(log.last, log.state.note, r)
              == if c.Failed? then Signed(old(log.last), old(log.state.note), Failed(c.error))
                 else SignSpec(log.origin, log.me, old(log.last), true, old(log.state.note), c.value, put)
    {
      if size > |leaves| { return Failed(OutOfRange); }
      r := log.Sign(CF.Checkpoint(log.origin, size, Root(h, leaves[..size])), put);
    }

    method RecordCosigned(n: Note) returns (ok: bool)
      modifies this`checkpoints
      ensures var c := CF.Parse(n.text);
              && ok == c.Ok?
              && checkpoints == if ok then Record(old(checkpoints), c.value.size, n) else old(checkpoints)
    {
      var c := CF.Parse(n.text);
      if c.Err? { return false; }
      if c.value.size !in checkpoints {
        checkpoints := checkpoints[c.value.size := n];
      }
      return true;
    }
  }

  method SyncWithWitness(h: HashFn, a: StoreLog, c: Client, put: Put)
    returns (r: SyncResult, ghost sent: Option<Request>)
    requires a.Valid()
    modifies a`checkpoints, a.log`last, a.log.state
    ensures a.Valid()
    ensures SyncOutcome(a.Snapshot(), sent, r)
            == SyncSpec(h, a.log.origin, a.log.me, c.wv, old(a.Snapshot()), put, c.net)
  {
    hide Root, CF.Parse, CosignatureTime, SignSpec, ConsistencyProof;
    sent := None;
    var localSize, localRoot := |a.leaves|, Root(h, a.leaves);
    var remote := RemoteSize(c.wv, a.log.origin, c.net.fetch);
    if remote.NoSize? { return NoSync(remote.error), None; }
    var witnessSize, first := remote.size, remote.first;
    if witnessSize > localSize { return NoSync(RolledBack(localSize, witnessSize)), None; }

    var msg := a.SignCheckpoint(h, localSize, put);
    if msg.Failed? { return NoSync(LockRefused(msg.error)), None; }
    var proof: seq<Digest> := [];
    if witnessSize > 0 && witnessSize < localSize {
      var p := ConsistencyProof(h, a.leaves, witnessSize);
      if p.None? { return NoSync(SizeOutOfRange), None; }
      proof := p.value;
    }
    var request := Request(witnessSize, proof, msg.value);
    var reply, e2 := c.AddCheckpoint(request);
    if e2 == RequestTooLong { return NoSync(e2), None; }
    sent := Some(request);
    if reply.ReplyConflict? && reply.size > localSize { return NoSync(RolledBack(localSize, reply.size)), sent; }
    if !reply.ReplyOk? { return NoSync(e2), sent; }
    if !CoversLocalState(reply.whole, a.log.origin, localSize, localRoot) { return NoSync(NotAttested), sent; }
    var recorded := a.RecordCosigned(reply.whole);
    var at := CosignatureTime(c.wv, reply.whole);
    if at.None? { return NoSync(NotVerified), sent; }
    return Attested(witnessSize, first, reply.whole, at.value), sent;
  }
}
