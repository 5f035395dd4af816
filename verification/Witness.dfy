/** The witness of internal/witness/witness.go and state.go: it remembers, for each log, the
    last note it cosigned, and cosigns another only if it extends that one. */
module Witness {
  import opened Bytes
  import opened Hashing
  import opened Merkle
  import opened MerkleVerify
  import opened Notes
  import CF = CheckpointFormat

  const MAX_INT: nat := 0x7FFF_FFFF_FFFF_FFFF

  datatype CosignError =
    | Malformed | RetiredLog | UnknownLog | BadSignature | BadOldSize
    | Conflict(lastSize: uint64) | Unprocessable | ClockRewind | NotPersisted | CorruptMemory

  datatype Result = Cosigned(note: Note) | Refused(error: CosignError)

  /** What the witness knows: the active and the retired logs, the memory (one verbatim note
      per origin) and the last instant it signed at. */
  datatype State = State(logs: map<Bytes, Verifier>, retired: set<Bytes>, notes: map<Bytes, Note>, lastTime: nat)

  /** A request that passed the checks made before the memory is looked at. */
  datatype Admitted = Admitted(declaredOld: Option<uint64>, c: CF.Checkpoint, text: Bytes, checked: Checked,
                               proof: seq<Digest>)

  datatype Admission = Admit(request: Admitted) | Reject(error: CosignError)

  // --------------------------------------------------------------- decisions

  /** signedBy: one of the verified signatures is the log's. */
  predicate SignedBy(checked: Checked, v: Verifier) {
    exists i :: 0 <= i < |checked.sigs| && checked.sigs[i].name == v.name && checked.sigs[i].hash == v.hash
  }

  /** Steps 1 to 3 of cosign: the origin selects the key, that key must have signed, and the
      declared old size cannot exceed the new one. */
  function AdmitRequest(s: State, declaredOld: Option<uint64>, msg: Note, proof: seq<Digest>): Admission {
    match CF.Parse(msg.text)
    case Err(_) => Reject(Malformed)
    case Ok(declared) =>
      if declared.origin in s.retired then Reject(RetiredLog)
      else if declared.origin !in s.logs then Reject(UnknownLog)
      else
        var v := s.logs[declared.origin];
        match VerifyCheckpoint([v], msg)
        case None => Reject(BadSignature)
        case Some((c, checked)) =>
          if !SignedBy(checked, v) || c.origin != declared.origin then Reject(BadSignature)
          else if declaredOld.Some? && declaredOld.value > c.size then Reject(BadOldSize)
          else Admit(Admitted(declaredOld, c, msg.text, checked, proof))
  }

  /** checkExtension: None accepts. */
  function CheckExtension(h: HashFn, last: Option<CF.Checkpoint>, c: CF.Checkpoint,
                          proof: seq<Digest>): Option<CosignError>
  {
    var oldSize := if last.Some? then last.value.size else 0;
    if c.size > MAX_INT then Some(Unprocessable)
    else if oldSize > MAX_INT then Some(Unprocessable)
    else if oldSize > c.size then Some(BadOldSize)
    else if c.size == 0 && c.root != h([]) then Some(Unprocessable)
    else if oldSize == 0 then (if proof != [] then Some(Unprocessable) else None)
    else if oldSize == c.size then (if last.value.root != c.root then Some(Unprocessable) else None)
    else if ConsistencyVerdict(h, oldSize, c.size, last.value.root, c.root, proof) != Accepted then Some(Unprocessable)
    else None
  }

  /** Signer.Sign: the instant never goes back. */
  function SignAt(me: Verifier, lastTime: nat, clock: int, text: Bytes): Option<SigLine> {
    if clock < 0 || clock < lastTime || |text| > MAX_NOTE_BODY then None
    else Some(CosignatureLine(me, clock, text))
  }

  /** Step 4 of cosign, inside State.Advance: compare, check, sign and persist as one. `commit`
      says whether the transaction could be committed. */
  function Advance(h: HashFn, me: Verifier, s: State, a: Admitted, clock: int, commit: bool): (State, Result) {
    var current := if a.c.origin in s.notes then Some(CF.Parse(s.notes[a.c.origin].text)) else None;
    if current.Some? && current.value.Err? then (s, Refused(CorruptMemory))
    else
      var last := if current.Some? then Some(current.value.value) else None;
      var oldSize := if last.Some? then last.value.size else 0;
      if a.declaredOld.Some? && a.declaredOld.value != oldSize then (s, Refused(Conflict(oldSize)))
      else match CheckExtension(h, last, a.c, a.proof)
        case Some(e) => (s, Refused(e))
        case None =>
          match SignAt(me, s.lastTime, clock, a.text)
          case None => (s, Refused(ClockRewind))
          case Some(line) =>
            var cosigned := SignNote(a.text, a.checked, line);
            var signed := s.(lastTime := clock);
            if commit then (signed.(notes := s.notes[a.c.origin := cosigned]), Cosigned(cosigned))
            else (signed, Refused(NotPersisted))
  }

  /** CosignAt and Cosign, when nothing happens between their two halves. */
  function CosignSpec(h: HashFn, me: Verifier, s: State, declaredOld: Option<uint64>, msg: Note, proof: seq<Digest>,
                      clock: int, commit: bool): (State, Result)
  {
    match AdmitRequest(s, declaredOld, msg, proof)
    case Reject(e) => (s, Refused(e))
    case Admit(a) => Advance(h, me, s, a, clock, commit)
  }

  /** RetireLog: a remembered note must carry the signature of the key given. */
  function RetireSpec(s: State, origin: Bytes, v: Verifier): Option<State> {
    if origin in s.notes && VerifyCheckpoint([v], s.notes[origin]).None? then None
    else if origin in s.logs then None
    else Some(s.(retired := s.retired + {origin}))
  }

  function AddSpec(s: State, origin: Bytes, v: Verifier): Option<State> {
    if origin in s.retired then None else Some(s.(logs := s.logs[origin := v]))
  }

  // ------------------------------------------------------------------- class

  class Witness {
    const me: Verifier
    var logs: map<Bytes, Verifier>
    var retired: set<Bytes>
    var notes: map<Bytes, Note>
    var lastTime: nat

    ghost function Snapshot(): State
      reads this
    {
      State(logs, retired, notes, lastTime)
    }

    /** NewWithState: no logs yet, and whatever the memory already holds. */
    constructor (me: Verifier, memory: map<Bytes, Note>)
      ensures this.me == me && Snapshot() == State(map[], {}, memory, 0)
    {
      this.me := me;
      logs, retired, notes, lastTime := map[], {}, memory, 0;
    }

    method AddLog(origin: Bytes, v: Verifier) returns (ok: bool)
      modifies this
      ensures var r := AddSpec(old(Snapshot()), origin, v);
              ok == r.Some? && Snapshot() == if ok then r.value else old(Snapshot())
    {
      if origin in retired { return false; }
      logs := logs[origin := v];
      return true;
    }

    method RetireLog(origin: Bytes, v: Verifier) returns (ok: bool)
      modifies this
      ensures var r := RetireSpec(old(Snapshot()), origin, v);
              ok == r.Some? && Snapshot() == if ok then r.value else old(Snapshot())
    {
      if origin in notes {
        if VerifyCheckpoint([v], notes[origin]).None? { return false; }
      }
      if origin in logs { return false; }
      retired := retired + {origin};
      return true;
    }

    /** cosign: `declaredOld` is None for Cosign and Some for CosignAt. */
    method Cosign(h: HashFn, declaredOld: Option<uint64>, msg: Note, proof: seq<Digest>, clock: int, commit: bool)
      returns (r: Result)
      modifies this
      ensures (Snapshot(), r) == CosignSpec(h, me, old(Snapshot()), declaredOld, msg, proof, clock, commit)
    {
      hide CF.Parse, VerifyCheckpoint, SignNote, SignedBy, CosignatureLine, CheckExtension;
      var declared := CF.Parse(msg.text);
      if declared.Err? { return Refused(Malformed); }
      var origin := declared.value.origin;
      if origin in retired { return Refused(RetiredLog); }
      if origin !in logs { return Refused(UnknownLog); }
      var v := logs[origin];
      var verified := VerifyCheckpoint([v], msg);
      if verified.None? { return Refused(BadSignature); }
      var c, checked := verified.value.0, verified.value.1;
      if !SignedBy(checked, v) || c.origin != origin { return Refused(BadSignature); }
      if declaredOld.Some? && declaredOld.value > c.size { return Refused(BadOldSize); }

      var last: Option<CF.Checkpoint> := None;
      if origin in notes {
        var parsed := CF.Parse(notes[origin].text);
        if parsed.Err? { return Refused(CorruptMemory); }
        last := Some(parsed.value);
      }
      var oldSize := if last.Some? then last.value.size else 0;
      if declaredOld.Some? && declaredOld.value != oldSize { return Refused(Conflict(oldSize)); }
      var refusal := CheckLive(h, last, c, proof);
      if refusal.Some? { return Refused(refusal.value); }
      if clock < 0 || clock < lastTime || |msg.text| > MAX_NOTE_BODY { return Refused(ClockRewind); }
      var line := CosignatureLine(me, clock, msg.text);
      lastTime := clock;
      if !commit { return Refused(NotPersisted); }
      var cosigned := SignNote(msg.text, checked, line);
      notes := notes[origin := cosigned];
      return Cosigned(cosigned);
    }
  }

  /** checkExtension as it runs, with the consistency loop. */
  method CheckLive(h: HashFn, last: Option<CF.Checkpoint>, c: CF.Checkpoint, proof: seq<Digest>)
    returns (r: Option<CosignError>)
    ensures r == CheckExtension(h, last, c, proof)
  {
    var oldSize := if last.Some? then last.value.size else 0;
    if c.size > MAX_INT || oldSize > MAX_INT { return Some(Unprocessable); }
    if oldSize > c.size { return Some(BadOldSize); }
    if c.size == 0 && c.root != h([]) { return Some(Unprocessable); }
    if oldSize == 0 {
      return if |proof| != 0 then Some(Unprocessable) else None;
    }
    if oldSize == c.size {
      return if last.value.root != c.root then Some(Unprocessable) else None;
    }
    var v := VerifyConsistency(h, oldSize, c.size, last.value.root, c.root, proof);
    return if v != Accepted then Some(Unprocessable) else None;
  }
}
