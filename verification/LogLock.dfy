/** The log's own lock of internal/checkpoint/log.go: it never signs a smaller tree, nor two
    roots for one size, and what it signed is durable before anyone sees it. */
module LogLock {
  import opened Bytes
  import opened Hashing
  import opened Merkle
  import opened Notes
  import CF = CheckpointFormat

  datatype LogError = WrongOrigin | Unreadable | Rollback | BadCheckpoint | NotStored | OutOfRange

  datatype Outcome<+T> = Done(value: T) | Failed(error: LogError)

  /** How writing the durable note ended: written, refused, or reported as failed although it
      did reach the disk. */
  datatype Put = Stored | Lost | StoredButReported

  // --------------------------------------------------------------- decisions

  /** Bind: what the log remembers after reading its durable note. The larger of the two stays. */
  function BindSpec(origin: Bytes, last: Option<CF.Checkpoint>, durable: Option<Note>): Outcome<Option<CF.Checkpoint>> {
    if durable.None? then Done(last)
    else match CF.Parse(durable.value.text)
      case Err(_) => Failed(Unreadable)
      case Ok(c) =>
        if c.origin != origin then Failed(WrongOrigin)
        else if last.None? || c.size > last.value.size then Done(Some(c))
        else Done(last)
  }

  /** checkMonotonic. */
  predicate Monotonic(last: Option<CF.Checkpoint>, c: CF.Checkpoint) {
    last.None? || last.value.size < c.size || (last.value.size == c.size && last.value.root == c.root)
  }

  /** checkpoint.Sign: the body, and the log's signature over it. */
  function SignedNote(me: Verifier, c: CF.Checkpoint): Outcome<Note> {
    match CF.Format(c)
    case Err(_) => Failed(BadCheckpoint)
    case Ok(text) => Done(Note(text, [SigLine(me.name, me.hash, LogBlob(Ed(me.key, text)))]))
  }

  /** What Sign leaves behind: the lock, the durable note, and what it returns. */
  datatype Signed = Signed(last: Option<CF.Checkpoint>, durable: Option<Note>, result: Outcome<Note>)

  function SignSpec(origin: Bytes, me: Verifier, last: Option<CF.Checkpoint>, bound: bool, durable: Option<Note>,
                    c: CF.Checkpoint, put: Put): Signed
  {
    if c.origin != origin then Signed(last, durable, Failed(WrongOrigin))
    else if !Monotonic(last, c) then Signed(last, durable, Failed(Rollback))
    else
      var n := SignedNote(me, c);
      if n.Failed? then Signed(last, durable, n)
      else if bound && put == Lost then Signed(last, durable, Failed(NotStored))
      else if bound && put == StoredButReported then Signed(last, Some(n.value), Failed(NotStored))
      else Signed(Some(c), if bound then Some(n.value) else durable, n)
  }

  /** Binding succeeds exactly when the durable note, if there is one, is a checkpoint of this log. The
      lock is then the larger of what was remembered and what was durable; at equal sizes, the former. */
  lemma BindExact(origin: Bytes, last: Option<CF.Checkpoint>, durable: Option<Note>)
    ensures var r := BindSpec(origin, last, durable);
            && (r.Done? <==> (durable.Some? ==> var c := CF.Parse(durable.value.text);
                                                c.Ok? && c.value.origin == origin))
            && (r.Done? && durable.None? ==> r.value == last)
            && (r.Done? && durable.Some? ==>
                  var c := CF.Parse(durable.value.text).value;
                  && r.value in {last, Some(c)} && r.value.Some? && r.value.value.size >= c.size
                  && (last.Some? ==> r.value.value.size >= last.value.size)
                  && (last.Some? && last.value.size == c.size ==> r.value == last))
            && (durable.Some? && CF.Parse(durable.value.text).Err? <==> r == Failed(Unreadable))
  {
    hide CF.Parse;
  }

  /** The log's signed note on a checkpoint: its body, and one line of the log's key over that body. */
  ghost predicate IsSigned(me: Verifier, c: CF.Checkpoint, n: Note) {
    CF.Parse(n.text) == CF.Ok(c) && n.lines == [SigLine(me.name, me.hash, LogBlob(Ed(me.key, n.text)))]
  }

  lemma SignedExact(me: Verifier, c: CF.Checkpoint, n: Note)
    ensures SignedNote(me, c) == Done(n) <==> IsSigned(me, c, n)
    ensures SignedNote(me, c).Done? <==> CF.ValidOrigin(c.origin) && |c.root| == 32
    ensures SignedNote(me, c).Failed? ==> SignedNote(me, c) == Failed(BadCheckpoint)
  {
    hide CF.Parse, CF.ValidOrigin;
    CF.FormatExact(n.text, c);
    if CF.Format(c).Ok? { CF.FormatExact(CF.Format(c).value, c); }
  }

  /** The lock lets `c` through: larger than what it signed, or the same tree again. */
  predicate Allows(origin: Bytes, last: Option<CF.Checkpoint>, c: CF.Checkpoint) {
    c.origin == origin
    && (last.Some? ==> c.size > last.value.size || (c.size == last.value.size && c.root == last.value.root))
  }

  /** A checkpoint is signed exactly when the lock allows it, it can be written, and the note reaches the
      disk if the log is bound to one; then the lock moves to it. Otherwise the lock stays, and so does
      the durable note, unless it was written and the write reported as failed. */
  lemma SignExact(origin: Bytes, me: Verifier, last: Option<CF.Checkpoint>, bound: bool, durable: Option<Note>,
                  c: CF.Checkpoint, put: Put, n: Note)
    ensures var r := SignSpec(origin, me, last, bound, durable, c, put);
            && (r.result == Done(n) <==> Allows(origin, last, c) && IsSigned(me, c, n) && (bound ==> put == Stored))
            && (r.result.Done? ==> r.last == Some(c) && r.durable == if bound then Some(r.result.value) else durable)
            && (r.result.Failed? ==> r.last == last)
            && (r.result.Failed? && r.durable != durable ==>
                  bound && put == StoredButReported && Allows(origin, last, c)
                  && r.durable.Some? && IsSigned(me, c, r.durable.value))
            && (bound && put == StoredButReported && Allows(origin, last, c) && IsSigned(me, c, n) ==>
                  r.durable == Some(n))
            && (r.result == Failed(Rollback) <==> c.origin == origin && !Allows(origin, last, c))
  {
    hide CF.Parse, SignedNote, IsSigned;
    SignedExact(me, c, n);
    if SignedNote(me, c).Done? { SignedExact(me, c, SignedNote(me, c).value); }
  }

  /** StoreLog.SignCheckpoint: the checkpoint of the first `size` leaves. */
  function StoreCheckpoint(h: HashFn, origin: Bytes, leaves: seq<Bytes>, size: uint64): Outcome<CF.Checkpoint> {
    if size > |leaves| then Failed(OutOfRange)
    else Done(CF.Checkpoint(origin, size, Root(h, leaves[..size])))
  }

  // ------------------------------------------------------------------ classes

  /** The row of log_state that holds the last signed note. */
  class LogState {
    var note: Option<Note>

    constructor ()
      ensures note == None
    {
      note := None;
    }
  }

  class Log {
    const origin: Bytes
    const me: Verifier
    var last: Option<CF.Checkpoint>
    var state: LogState?

    ghost function Durable(): Option<Note>
      reads this, state
    {
      if state == null then None else state.note
    }

    constructor (origin: Bytes, me: Verifier)
      ensures this.origin == origin && this.me == me && last == None && state == null
    {
      this.origin, this.me, last, state := origin, me, None, null;
    }

    method Bind(st: LogState) returns (ok: bool)
      modifies this
      ensures var r := BindSpec(origin, old(last), st.note);
              && ok == r.Done?
              && last == (if ok then r.value else old(last))
              && state == (if ok then st else old(state))
      ensures st.note == old(st.note)
    {
      var raw := st.note;
      if raw.Some? {
        var c := CF.Parse(raw.value.text);
        if c.Err? || c.value.origin != origin { return false; }
        if last.None? || c.value.size > last.value.size {
          last := Some(c.value);
        }
      }
      state := st;
      return true;
    }

    method Sign(c: CF.Checkpoint, put: Put) returns (r: Outcome<Note>)
      modifies this`last, state
      ensures Signed(last, Durable(), r) == SignSpec(origin, me, old(last), state != null, old(Durable()), c, put)
    {
      hide CF.Format;
      if c.origin != origin { return Failed(WrongOrigin); }
      if !Monotonic(last, c) { return Failed(Rollback); }
      var n := SignedNote(me, c);
      if n.Failed? { return n; }
      if state != null {
        if put != Lost { state.note := Some(n.value); }
        if put != Stored { return Failed(NotStored); }
      }
      last := Some(c);
      return n;
    }
  }
}
