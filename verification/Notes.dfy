/** Signed notes as golang.org/x/mod/sumdb/note opens and signs them, with ideal signatures:
    a signature is the pair of the key that made it and the message it was made on, so a key
    verifies exactly what its owner signed. */
module Notes {
  import opened Bytes
  import opened Text
  import Decimal
  import CF = CheckpointFormat

  type Key = Bytes

  /** An Ed25519 signature. */
  datatype Ed = Ed(key: Key, message: Bytes)

  /** The blob of a signature line, after the key hash: a log's signature over the text, a
      timestamped cosignature, or bytes that are neither. */
  datatype Blob = LogBlob(ed: Ed) | CosignatureBlob(time: nat, ed: Ed) | OtherBlob(bytes: Bytes)

  datatype SigLine = SigLine(name: Bytes, hash: nat, blob: Blob)

  datatype Note = Note(text: Bytes, lines: seq<SigLine>)

  datatype Verifier = LogVerifier(name: Bytes, hash: nat, key: Key) | WitnessVerifier(name: Bytes, hash: nat, key: Key)

  const MAX_NOTE_BODY := 64 * 1024

  const MAX_LINES := 100

  // ------------------------------------------------------------ cosignatures

  /** cosignedMessage: two header lines and the body of the note. */
  function CosignedMessage(time: nat, text: Bytes): Bytes {
    Ascii("cosignature/v1\ntime ") + Decimal.Format(time) + [LF] + text
  }

  /** A cosignature is about one instant and one text. */
  lemma CosignedMessageInjective(t: nat, x: Bytes, u: nat, y: Bytes)
    requires CosignedMessage(t, x) == CosignedMessage(u, y)
    ensures t == u && x == y
  {
    hide Decimal.Format, Ascii;
    var p := Ascii("cosignature/v1\ntime ");
    assert CosignedMessage(t, x)[|p|..] == Decimal.Format(t) + [LF] + x;
    assert CosignedMessage(u, y)[|p|..] == Decimal.Format(u) + [LF] + y;
    CF.DecimalIsOneLine(t);
    CF.DecimalIsOneLine(u);
    FirstLine(Decimal.Format(t), x, Decimal.Format(u), y);
  }

  // ------------------------------------------------------------ verification

  predicate Verifies(v: Verifier, text: Bytes, blob: Blob) {
    match v
    case LogVerifier(_, _, key) => blob == LogBlob(Ed(key, text))
    case WitnessVerifier(_, _, key) =>
      && blob.CosignatureBlob?
      && |text| <= MAX_NOTE_BODY
      && blob.ed == Ed(key, CosignedMessage(blob.time, text))
  }

  datatype Found = Unknown | Known(verifier: Verifier) | Ambiguous

  /** VerifierList: the verifier registered for a name and a key hash, if there is just one. */
  function Lookup(known: seq<Verifier>, name: Bytes, hash: nat): Found {
    if known == [] then Unknown
    else
      var rest := Lookup(known[1..], name, hash);
      if known[0].name != name || known[0].hash != hash then rest
      else if rest == Unknown then Known(known[0])
      else Ambiguous
  }

  lemma LookupOne(v: Verifier, name: Bytes, hash: nat)
    ensures Lookup([v], name, hash) == if v.name == name && v.hash == hash then Known(v) else Unknown
  {
    assert [v][1..] == [];
    assert Lookup([], name, hash) == Unknown;
  }

  datatype Opened = Opened(sigs: seq<SigLine>, unverified: seq<SigLine>) | NotOpened

  type Checked = o: Opened | o.Opened? witness Opened([], [])

  /** note.Open after the text and the signature lines have been told apart: the lines of known
      keys must verify, the first of each key counts, unknown keys are set aside. */
  function OpenLines(known: seq<Verifier>, text: Bytes, lines: seq<SigLine>, done: Checked): Opened
    decreases |lines|
  {
    if lines == [] then done
    else
      var l := lines[0];
      match Lookup(known, l.name, l.hash)
      case Ambiguous => NotOpened
      case Unknown =>
        OpenLines(known, text, lines[1..],
                  if l in done.unverified then done else done.(unverified := done.unverified + [l]))
      case Known(v) =>
        if SeenKey(done.sigs, l) then OpenLines(known, text, lines[1..], done)
        else if Verifies(v, text, l.blob) then OpenLines(known, text, lines[1..], done.(sigs := done.sigs + [l]))
        else NotOpened
  }

  predicate SeenKey(sigs: seq<SigLine>, l: SigLine) {
    exists i :: 0 <= i < |sigs| && sigs[i].name == l.name && sigs[i].hash == l.hash
  }

  /** note.Open: at least one line of a known key. */
  function Open(known: seq<Verifier>, n: Note): Opened {
    if |n.lines| > MAX_LINES then NotOpened
    else
      var r := OpenLines(known, n.text, n.lines, Opened([], []));
      if r.Opened? && r.sigs != [] then r else NotOpened
  }

  /** Every line `done` holds in `sigs` verifies under the known verifier of its key. */
  ghost predicate AllVerify(known: seq<Verifier>, text: Bytes, sigs: seq<SigLine>) {
    forall i :: 0 <= i < |sigs| ==>
      var f := Lookup(known, sigs[i].name, sigs[i].hash);
      f.Known? && Verifies(f.verifier, text, sigs[i].blob)
  }

  lemma {:induction false} OpenLinesSound(known: seq<Verifier>, text: Bytes, lines: seq<SigLine>, done: Checked)
    requires AllVerify(known, text, done.sigs)
    ensures var r := OpenLines(known, text, lines, done);
            r.Opened? ==>
              && AllVerify(known, text, r.sigs)
              && (forall i :: 0 <= i < |r.sigs| ==> r.sigs[i] in done.sigs || r.sigs[i] in lines)
              && (forall i :: 0 <= i < |r.unverified| ==>
                    r.unverified[i] in done.unverified || r.unverified[i] in lines)
    decreases |lines|
  {
    if lines != [] {
      var l := lines[0];
      match Lookup(known, l.name, l.hash)
      case Ambiguous =>
      case Unknown =>
        OpenLinesSound(known, text, lines[1..],
                       if l in done.unverified then done else done.(unverified := done.unverified + [l]));
      case Known(v) =>
        if SeenKey(done.sigs, l) {
          OpenLinesSound(known, text, lines[1..], done);
        } else if Verifies(v, text, l.blob) {
          OpenLinesSound(known, text, lines[1..], done.(sigs := done.sigs + [l]));
        }
    }
  }

  lemma OpenSound(known: seq<Verifier>, n: Note)
    requires Open(known, n).Opened?
    ensures var r := Open(known, n);
            && r.sigs != [] && AllVerify(known, n.text, r.sigs)
            && (forall i :: 0 <= i < |r.sigs| ==> r.sigs[i] in n.lines)
            && (forall i :: 0 <= i < |r.unverified| ==> r.unverified[i] in n.lines)
  {
    OpenLinesSound(known, n.text, n.lines, Opened([], []));
  }

  predicate OfKey(l: SigLine, v: Verifier) {
    l.name == v.name && l.hash == v.hash
  }

  /** The first line of a key. */
  function FirstOf(v: Verifier, lines: seq<SigLine>): (first: Option<SigLine>)
    ensures first.Some? ==> first.value in lines && OfKey(first.value, v)
    ensures first.None? ==> forall i :: 0 <= i < |lines| ==> !OfKey(lines[i], v)
  {
    if lines == [] then None else if OfKey(lines[0], v) then Some(lines[0]) else FirstOf(v, lines[1..])
  }

  /** Under one key, the first line of that key decides. */
  predicate SignedUnder(v: Verifier, n: Note) {
    var first := FirstOf(v, n.lines);
    |n.lines| <= MAX_LINES && first.Some? && Verifies(v, n.text, first.value.blob)
  }

  lemma {:induction false} OpenLinesExact(v: Verifier, text: Bytes, lines: seq<SigLine>, done: Checked)
    requires done.sigs != [] ==> |done.sigs| == 1 && OfKey(done.sigs[0], v)
    ensures var r := OpenLines([v], text, lines, done);
            var first := FirstOf(v, lines);
            && (r.Opened? <==> done.sigs != [] || first.None? || Verifies(v, text, first.value.blob))
            && (r.Opened? ==> r.sigs == if done.sigs != [] || first.None? then done.sigs else [first.value])
    decreases |lines|
  {
    hide Verifies;
    if lines != [] {
      var l := lines[0];
      LookupOne(v, l.name, l.hash);
      if !OfKey(l, v) {
        var aside := if l in done.unverified then done else done.(unverified := done.unverified + [l]);
        OpenLinesExact(v, text, lines[1..], aside);
      } else if done.sigs != [] {
        OpenLinesExact(v, text, lines[1..], done);
      } else {
        assert [] + [l] == [l];
        OpenLinesExact(v, text, lines[1..], done.(sigs := [l]));
      }
    }
  }

  /** A note opens under one key exactly when it has at most a hundred lines, one of them of that key,
      and the first of those verifies. */
  lemma OpenExact(v: Verifier, n: Note)
    ensures Open([v], n).Opened? <==> SignedUnder(v, n)
    ensures SignedUnder(v, n) ==> Open([v], n).sigs == [FirstOf(v, n.lines).value]
  {
    hide Verifies, OpenLines;
    OpenLinesExact(v, n.text, n.lines, Opened([], []));
  }

  /** checkpoint.Verify: open the note and read its body. */
  function VerifyCheckpoint(known: seq<Verifier>, n: Note): Option<(CF.Checkpoint, Checked)> {
    var r := Open(known, n);
    if r.NotOpened? then None
    else match CF.Parse(n.text)
      case Err(_) => None
      case Ok(c) => Some((c, r))
  }

  // ----------------------------------------------------------------- signing

  /** The lines a new signature does not replace. */
  function Keep(lines: seq<SigLine>, name: Bytes, hash: nat): (r: seq<SigLine>)
    ensures forall i :: 0 <= i < |r| ==> r[i] in lines
  {
    if lines == [] then []
    else if lines[0].name == name && lines[0].hash == hash then Keep(lines[1..], name, hash)
    else [lines[0]] + Keep(lines[1..], name, hash)
  }

  /** note.Sign over an checked note: its other signatures first, then the new one. */
  function SignNote(text: Bytes, checked: Checked, line: SigLine): Note {
    Note(text, Keep(checked.sigs, line.name, line.hash) + Keep(checked.unverified, line.name, line.hash) + [line])
  }

  /** The cosignature line a witness adds at an instant. */
  function CosignatureLine(me: Verifier, time: nat, text: Bytes): SigLine {
    SigLine(me.name, me.hash, CosignatureBlob(time, Ed(me.key, CosignedMessage(time, text))))
  }
}
