/** Verifying a cosigned note under a policy: VerifyNote of internal/proof/proof.go, the one
    definition of an attested checkpoint. */
module ProofNote {
  import opened Bytes
  import CF = CheckpointFormat
  import opened Notes

  /** How key IDs are computed and which names a note may carry: SHA-256 and x/mod, as parameters. */
  datatype Keys = Keys(hash: (Bytes, Key, nat) -> nat, validName: Bytes -> bool)

  const ALG_LOG: nat := 1
  const ALG_COSIGNATURE: nat := 4

  datatype Policy = Policy(origin: Bytes, logKey: Key, witnesses: map<Bytes, Key>, quorum: int)

  datatype Refusal = BadPolicy | NotOpenable | WrongOrigin | BadSignature | NoQuorum

  datatype Verdict = Accepted(checkpoint: CF.Checkpoint, cosigners: seq<Bytes>, provableTime: int,
                              logExtra: seq<Bytes>, ignored: seq<Bytes>)
                   | Refused(why: Refusal)

  // ---------------------------------------------------------------- the policy

  /** Policy.validate, and the sizes NewVerifier asks for. */
  predicate PolicyValid(k: Keys, p: Policy) {
    && p.origin != [] && k.validName(p.origin) && |p.logKey| == 32
    && 0 <= p.quorum <= |p.witnesses|
    && (forall a, b :: a in p.witnesses && b in p.witnesses && p.witnesses[a] == p.witnesses[b] ==> a == b)
    && (forall a :: a in p.witnesses ==> |p.witnesses[a]| == 32)
  }

  function LogOf(k: Keys, p: Policy): Verifier {
    LogVerifier(p.origin, k.hash(p.origin, p.logKey, ALG_LOG), p.logKey)
  }

  function WitnessOf(k: Keys, name: Bytes, key: Key): Verifier {
    WitnessVerifier(name, k.hash(name, key, ALG_COSIGNATURE), key)
  }

  /** The verifiers in the order Go's map iteration gives the witnesses. */
  function Witnesses(k: Keys, p: Policy, order: seq<Bytes>): seq<Verifier>
    requires forall i :: 0 <= i < |order| ==> order[i] in p.witnesses
  {
    seq(|order|, i requires 0 <= i < |order| => WitnessOf(k, order[i], p.witnesses[order[i]]))
  }

  predicate Lists(order: seq<Bytes>, p: Policy) {
    && (forall i :: 0 <= i < |order| ==> order[i] in p.witnesses)
    && (forall i, j :: 0 <= i < j < |order| ==> order[i] != order[j])
    && (forall a :: a in p.witnesses ==> a in order)
  }

  // ----------------------------------------------------------------- the lines

  predicate IsLogLine(k: Keys, p: Policy, l: SigLine) {
    l.name == p.origin && l.hash == LogOf(k, p).hash
  }

  predicate NamesWitness(k: Keys, p: Policy, l: SigLine) {
    l.name in p.witnesses && l.hash == WitnessOf(k, l.name, p.witnesses[l.name]).hash
  }

  /** A line the loop counts as a witness's: the log's key is looked at first. */
  predicate IsWitnessLine(k: Keys, p: Policy, l: SigLine) {
    !IsLogLine(k, p, l) && NamesWitness(k, p, l)
  }

  predicate LogVerifies(k: Keys, p: Policy, text: Bytes, l: SigLine) {
    Verifies(LogOf(k, p), text, l.blob)
  }

  predicate WitnessVerifies(k: Keys, p: Policy, text: Bytes, l: SigLine)
    requires NamesWitness(k, p, l)
  {
    Verifies(WitnessOf(k, l.name, p.witnesses[l.name]), text, l.blob)
  }

  /** A line of a known key that does not verify, or whose key ID two keys share. */
  predicate Spoils(k: Keys, p: Policy, text: Bytes, l: SigLine) {
    || (IsLogLine(k, p, l) && NamesWitness(k, p, l))
    || (IsLogLine(k, p, l) && !LogVerifies(k, p, text, l))
    || (IsWitnessLine(k, p, l) && !WitnessVerifies(k, p, text, l))
  }

  // -------------------------------------------------------------------- the time

  /** Go's zero instant, year 1, as seconds of Unix time. */
  const ZERO_TIME: int := -62135596800

  /** time.Unix(int64(t), 0): a timestamp of 2^63 or more wraps to a negative one. */
  function Instant(t: nat): int {
    if t < 0x8000_0000_0000_0000 then t else t - 0x1_0000_0000_0000_0000
  }

  /** `earliest` after one more time: the zero instant stands for none seen. */
  function Earlier(earliest: int, t: int): int {
    if earliest == ZERO_TIME || t < earliest then t else earliest
  }

  // -------------------------------------------------------------------- the loop

  datatype Scan = Scan(logSigned: bool, cosigners: seq<Bytes>, earliest: int) | Spoiled

  type Scanning = s: Scan | s.Scan? witness Scan(false, [], ZERO_TIME)

  const NOTHING: Scanning := Scan(false, [], ZERO_TIME)

  /** One turn of the loop over the signature lines. */
  function ScanLine(k: Keys, p: Policy, text: Bytes, l: SigLine, s: Scanning): Scan {
    if IsLogLine(k, p, l) then
      if LogVerifies(k, p, text, l) then s.(logSigned := true) else Spoiled
    else if !NamesWitness(k, p, l) then s
    else if !WitnessVerifies(k, p, text, l) then Spoiled
    else s.(cosigners := if l.name in s.cosigners then s.cosigners else s.cosigners + [l.name],
            earliest := Earlier(s.earliest, Instant(l.blob.time)))
  }

  function ScanLines(k: Keys, p: Policy, text: Bytes, lines: seq<SigLine>, i: nat, s: Scanning): Scan
    requires i <= |lines|
    decreases |lines| - i
  {
    if i == |lines| then s
    else
      var r := ScanLine(k, p, text, lines[i], s);
      if r.Spoiled? then Spoiled else ScanLines(k, p, text, lines, i + 1, r)
  }

  const MLDSA_SIZE: nat := 2420

  /** The log's extra signatures, by name and size. */
  predicate IsLogExtra(p: Policy, l: SigLine) {
    l.name == p.origin && l.blob.OtherBlob? && |l.blob.bytes| == MLDSA_SIZE
  }

  function NamesOf(lines: seq<SigLine>, p: Policy, extra: bool): seq<Bytes> {
    if lines == [] then []
    else (if IsLogExtra(p, lines[0]) == extra then [lines[0].name] else []) + NamesOf(lines[1..], p, extra)
  }

  /** VerifyNote. */
  function Judge(k: Keys, p: Policy, order: seq<Bytes>, n: Note): Verdict
    requires Lists(order, p)
  {
    if !PolicyValid(k, p) then Refused(BadPolicy)
    else
      match VerifyCheckpoint([LogOf(k, p)] + Witnesses(k, p, order), n)
      case None => Refused(NotOpenable)
      case Some((c, found)) =>
        if c.origin != p.origin then Refused(WrongOrigin)
        else
          var s := ScanLines(k, p, n.text, n.lines, 0, NOTHING);
          if s.Spoiled? then Refused(BadSignature)
          else if !s.logSigned then Refused(WrongOrigin)
          else if |s.cosigners| < p.quorum then Refused(NoQuorum)
          else Accepted(c, s.cosigners, s.earliest, NamesOf(found.unverified, p, true),
                        NamesOf(found.unverified, p, false))
  }

  // ------------------------------------------------------------- opening the note

  lemma {:induction false} LookupWitnesses(k: Keys, p: Policy, order: seq<Bytes>, name: Bytes, hash: nat)
    requires forall i :: 0 <= i < |order| ==> order[i] in p.witnesses
    requires forall i, j :: 0 <= i < j < |order| ==> order[i] != order[j]
    ensures Lookup(Witnesses(k, p, order), name, hash)
         == if name in order && hash == WitnessOf(k, name, p.witnesses[name]).hash
            then Known(WitnessOf(k, name, p.witnesses[name])) else Unknown
  {
    if order != [] {
      LookupWitnesses(k, p, order[1..], name, hash);
      assert Witnesses(k, p, order)[1..] == Witnesses(k, p, order[1..]);
      assert name in order <==> name == order[0] || name in order[1..];
    }
  }

  /** What a line's key is to the policy, whatever the order of the witnesses. */
  lemma LookupKnown(k: Keys, p: Policy, order: seq<Bytes>, l: SigLine)
    requires Lists(order, p)
    ensures var f := Lookup([LogOf(k, p)] + Witnesses(k, p, order), l.name, l.hash);
            && (f == Ambiguous <==> IsLogLine(k, p, l) && NamesWitness(k, p, l))
            && (f == Unknown <==> !IsLogLine(k, p, l) && !NamesWitness(k, p, l))
            && (f.Known? && IsLogLine(k, p, l) ==> f.verifier == LogOf(k, p))
            && (f.Known? && NamesWitness(k, p, l) ==> f.verifier == WitnessOf(k, l.name, p.witnesses[l.name]))
  {
    LookupWitnesses(k, p, order, l.name, l.hash);
    var all := [LogOf(k, p)] + Witnesses(k, p, order);
    assert all[0] == LogOf(k, p) && all[1..] == Witnesses(k, p, order);
  }

  ghost predicate Spoiling(k: Keys, p: Policy, text: Bytes, lines: seq<SigLine>) {
    exists i :: 0 <= i < |lines| && Spoils(k, p, text, lines[i])
  }

  ghost predicate HasAmbiguous(k: Keys, p: Policy, lines: seq<SigLine>) {
    exists i :: 0 <= i < |lines| && IsLogLine(k, p, lines[i]) && NamesWitness(k, p, lines[i])
  }

  ghost predicate LogSigned(k: Keys, p: Policy, lines: seq<SigLine>) {
    exists i :: 0 <= i < |lines| && IsLogLine(k, p, lines[i])
  }

  /** note.Open goes on past a line exactly when its key is not ambiguous and, the first time the
      key is seen, the line verifies. */
  lemma OpenStep(k: Keys, p: Policy, order: seq<Bytes>, text: Bytes, lines: seq<SigLine>, done: Checked)
    returns (next: Checked)
    requires Lists(order, p) && lines != []
    ensures var known, l := [LogOf(k, p)] + Witnesses(k, p, order), lines[0];
            && (IsLogLine(k, p, l) && NamesWitness(k, p, l) ==> OpenLines(known, text, lines, done).NotOpened?)
            && (!Spoils(k, p, text, l)
                ==> OpenLines(known, text, lines, done) == OpenLines(known, text, lines[1..], next))
            && (OpenLines(known, text, lines, done).Opened?
                ==> OpenLines(known, text, lines, done) == OpenLines(known, text, lines[1..], next))
            && (done.sigs != [] ==> next.sigs != [])
            && (IsLogLine(k, p, l) && !NamesWitness(k, p, l) ==> next.sigs != [])
  {
    var l := lines[0];
    LookupKnown(k, p, order, l);
    hide Witnesses, LogOf, WitnessOf, Verifies;
    var f := Lookup([LogOf(k, p)] + Witnesses(k, p, order), l.name, l.hash);
    next := if f == Unknown then (if l in done.unverified then done else done.(unverified := done.unverified + [l]))
            else if SeenKey(done.sigs, l) then done else done.(sigs := done.sigs + [l]);
  }

  lemma {:induction false} OpenLinesMeaning(k: Keys, p: Policy, order: seq<Bytes>, text: Bytes, lines: seq<SigLine>,
                                            done: Checked)
    requires Lists(order, p)
    ensures var r := OpenLines([LogOf(k, p)] + Witnesses(k, p, order), text, lines, done);
            && (!Spoiling(k, p, text, lines) ==> r.Opened?)
            && (r.Opened? ==> !HasAmbiguous(k, p, lines))
            && (r.Opened? && (done.sigs != [] || LogSigned(k, p, lines)) ==> r.sigs != [])
    decreases |lines|
  {
    if lines != [] {
      var next := OpenStep(k, p, order, text, lines, done);
      OpenLinesMeaning(k, p, order, text, lines[1..], next);
      TailOf(k, p, text, lines);
    }
    hide IsLogLine, NamesWitness, Spoils;
    NoLines(k, p, order, text, done);
  }

  lemma NoLines(k: Keys, p: Policy, order: seq<Bytes>, text: Bytes, done: Checked)
    requires Lists(order, p)
    ensures OpenLines([LogOf(k, p)] + Witnesses(k, p, order), text, [], done) == done
  {
  }

  lemma TailOf(k: Keys, p: Policy, text: Bytes, lines: seq<SigLine>)
    requires lines != []
    ensures Spoiling(k, p, text, lines) <==> Spoils(k, p, text, lines[0]) || Spoiling(k, p, text, lines[1..])
    ensures HasAmbiguous(k, p, lines)
            <==> (IsLogLine(k, p, lines[0]) && NamesWitness(k, p, lines[0])) || HasAmbiguous(k, p, lines[1..])
    ensures LogSigned(k, p, lines) <==> IsLogLine(k, p, lines[0]) || LogSigned(k, p, lines[1..])
  {
    hide IsLogLine, NamesWitness, Spoils;
    assert forall i :: 0 < i < |lines| ==> lines[i] == lines[1..][i - 1];
    assert forall i :: 0 <= i < |lines[1..]| ==> lines[1..][i] == lines[i + 1];
  }

  // ------------------------------------------------------------ what the loop finds

  /** The names of the witnesses with a line. */
  ghost function CosignerSet(k: Keys, p: Policy, lines: seq<SigLine>, i: nat): set<Bytes>
    requires i <= |lines|
  {
    set j | i <= j < |lines| && IsWitnessLine(k, p, lines[j]) :: lines[j].name
  }

  /** The instants of the witnesses' lines, in the order of the lines. */
  ghost function Times(k: Keys, p: Policy, lines: seq<SigLine>, i: nat): seq<int>
    requires i <= |lines|
    decreases |lines| - i
  {
    if i == |lines| then []
    else (if IsWitnessLine(k, p, lines[i]) then [TimeOf(lines[i])] else []) + Times(k, p, lines, i + 1)
  }

  function TimeOf(l: SigLine): int {
    if l.blob.CosignatureBlob? then Instant(l.blob.time) else ZERO_TIME
  }

  function EarliestFrom(times: seq<int>, earliest: int): int {
    if times == [] then earliest else EarliestFrom(times[1..], Earlier(earliest, times[0]))
  }

  /** A line of a known key that the loop itself would refuse. */
  predicate Fails(k: Keys, p: Policy, text: Bytes, l: SigLine) {
    || (IsLogLine(k, p, l) && !LogVerifies(k, p, text, l))
    || (IsWitnessLine(k, p, l) && !WitnessVerifies(k, p, text, l))
  }

  ghost predicate Failing(k: Keys, p: Policy, text: Bytes, lines: seq<SigLine>, i: nat) {
    exists j :: i <= j < |lines| && Fails(k, p, text, lines[j])
  }

  ghost predicate LogSignedFrom(k: Keys, p: Policy, lines: seq<SigLine>, i: nat) {
    exists j :: i <= j < |lines| && IsLogLine(k, p, lines[j])
  }

  predicate Distinct(s: seq<Bytes>) {
    forall i, j :: 0 <= i < j < |s| ==> s[i] != s[j]
  }

  ghost function SetOf(s: seq<Bytes>): set<Bytes> {
    set i | 0 <= i < |s| :: s[i]
  }

  lemma ScanLineMeaning(k: Keys, p: Policy, text: Bytes, lines: seq<SigLine>, i: nat, s: Scanning)
    requires i < |lines| && Distinct(s.cosigners)
    ensures var r, l := ScanLine(k, p, text, lines[i], s), lines[i];
            && (r.Scan? <==> !Fails(k, p, text, l))
            && (r.Scan? ==>
                  && (r.logSigned <==> s.logSigned || IsLogLine(k, p, l))
                  && Distinct(r.cosigners)
                  && SetOf(r.cosigners) + CosignerSet(k, p, lines, i + 1)
                     == SetOf(s.cosigners) + CosignerSet(k, p, lines, i)
                  && EarliestFrom(Times(k, p, lines, i + 1), r.earliest)
                     == EarliestFrom(Times(k, p, lines, i), s.earliest))
  {
    hide LogOf, CosignerSet, Times, EarliestFrom, SetOf, Distinct, Earlier, Instant;
    var r, l := ScanLine(k, p, text, lines[i], s), lines[i];
    CosignersStep(k, p, lines, i);
    if r.Scan? {
      if IsWitnessLine(k, p, l) { CosignatureOf(k, p, text, l); }
      AddName(s.cosigners, l.name);
      TimesStep(k, p, lines, i, s.earliest);
    }
  }

  lemma AddName(names: seq<Bytes>, name: Bytes)
    requires Distinct(names)
    ensures var r := if name in names then names else names + [name];
            Distinct(r) && SetOf(r) == SetOf(names) + {name}
  {
    var r := if name in names then names else names + [name];
    forall x ensures x in SetOf(r) <==> x in SetOf(names) || x == name {
      if x == name && name !in names { assert r[|names|] == name; }
      assert forall i :: 0 <= i < |names| ==> r[i] == names[i];
    }
  }

  lemma CosignersStep(k: Keys, p: Policy, lines: seq<SigLine>, i: nat)
    requires i < |lines|
    ensures CosignerSet(k, p, lines, i)
         == (if IsWitnessLine(k, p, lines[i]) then {lines[i].name} else {}) + CosignerSet(k, p, lines, i + 1)
  {
    hide IsWitnessLine;
  }

  lemma TimesStep(k: Keys, p: Policy, lines: seq<SigLine>, i: nat, earliest: int)
    requires i < |lines|
    ensures EarliestFrom(Times(k, p, lines, i), earliest)
         == EarliestFrom(Times(k, p, lines, i + 1),
                         if IsWitnessLine(k, p, lines[i]) then Earlier(earliest, TimeOf(lines[i])) else earliest)
  {
    hide IsWitnessLine;
    var rest := Times(k, p, lines, i + 1);
    if IsWitnessLine(k, p, lines[i]) {
      assert ([TimeOf(lines[i])] + rest)[1..] == rest;
    } else {
      assert [] + rest == rest;
    }
  }

  lemma {:induction false} ScanMeaning(k: Keys, p: Policy, text: Bytes, lines: seq<SigLine>, i: nat, s: Scanning)
    requires i <= |lines| && Distinct(s.cosigners)
    ensures var r := ScanLines(k, p, text, lines, i, s);
            && (r.Scan? <==> !Failing(k, p, text, lines, i))
            && (r.Scan? ==>
                  && (r.logSigned <==> s.logSigned || LogSignedFrom(k, p, lines, i))
                  && Distinct(r.cosigners)
                  && SetOf(r.cosigners) == SetOf(s.cosigners) + CosignerSet(k, p, lines, i)
                  && r.earliest == EarliestFrom(Times(k, p, lines, i), s.earliest))
    decreases |lines| - i
  {
    hide ScanLine, Fails, IsLogLine, IsWitnessLine;
    if i < |lines| {
      ScanLineMeaning(k, p, text, lines, i, s);
      hide CosignerSet, Times, EarliestFrom, SetOf, Distinct;
      var r := ScanLine(k, p, text, lines[i], s);
      if r.Scan? { ScanMeaning(k, p, text, lines, i + 1, r); }
    }
  }

  // ------------------------------------------------------------------ the verdict

  /** A note the policy accepts: the log signed, no line of a known key fails or is ambiguous, and
      a quorum of distinct witnesses signed; within 100 lines, for the policy's own log. */
  ghost predicate Acceptable(k: Keys, p: Policy, n: Note) {
    && PolicyValid(k, p)
    && |n.lines| <= MAX_LINES
    && !Spoiling(k, p, n.text, n.lines)
    && LogSigned(k, p, n.lines)
    && CF.Parse(n.text).Ok? && CF.Parse(n.text).value.origin == p.origin
    && |CosignerSet(k, p, n.lines, 0)| >= p.quorum
  }

  lemma {:induction false} DistinctCount(s: seq<Bytes>)
    requires Distinct(s)
    ensures |SetOf(s)| == |s|
  {
    if s == [] {
      assert SetOf(s) == {};
    } else {
      LastIsNew(s);
      hide SetOf, Distinct;
      DistinctCount(Init(s));
    }
  }

  lemma LastIsNew(s: seq<Bytes>)
    requires s != [] && Distinct(s)
    ensures Distinct(Init(s)) && Last(s) !in SetOf(Init(s)) && SetOf(s) == SetOf(Init(s)) + {Last(s)}
  {
    assert s == Init(s) + [Last(s)];
    assert forall i :: 0 <= i < |s| - 1 ==> Init(s)[i] == s[i];
    AddName(Init(s), Last(s));
  }

  lemma SpoilsIs(k: Keys, p: Policy, text: Bytes, lines: seq<SigLine>)
    ensures Spoiling(k, p, text, lines) <==> HasAmbiguous(k, p, lines) || Failing(k, p, text, lines, 0)
    ensures LogSigned(k, p, lines) <==> LogSignedFrom(k, p, lines, 0)
  {
    hide LogVerifies, WitnessVerifies, LogOf, WitnessOf;
    hide IsLogLine, NamesWitness;
    assert forall i :: 0 <= i < |lines| ==>
      (Spoils(k, p, text, lines[i])
       <==> (IsLogLine(k, p, lines[i]) && NamesWitness(k, p, lines[i])) || Fails(k, p, text, lines[i]));
  }

  /** VerifyNote accepts exactly the acceptable notes, whatever order the policy lists its
      witnesses in. The witnesses it names are those with a line, each once; the provable time is
      the earliest of all their lines, as the loop computes it. */
  lemma VerdictExact(k: Keys, p: Policy, order: seq<Bytes>, n: Note)
    requires Lists(order, p)
    ensures var v := Judge(k, p, order, n);
            && (v.Accepted? <==> Acceptable(k, p, n))
            && (v.Accepted? ==>
                  && CF.Parse(n.text) == CF.Ok(v.checkpoint)
                  && Distinct(v.cosigners) && SetOf(v.cosigners) == CosignerSet(k, p, n.lines, 0)
                  && v.provableTime == EarliestFrom(Times(k, p, n.lines, 0), ZERO_TIME))
  {
    hide CosignerSet, Times, EarliestFrom, Spoiling, HasAmbiguous, Failing, LogSigned, LogSignedFrom, PolicyValid;
    hide OpenLines, ScanLines, NamesOf, CF.Parse;
    OpenLinesMeaning(k, p, order, n.text, n.lines, Notes.Opened([], []));
    ScanMeaning(k, p, n.text, n.lines, 0, NOTHING);
    SpoilsIs(k, p, n.text, n.lines);
    var s := ScanLines(k, p, n.text, n.lines, 0, NOTHING);
    if s.Scan? {
      assert SetOf([]) == {};
      DistinctCount(s.cosigners);
      hide SetOf, Distinct;
    }
  }

  /** VerifyNote, as the source runs it. */
  method VerifyNote(k: Keys, p: Policy, order: seq<Bytes>, n: Note) returns (v: Verdict)
    requires Lists(order, p)
    ensures v == Judge(k, p, order, n)
  {
    hide ScanLines, PolicyValid, VerifyCheckpoint, NamesOf, IsLogLine, NamesWitness, LogVerifies, WitnessVerifies;
    if !PolicyValid(k, p) { return Refused(BadPolicy); }
    var opening := VerifyCheckpoint([LogOf(k, p)] + Witnesses(k, p, order), n);
    if opening.None? { return Refused(NotOpenable); }
    var (c, found) := opening.value;
    if c.origin != p.origin { return Refused(WrongOrigin); }
    var logSigned, cosigners: seq<Bytes>, earliest, i := false, [], ZERO_TIME, 0;
    while i < |n.lines|
      invariant i <= |n.lines|
      invariant ScanLines(k, p, n.text, n.lines, i, Scan(logSigned, cosigners, earliest))
             == ScanLines(k, p, n.text, n.lines, 0, NOTHING)
    {
      var l := n.lines[i];
      ScanStep(k, p, n.text, n.lines, i, Scan(logSigned, cosigners, earliest));
      if IsLogLine(k, p, l) {
        if !LogVerifies(k, p, n.text, l) { return Refused(BadSignature); }
        logSigned := true;
      } else if NamesWitness(k, p, l) {
        if !WitnessVerifies(k, p, n.text, l) { return Refused(BadSignature); }
        CosignatureOf(k, p, n.text, l);
        var ts := Instant(l.blob.time);
        if l.name !in cosigners { cosigners := cosigners + [l.name]; }
        if earliest == ZERO_TIME || ts < earliest { earliest := ts; }
      }
      i := i + 1;
    }
    ScanEnd(k, p, n.text, n.lines, Scan(logSigned, cosigners, earliest));
    if !logSigned { return Refused(WrongOrigin); }
    if |cosigners| < p.quorum { return Refused(NoQuorum); }
    return Accepted(c, cosigners, earliest, NamesOf(found.unverified, p, true), NamesOf(found.unverified, p, false));
  }

  lemma CosignatureOf(k: Keys, p: Policy, text: Bytes, l: SigLine)
    requires NamesWitness(k, p, l) && WitnessVerifies(k, p, text, l)
    ensures l.blob.CosignatureBlob?
  {
  }

  lemma ScanStep(k: Keys, p: Policy, text: Bytes, lines: seq<SigLine>, i: nat, s: Scanning)
    requires i < |lines|
    ensures var r := ScanLine(k, p, text, lines[i], s);
            ScanLines(k, p, text, lines, i, s) == if r.Spoiled? then Spoiled else ScanLines(k, p, text, lines, i + 1, r)
  {
  }

  lemma ScanEnd(k: Keys, p: Policy, text: Bytes, lines: seq<SigLine>, s: Scanning)
    ensures ScanLines(k, p, text, lines, |lines|, s) == s
  {
  }

  // ------------------------------------------------------------ the provable time

  predicate IsMin(m: int, times: seq<int>) {
    m in times && forall i :: 0 <= i < |times| ==> m <= times[i]
  }

  /** The times for which the zero instant is mistaken for none seen: it is the earliest, and
      there is a later one. */
  predicate Ambivalent(times: seq<int>) {
    && ZERO_TIME in times
    && (forall i :: 0 <= i < |times| ==> ZERO_TIME <= times[i])
    && (exists i :: 0 <= i < |times| && ZERO_TIME < times[i])
  }

  /** Once a time before year 1 is held, or no time is the zero instant, the loop keeps the minimum. */
  lemma {:induction false} KeepsMinimum(times: seq<int>, e: int)
    requires e != ZERO_TIME && (e < ZERO_TIME || ZERO_TIME !in times)
    ensures IsMin(EarliestFrom(times, e), [e] + times)
  {
    if times != [] {
      var next := Earlier(e, times[0]);
      assert times[0] in times;
      assert forall x :: x in times[1..] ==> x in times;
      KeepsMinimum(times[1..], next);
      var m := EarliestFrom(times[1..], next);
      assert m in [next] + times[1..];
      MinOfMore(m, e, times);
    }
  }

  lemma MinOfMore(m: int, e: int, times: seq<int>)
    requires times != []
    requires var next := if times[0] < e then times[0] else e; IsMin(m, [next] + times[1..])
    ensures IsMin(m, [e] + times)
  {
    var next := if times[0] < e then times[0] else e;
    var a, b := [next] + times[1..], [e] + times;
    assert m <= a[0] == next;
    assert forall i :: 0 < i < |times| ==> times[i] == a[i];
    assert times == [times[0]] + times[1..];
    assert forall x :: x in a ==> x in b;
  }

  lemma {:induction false} FindsEarlierThanZero(times: seq<int>, e: int)
    requires e >= ZERO_TIME && exists i :: 0 <= i < |times| && times[i] < ZERO_TIME
    ensures IsMin(EarliestFrom(times, e), times)
  {
    var t, rest := times[0], times[1..];
    assert times == [t] + rest;
    if t < ZERO_TIME {
      KeepsMinimum(rest, t);
    } else {
      var i :| 0 <= i < |times| && times[i] < ZERO_TIME;
      assert rest[i - 1] == times[i];
      FindsEarlierThanZero(rest, Earlier(e, t));
      var m := EarliestFrom(rest, Earlier(e, t));
      assert m <= rest[i - 1];
    }
  }

  lemma {:induction false} OnlyZeros(times: seq<int>)
    requires forall i :: 0 <= i < |times| ==> times[i] == ZERO_TIME
    ensures EarliestFrom(times, ZERO_TIME) == ZERO_TIME
  {
    if times != [] { OnlyZeros(times[1..]); }
  }

  lemma EarliestIsMin(times: seq<int>)
    requires times != [] && !Ambivalent(times)
    ensures IsMin(EarliestFrom(times, ZERO_TIME), times)
  {
    if exists i :: 0 <= i < |times| && times[i] < ZERO_TIME {
      FindsEarlierThanZero(times, ZERO_TIME);
    } else if ZERO_TIME in times {
      OnlyZeros(times);
    } else {
      assert times == [times[0]] + times[1..];
      assert times[0] in times && forall x :: x in times[1..] ==> x in times;
      KeepsMinimum(times[1..], times[0]);
    }
  }

  function Zeros(times: seq<int>, zero: bool): seq<int> {
    if times == [] then []
    else (if (times[0] == ZERO_TIME) == zero then [times[0]] else []) + Zeros(times[1..], zero)
  }

  lemma {:induction false} ZerosAre(times: seq<int>, zero: bool)
    ensures forall i :: 0 <= i < |Zeros(times, zero)| ==> (Zeros(times, zero)[i] == ZERO_TIME) == zero
  {
    if times != [] { ZerosAre(times[1..], zero); }
  }

  lemma {:induction false} ZerosCount(times: seq<int>)
    ensures multiset(Zeros(times, true)) + multiset(Zeros(times, false)) == multiset(times)
  {
    if times != [] {
      hide Zeros;
      ZerosCount(times[1..]);
      ZerosStep(times);
      FirstCounted(times);
      AddOne(times[0], multiset(Zeros(times[1..], true)), multiset(Zeros(times[1..], false)), multiset(times[1..]));
    }
  }

  lemma FirstCounted(times: seq<int>)
    requires times != []
    ensures multiset(times) == multiset{times[0]} + multiset(times[1..])
  {
    assert times == [times[0]] + times[1..];
  }

  lemma AddOne(t: int, a: multiset<int>, b: multiset<int>, r: multiset<int>)
    requires a + b == r
    ensures (multiset{t} + a) + b == multiset{t} + r && a + (multiset{t} + b) == multiset{t} + r
  {
  }

  lemma ZerosStep(times: seq<int>)
    requires times != []
    ensures var zero := times[0] == ZERO_TIME;
            && multiset(Zeros(times, zero)) == multiset{times[0]} + multiset(Zeros(times[1..], zero))
            && multiset(Zeros(times, !zero)) == multiset(Zeros(times[1..], !zero))
  {
    var zero := times[0] == ZERO_TIME;
    assert Zeros(times, zero) == [times[0]] + Zeros(times[1..], zero);
    assert Zeros(times, !zero) == [] + Zeros(times[1..], !zero) == Zeros(times[1..], !zero);
    hide Zeros;
  }

  lemma {:induction false} AfterZeros(zeros: seq<int>, others: seq<int>)
    requires forall i :: 0 <= i < |zeros| ==> zeros[i] == ZERO_TIME
    ensures EarliestFrom(zeros + others, ZERO_TIME) == EarliestFrom(others, ZERO_TIME)
  {
    if zeros == [] {
      assert zeros + others == others;
    } else {
      assert (zeros + others)[1..] == zeros[1..] + others;
      AfterZeros(zeros[1..], others);
    }
  }

  /** The same times in an order for which the loop misses the earliest. */
  lemma AmbivalentOrder(times: seq<int>) returns (bad: seq<int>)
    requires Ambivalent(times)
    ensures multiset(bad) == multiset(times) && EarliestFrom(bad, ZERO_TIME) > ZERO_TIME
  {
    hide Zeros, EarliestFrom;
    var zeros, others := Zeros(times, true), Zeros(times, false);
    bad := zeros + others;
    ZerosAre(times, true);
    ZerosCount(times);
    AfterZeros(zeros, others);
    OthersAreLater(times);
    EarliestIsMin(others);
  }

  lemma OthersAreLater(times: seq<int>)
    requires Ambivalent(times)
    ensures var others := Zeros(times, false);
            others != [] && !Ambivalent(others) && forall x :: x in others ==> x > ZERO_TIME
  {
    ZerosAre(times, true);
    ZerosAre(times, false);
    ZerosCount(times);
    hide Zeros;
    var zeros, others := Zeros(times, true), Zeros(times, false);
    var i :| 0 <= i < |times| && ZERO_TIME < times[i];
    assert times[i] in multiset(times);
    assert times[i] in multiset(zeros) || times[i] in multiset(others);
    forall x | x in others ensures x > ZERO_TIME {
      assert x in multiset(others) && x in multiset(times);
      assert x in times;
    }
  }

  /** The provable time is the earliest time in whatever order the lines come, exactly when the
      zero instant is not the earliest of times among which there is a later one. */
  lemma EarliestExact(times: seq<int>)
    requires times != []
    ensures (forall q :: multiset(q) == multiset(times) ==> IsMin(EarliestFrom(q, ZERO_TIME), q))
            <==> !Ambivalent(times)
  {
    if Ambivalent(times) {
      var bad := AmbivalentOrder(times);
      assert ZERO_TIME in multiset(times) && ZERO_TIME in multiset(bad);
      assert ZERO_TIME in bad;
    } else {
      forall q | multiset(q) == multiset(times) ensures IsMin(EarliestFrom(q, ZERO_TIME), q) {
        assert times[0] in multiset(q);
        SameMembers(q, times);
        EarliestIsMin(q);
      }
    }
  }

  lemma SameMembers(q: seq<int>, times: seq<int>)
    requires multiset(q) == multiset(times)
    ensures Ambivalent(q) == Ambivalent(times)
  {
    assert forall x :: x in q <==> x in multiset(q);
    assert forall x :: x in times <==> x in multiset(times);
    SameSet(q, times);
  }

  lemma SameSet(q: seq<int>, times: seq<int>)
    requires forall x :: x in q <==> x in times
    ensures Ambivalent(q) == Ambivalent(times)
  {
    if Ambivalent(q) { AmbivalentCarries(q, times); }
    if Ambivalent(times) { AmbivalentCarries(times, q); }
  }

  lemma AmbivalentCarries(q: seq<int>, times: seq<int>)
    requires forall x :: x in q <==> x in times
    requires Ambivalent(q)
    ensures Ambivalent(times)
  {
    var i :| 0 <= i < |q| && ZERO_TIME < q[i];
    assert q[i] in times;
    forall j | 0 <= j < |times| ensures ZERO_TIME <= times[j] {
      var x := times[j];
      assert x in times;
      assert x in q;
    }
  }

  // ---------------------------------------------------- what the verdict depends on

  predicate IsKnown(k: Keys, p: Policy, l: SigLine) {
    IsLogLine(k, p, l) || NamesWitness(k, p, l)
  }

  /** Two sets of lines with the same lines of known keys, in any order, repeated or not, and with
      any lines of unknown keys beside them. */
  ghost predicate SameKnownLines(k: Keys, p: Policy, a: seq<SigLine>, b: seq<SigLine>) {
    forall l :: IsKnown(k, p, l) ==> (l in a <==> l in b)
  }

  lemma KnownFacts(k: Keys, p: Policy, text: Bytes, a: seq<SigLine>, b: seq<SigLine>)
    requires SameKnownLines(k, p, a, b)
    ensures Spoiling(k, p, text, a) ==> Spoiling(k, p, text, b)
    ensures LogSigned(k, p, a) ==> LogSigned(k, p, b)
    ensures CosignerSet(k, p, a, 0) <= CosignerSet(k, p, b, 0)
  {
    hide LogVerifies, WitnessVerifies, LogOf, WitnessOf;
    hide IsLogLine, NamesWitness;
    forall i | 0 <= i < |a| && IsKnown(k, p, a[i]) ensures a[i] in b { assert a[i] in a; }
  }

  lemma {:induction false} TimesAre(k: Keys, p: Policy, lines: seq<SigLine>, i: nat, t: int)
    requires i <= |lines|
    ensures t in Times(k, p, lines, i) <==>
              exists j :: i <= j < |lines| && IsWitnessLine(k, p, lines[j]) && TimeOf(lines[j]) == t
    decreases |lines| - i
  {
    hide IsWitnessLine, TimeOf;
    if i < |lines| { TimesAre(k, p, lines, i + 1, t); }
  }

  lemma TimesCarry(k: Keys, p: Policy, a: seq<SigLine>, b: seq<SigLine>, t: int)
    requires SameKnownLines(k, p, a, b) && t in Times(k, p, a, 0)
    ensures t in Times(k, p, b, 0)
  {
    TimesAre(k, p, a, 0, t);
    TimesAre(k, p, b, 0, t);
    hide Times, TimeOf, IsLogLine, NamesWitness;
    var j :| 0 <= j < |a| && IsWitnessLine(k, p, a[j]) && TimeOf(a[j]) == t;
    assert a[j] in a && IsKnown(k, p, a[j]);
    assert a[j] in b;
  }

  lemma SameEarliest(q: seq<int>, times: seq<int>)
    requires forall x :: x in q <==> x in times
    requires !Ambivalent(times)
    ensures EarliestFrom(q, ZERO_TIME) == EarliestFrom(times, ZERO_TIME)
  {
    SameSet(q, times);
    assert (q != [] ==> q[0] in q) && (times != [] ==> times[0] in times);
    if times != [] {
      EarliestIsMin(times);
      EarliestIsMin(q);
      hide Ambivalent, EarliestFrom;
      MinIsOne(EarliestFrom(q, ZERO_TIME), q, EarliestFrom(times, ZERO_TIME), times);
    }
  }

  lemma MinIsOne(m: int, a: seq<int>, n: int, b: seq<int>)
    requires IsMin(m, a) && IsMin(n, b) && forall x :: x in a <==> x in b
    ensures m == n
  {
    assert m in b && n in a;
  }

  /** The verdict, the witnesses named and the provable time depend only on which lines of known
      keys there are: not on their order, not on repetitions, not on lines of unknown keys, within
      the 100 lines. The time needs the condition of EarliestExact. */
  lemma KnownLinesDecide(k: Keys, p: Policy, order: seq<Bytes>, n: Note, order': seq<Bytes>, n': Note)
    requires Lists(order, p) && Lists(order', p)
    requires n.text == n'.text && |n.lines| <= MAX_LINES && |n'.lines| <= MAX_LINES
    requires SameKnownLines(k, p, n.lines, n'.lines)
    ensures var v, v' := Judge(k, p, order, n), Judge(k, p, order', n');
            && v.Accepted? == v'.Accepted?
            && (v.Accepted? ==>
                  && v.checkpoint == v'.checkpoint
                  && SetOf(v.cosigners) == SetOf(v'.cosigners)
                  && (!Ambivalent(Times(k, p, n.lines, 0)) ==> v.provableTime == v'.provableTime))
  {
    hide *;
    VerdictExact(k, p, order, n);
    VerdictExact(k, p, order', n');
    AcceptableSame(k, p, n, n');
    TimesSame(k, p, n.lines, n'.lines);
  }

  lemma AcceptableSame(k: Keys, p: Policy, n: Note, n': Note)
    requires n.text == n'.text && |n.lines| <= MAX_LINES && |n'.lines| <= MAX_LINES
    requires SameKnownLines(k, p, n.lines, n'.lines)
    ensures Acceptable(k, p, n) == Acceptable(k, p, n')
    ensures CosignerSet(k, p, n.lines, 0) == CosignerSet(k, p, n'.lines, 0)
  {
    hide *;
    SameKnownBoth(k, p, n.lines, n'.lines);
    KnownFacts(k, p, n.text, n.lines, n'.lines);
    KnownFacts(k, p, n.text, n'.lines, n.lines);
    AcceptableBy(k, p, n, n');
  }

  lemma AcceptableBy(k: Keys, p: Policy, n: Note, n': Note)
    requires n.text == n'.text && |n.lines| <= MAX_LINES && |n'.lines| <= MAX_LINES
    requires Spoiling(k, p, n.text, n.lines) == Spoiling(k, p, n.text, n'.lines)
    requires LogSigned(k, p, n.lines) == LogSigned(k, p, n'.lines)
    requires CosignerSet(k, p, n.lines, 0) == CosignerSet(k, p, n'.lines, 0)
    ensures Acceptable(k, p, n) == Acceptable(k, p, n')
  {
    hide CosignerSet, Spoiling, LogSigned, PolicyValid, CF.Parse;
  }

  lemma SameKnownBoth(k: Keys, p: Policy, a: seq<SigLine>, b: seq<SigLine>)
    requires SameKnownLines(k, p, a, b)
    ensures SameKnownLines(k, p, b, a)
  {
    hide IsKnown;
  }

  lemma TimesSame(k: Keys, p: Policy, a: seq<SigLine>, b: seq<SigLine>)
    requires SameKnownLines(k, p, a, b)
    ensures !Ambivalent(Times(k, p, a, 0)) ==>
              EarliestFrom(Times(k, p, a, 0), ZERO_TIME) == EarliestFrom(Times(k, p, b, 0), ZERO_TIME)
  {
    hide Ambivalent, EarliestFrom, Times, IsKnown;
    forall t ensures t in Times(k, p, a, 0) <==> t in Times(k, p, b, 0) {
      if t in Times(k, p, a, 0) { TimesCarry(k, p, a, b, t); }
      if t in Times(k, p, b, 0) { TimesCarry(k, p, b, a, t); }
    }
    if !Ambivalent(Times(k, p, a, 0)) { SameEarliest(Times(k, p, b, 0), Times(k, p, a, 0)); }
  }

  /** Timestamps below 2^63 always meet the condition. */
  lemma NoWrapNoAmbivalence(k: Keys, p: Policy, lines: seq<SigLine>)
    requires forall i :: 0 <= i < |lines| && IsWitnessLine(k, p, lines[i]) ==>
                           lines[i].blob.CosignatureBlob? && lines[i].blob.time < 0x8000_0000_0000_0000
    ensures !Ambivalent(Times(k, p, lines, 0))
  {
    TimesAre(k, p, lines, 0, ZERO_TIME);
    hide Times, IsWitnessLine;
  }
}
