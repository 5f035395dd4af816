/** When the order of a note's signature lines changes its provable time: exactly for the notes in
    which one cosignature is at Go's zero instant, none is before it and another is after it. */
module ProofNoteOrder {
  import opened Bytes
  import CF = CheckpointFormat
  import opened Notes
  import opened ProofNote

  // ------------------------------------------------------------ the zero instant

  /** The one timestamp of 64 bits that the source turns into the instant it uses for "none yet". */
  const ZERO_STAMP: nat := 0x1_0000_0000_0000_0000 - 62135596800

  lemma ZeroInstantIsOneStamp(t: nat)
    requires t < 0x1_0000_0000_0000_0000
    ensures Instant(t) == ZERO_TIME <==> t == ZERO_STAMP
  {
    assert ZERO_STAMP == 18446744011573954816;
  }

  // ------------------------------------------------------- the lines in two parts

  predicate IsZeroLine(k: Keys, p: Policy, l: SigLine) {
    IsWitnessLine(k, p, l) && TimeOf(l) == ZERO_TIME
  }

  /** The lines that are cosignatures at the zero instant, or the others, in their order. */
  function Part(k: Keys, p: Policy, lines: seq<SigLine>, zero: bool): seq<SigLine> {
    if lines == [] then []
    else (if IsZeroLine(k, p, lines[0]) == zero then [lines[0]] else []) + Part(k, p, lines[1..], zero)
  }

  lemma {:induction false} PartsAre(k: Keys, p: Policy, lines: seq<SigLine>, zero: bool)
    ensures forall l :: l in Part(k, p, lines, zero) ==> l in lines && IsZeroLine(k, p, l) == zero
  {
    hide IsZeroLine;
    if lines != [] { PartsAre(k, p, lines[1..], zero); }
  }

  lemma {:induction false} PartsTogether(k: Keys, p: Policy, lines: seq<SigLine>)
    ensures multiset(Part(k, p, lines, true)) + multiset(Part(k, p, lines, false)) == multiset(lines)
  {
    hide *;
    if lines != [] {
      var l, rest := lines[0], lines[1..];
      PartsTogether(k, p, rest);
      PartsStep(k, p, lines);
      FirstLine(lines);
      AddLine(l, multiset(Part(k, p, rest, true)), multiset(Part(k, p, rest, false)), multiset(rest));
    } else {
      NoParts(k, p);
    }
  }

  lemma FirstLine(lines: seq<SigLine>)
    requires lines != []
    ensures multiset(lines) == multiset{lines[0]} + multiset(lines[1..])
  {
    assert lines == [lines[0]] + lines[1..];
  }

  lemma NoParts(k: Keys, p: Policy)
    ensures Part(k, p, [], true) == [] && Part(k, p, [], false) == []
  {
  }

  lemma PartsStep(k: Keys, p: Policy, lines: seq<SigLine>)
    requires lines != []
    ensures var zero := IsZeroLine(k, p, lines[0]);
            && multiset(Part(k, p, lines, zero)) == multiset{lines[0]} + multiset(Part(k, p, lines[1..], zero))
            && multiset(Part(k, p, lines, !zero)) == multiset(Part(k, p, lines[1..], !zero))
  {
    hide IsZeroLine;
    var zero := IsZeroLine(k, p, lines[0]);
    assert Part(k, p, lines, zero) == [lines[0]] + Part(k, p, lines[1..], zero);
    assert Part(k, p, lines, !zero) == [] + Part(k, p, lines[1..], !zero) == Part(k, p, lines[1..], !zero);
    hide Part;
  }

  lemma AddLine(l: SigLine, a: multiset<SigLine>, b: multiset<SigLine>, r: multiset<SigLine>)
    requires a + b == r
    ensures (multiset{l} + a) + b == multiset{l} + r && a + (multiset{l} + b) == multiset{l} + r
  {
  }

  // -------------------------------------------------- the times of lines in a row

  lemma {:induction false} TimesShift(k: Keys, p: Policy, lines: seq<SigLine>, i: nat)
    requires 0 < i <= |lines|
    ensures Times(k, p, lines, i) == Times(k, p, lines[1..], i - 1)
    decreases |lines| - i
  {
    hide IsWitnessLine, TimeOf;
    if i < |lines| {
      TimesShift(k, p, lines, i + 1);
      assert lines[1..][i - 1] == lines[i];
    }
  }

  lemma {:induction false} TimesInARow(k: Keys, p: Policy, a: seq<SigLine>, b: seq<SigLine>)
    ensures Times(k, p, a + b, 0) == Times(k, p, a, 0) + Times(k, p, b, 0)
  {
    hide IsWitnessLine, TimeOf;
    if a == [] {
      assert a + b == b;
    } else {
      assert (a + b)[1..] == a[1..] + b && (a + b)[0] == a[0];
      TimesShift(k, p, a, 1);
      TimesShift(k, p, a + b, 1);
      TimesInARow(k, p, a[1..], b);
    }
  }

  lemma {:induction false} EarliestInARow(a: seq<int>, b: seq<int>, e: int)
    ensures EarliestFrom(a + b, e) == EarliestFrom(b, EarliestFrom(a, e))
  {
    hide Earlier;
    if a == [] {
      assert a + b == b;
    } else {
      assert (a + b)[1..] == a[1..] + b && (a + b)[0] == a[0];
      EarliestInARow(a[1..], b, Earlier(e, a[0]));
    }
  }

  /** Zero instants first, and the loop returns the earliest of the others; last, and it returns
      the zero instant. */
  lemma ZerosFirstOrLast(zeros: seq<int>, others: seq<int>)
    requires zeros != [] && forall x :: x in zeros ==> x == ZERO_TIME
    requires others != [] && forall x :: x in others ==> x > ZERO_TIME
    ensures EarliestFrom(zeros + others, ZERO_TIME) > ZERO_TIME
    ensures EarliestFrom(others + zeros, ZERO_TIME) == ZERO_TIME
  {
    forall i | 0 <= i < |zeros| ensures zeros[i] == ZERO_TIME { assert zeros[i] in zeros; }
    AfterZeros(zeros, others);
    assert !Ambivalent(others);
    EarliestIsMin(others);
    EarliestInARow(others, zeros, ZERO_TIME);
    assert zeros[0] in zeros && (forall x :: x in zeros[1..] ==> x in zeros);
    OnlyZeros(zeros[1..]);
  }

  // -------------------------------------------------------------------- theorem

  /** The two orders of an ambivalent note's lines: its cosignatures at the zero instant first, and last. */
  lemma TwoOrders(k: Keys, p: Policy, lines: seq<SigLine>) returns (first: seq<SigLine>, last: seq<SigLine>)
    requires Ambivalent(Times(k, p, lines, 0))
    ensures multiset(first) == multiset(lines) && multiset(last) == multiset(lines)
    ensures EarliestFrom(Times(k, p, first, 0), ZERO_TIME) != EarliestFrom(Times(k, p, last, 0), ZERO_TIME)
  {
    var zeros, others := Part(k, p, lines, true), Part(k, p, lines, false);
    first, last := zeros + others, others + zeros;
    PartsTogether(k, p, lines);
    PartTimes(k, p, lines);
    TimesInARow(k, p, zeros, others);
    TimesInARow(k, p, others, zeros);
    hide Part, Times, EarliestFrom, Ambivalent;
    ZerosFirstOrLast(Times(k, p, zeros, 0), Times(k, p, others, 0));
  }

  lemma PartTimes(k: Keys, p: Policy, lines: seq<SigLine>)
    requires Ambivalent(Times(k, p, lines, 0))
    ensures var z, o := Times(k, p, Part(k, p, lines, true), 0), Times(k, p, Part(k, p, lines, false), 0);
            && z != [] && (forall x :: x in z ==> x == ZERO_TIME)
            && o != [] && (forall x :: x in o ==> x > ZERO_TIME)
  {
    var t := Times(k, p, lines, 0);
    var i :| 0 <= i < |t| && ZERO_TIME < t[i];
    forall x ensures x in Times(k, p, Part(k, p, lines, true), 0) <==> x in t && x == ZERO_TIME {
      PartHasTime(k, p, lines, true, x);
    }
    forall x ensures x in Times(k, p, Part(k, p, lines, false), 0) <==> x in t && x != ZERO_TIME {
      PartHasTime(k, p, lines, false, x);
    }
    hide Times, Part;
    assert t[i] in t;
  }

  lemma {:induction false} InSomePart(k: Keys, p: Policy, lines: seq<SigLine>, l: SigLine)
    requires l in lines
    ensures l in Part(k, p, lines, IsZeroLine(k, p, l))
  {
    hide IsZeroLine;
    if l != lines[0] {
      assert lines == [lines[0]] + lines[1..];
      InSomePart(k, p, lines[1..], l);
    }
  }

  lemma PartHasTime(k: Keys, p: Policy, lines: seq<SigLine>, zero: bool, x: int)
    ensures x in Times(k, p, Part(k, p, lines, zero), 0) <==> x in Times(k, p, lines, 0) && (x == ZERO_TIME) == zero
  {
    var part := Part(k, p, lines, zero);
    TimesAre(k, p, part, 0, x);
    TimesAre(k, p, lines, 0, x);
    PartsAre(k, p, lines, zero);
    hide Part, Times, IsWitnessLine, TimeOf;
    if x in Times(k, p, part, 0) {
      var j :| 0 <= j < |part| && IsWitnessLine(k, p, part[j]) && TimeOf(part[j]) == x;
      assert part[j] in part;
      assert part[j] in lines;
    }
    if x in Times(k, p, lines, 0) && (x == ZERO_TIME) == zero {
      var j :| 0 <= j < |lines| && IsWitnessLine(k, p, lines[j]) && TimeOf(lines[j]) == x;
      InSomePart(k, p, lines, lines[j]);
      assert lines[j] in part;
    }
  }

  lemma Reordered(k: Keys, p: Policy, order: seq<Bytes>, n: Note, n': Note)
    requires Lists(order, p) && Judge(k, p, order, n).Accepted?
    requires n'.text == n.text && multiset(n'.lines) == multiset(n.lines)
    ensures var v, v' := Judge(k, p, order, n), Judge(k, p, order, n');
            && v'.Accepted? && v'.checkpoint == v.checkpoint && SetOf(v'.cosigners) == SetOf(v.cosigners)
            && v.provableTime == EarliestFrom(Times(k, p, n.lines, 0), ZERO_TIME)
            && v'.provableTime == EarliestFrom(Times(k, p, n'.lines, 0), ZERO_TIME)
            && (!Ambivalent(Times(k, p, n.lines, 0)) ==> v'.provableTime == v.provableTime)
  {
    hide *;
    SameLines(k, p, n.lines, n'.lines);
    FewLines(k, p, order, n);
    KnownLinesDecide(k, p, order, n, order, n');
    VerdictExact(k, p, order, n);
    VerdictExact(k, p, order, n');
  }

  lemma FewLines(k: Keys, p: Policy, order: seq<Bytes>, n: Note)
    requires Lists(order, p) && Judge(k, p, order, n).Accepted?
    ensures |n.lines| <= MAX_LINES
  {
    hide OpenLines, ScanLines, PolicyValid;
  }

  lemma SameLines(k: Keys, p: Policy, a: seq<SigLine>, b: seq<SigLine>)
    requires multiset(a) == multiset(b)
    ensures SameKnownLines(k, p, a, b) && |a| == |b|
  {
    hide IsKnown;
    assert |multiset(a)| == |a| && |multiset(b)| == |b|;
    forall l ensures l in a <==> l in b {
      assert l in a <==> l in multiset(a);
      assert l in b <==> l in multiset(b);
    }
  }

  /** An accepted note with ambivalent times has its lines in another order too, which VerifyNote
      accepts just the same, with another provable time. */
  lemma AmbivalentReorders(k: Keys, p: Policy, order: seq<Bytes>, n: Note) returns (n': Note)
    requires Lists(order, p) && Judge(k, p, order, n).Accepted?
    requires Ambivalent(Times(k, p, n.lines, 0))
    ensures n'.text == n.text && multiset(n'.lines) == multiset(n.lines)
    ensures Judge(k, p, order, n').Accepted?
    ensures Judge(k, p, order, n').provableTime != Judge(k, p, order, n).provableTime
  {
    hide *;
    var first, last := TwoOrders(k, p, n.lines);
    Reordered(k, p, order, n, Note(n.text, first));
    Reordered(k, p, order, n, Note(n.text, last));
    var t := EarliestFrom(Times(k, p, first, 0), ZERO_TIME);
    n' := Note(n.text, if t != Judge(k, p, order, n).provableTime then first else last);
  }

  ghost predicate SameTimeInEveryOrder(k: Keys, p: Policy, order: seq<Bytes>, n: Note)
    requires Lists(order, p) && Judge(k, p, order, n).Accepted?
  {
    forall lines: seq<SigLine> :: multiset(lines) == multiset(n.lines) ==>
      var v := Judge(k, p, order, Note(n.text, lines));
      v.Accepted? && v.provableTime == Judge(k, p, order, n).provableTime
  }

  /** The provable time of an accepted note does not depend on the order of its signature lines,
      exactly when its times are not ambivalent. */
  lemma TimeByOrderExact(k: Keys, p: Policy, order: seq<Bytes>, n: Note)
    requires Lists(order, p) && Judge(k, p, order, n).Accepted?
    ensures SameTimeInEveryOrder(k, p, order, n) <==> !Ambivalent(Times(k, p, n.lines, 0))
  {
    hide Judge, Ambivalent, Times, Lists;
    if Ambivalent(Times(k, p, n.lines, 0)) {
      var n' := AmbivalentReorders(k, p, order, n);
      assert n' == Note(n.text, n'.lines);
    } else {
      forall lines: seq<SigLine> | multiset(lines) == multiset(n.lines)
        ensures Judge(k, p, order, Note(n.text, lines)).Accepted?
        ensures Judge(k, p, order, Note(n.text, lines)).provableTime == Judge(k, p, order, n).provableTime
      {
        Reordered(k, p, order, n, Note(n.text, lines));
      }
    }
  }

  // -------------------------------------------------------------------- a note

  /** A log's checkpoint with two cosignatures of one witness, at two instants. */
  function TwiceCosigned(k: Keys, p: Policy, text: Bytes, w: Bytes, t: nat, u: nat): Note
    requires w in p.witnesses
  {
    var log, me := LogOf(k, p), WitnessOf(k, w, p.witnesses[w]);
    Note(text, [SigLine(log.name, log.hash, LogBlob(Ed(log.key, text))),
                CosignatureLine(me, t, text), CosignatureLine(me, u, text)])
  }

  lemma TwiceCosignedIs(k: Keys, p: Policy, order: seq<Bytes>, c: CF.Checkpoint, text: Bytes, w: Bytes, t: nat, u: nat)
    requires Lists(order, p) && PolicyValid(k, p) && w in p.witnesses && p.quorum <= 1
    requires CF.Format(c) == CF.Ok(text) && c.origin == p.origin && |text| <= MAX_NOTE_BODY
    requires KeysApart(k, p)
    ensures var n := TwiceCosigned(k, p, text, w, t, u);
            && Judge(k, p, order, n).Accepted?
            && Times(k, p, n.lines, 0) == [Instant(t), Instant(u)]
            && Judge(k, p, order, n).provableTime == Earlier(Earlier(ZERO_TIME, Instant(t)), Instant(u))
  {
    hide *;
    var n := TwiceCosigned(k, p, text, w, t, u);
    CF.FormatExact(text, c);
    VerdictExact(k, p, order, n);
    TwiceCosignedLines(k, p, text, w, t, u);
    ThreeLines(k, p, n.lines);
    AcceptableIs(k, p, n, c, w);
    EarliestOfTwo(Instant(t), Instant(u));
  }

  lemma TwiceCosignedLines(k: Keys, p: Policy, text: Bytes, w: Bytes, t: nat, u: nat)
    requires KeysApart(k, p) && w in p.witnesses && |text| <= MAX_NOTE_BODY
    ensures var n := TwiceCosigned(k, p, text, w, t, u);
            && n.text == text && |n.lines| == 3
            && IsLogLine(k, p, n.lines[0]) && !IsWitnessLine(k, p, n.lines[0])
            && IsWitnessLine(k, p, n.lines[1]) && n.lines[1].name == w && TimeOf(n.lines[1]) == Instant(t)
            && IsWitnessLine(k, p, n.lines[2]) && n.lines[2].name == w && TimeOf(n.lines[2]) == Instant(u)
            && !Spoiling(k, p, text, n.lines)
  {
    LogLineIs(k, p, text);
    CosignatureIs(k, p, text, w, t);
    CosignatureIs(k, p, text, w, u);
    hide CosignatureLine, LogOf, WitnessOf, IsLogLine, IsWitnessLine, Spoils, TimeOf, Instant;
  }

  lemma AcceptableIs(k: Keys, p: Policy, n: Note, c: CF.Checkpoint, w: Bytes)
    requires PolicyValid(k, p) && p.quorum <= 1 && CF.Parse(n.text) == CF.Ok(c) && c.origin == p.origin
    requires |n.lines| == 3 && IsLogLine(k, p, n.lines[0]) && !Spoiling(k, p, n.text, n.lines)
    requires CosignerSet(k, p, n.lines, 0) == {w}
    ensures Acceptable(k, p, n)
  {
    hide PolicyValid, CF.Parse, IsLogLine, Spoiling, CosignerSet;
    assert LogSigned(k, p, n.lines);
  }

  /** The log's key and the witnesses' have different names or key IDs. */
  ghost predicate KeysApart(k: Keys, p: Policy) {
    p.origin in p.witnesses ==> LogOf(k, p).hash != WitnessOf(k, p.origin, p.witnesses[p.origin]).hash
  }

  lemma LogLineIs(k: Keys, p: Policy, text: Bytes)
    requires KeysApart(k, p)
    ensures var l := SigLine(LogOf(k, p).name, LogOf(k, p).hash, LogBlob(Ed(LogOf(k, p).key, text)));
            IsLogLine(k, p, l) && !IsWitnessLine(k, p, l) && !Spoils(k, p, text, l)
  {
  }

  lemma CosignatureIs(k: Keys, p: Policy, text: Bytes, w: Bytes, t: nat)
    requires KeysApart(k, p) && w in p.witnesses && |text| <= MAX_NOTE_BODY
    ensures var l := CosignatureLine(WitnessOf(k, w, p.witnesses[w]), t, text);
            IsWitnessLine(k, p, l) && l.name == w && !Spoils(k, p, text, l) && TimeOf(l) == Instant(t)
  {
    hide CosignedMessage;
  }

  lemma ThreeLines(k: Keys, p: Policy, lines: seq<SigLine>)
    requires |lines| == 3 && !IsWitnessLine(k, p, lines[0])
    requires IsWitnessLine(k, p, lines[1]) && IsWitnessLine(k, p, lines[2])
    ensures Times(k, p, lines, 0) == [TimeOf(lines[1]), TimeOf(lines[2])]
    ensures CosignerSet(k, p, lines, 0) == {lines[1].name, lines[2].name}
  {
    hide IsWitnessLine, TimeOf;
    assert Times(k, p, lines, 3) == [];
    assert Times(k, p, lines, 2) == [TimeOf(lines[2])];
    assert Times(k, p, lines, 1) == [TimeOf(lines[1]), TimeOf(lines[2])];
  }

  lemma EarliestOfTwo(t: int, u: int)
    ensures EarliestFrom([t, u], ZERO_TIME) == Earlier(Earlier(ZERO_TIME, t), u)
  {
    assert [t, u][1..] == [u] && [u][1..] == [];
    var e := Earlier(ZERO_TIME, t);
    assert EarliestFrom([u], e) == EarliestFrom([], Earlier(e, u));
  }

  /** A note that VerifyNote accepts with two provable times, a second after 1970 or the zero
      instant, by the order of the two cosignatures its witness gave. */
  lemma OneNoteTwoTimes(k: Keys, p: Policy, order: seq<Bytes>, c: CF.Checkpoint, text: Bytes, w: Bytes)
    requires Lists(order, p) && PolicyValid(k, p) && w in p.witnesses && p.quorum <= 1
    requires CF.Format(c) == CF.Ok(text) && c.origin == p.origin && |text| <= MAX_NOTE_BODY
    requires KeysApart(k, p)
    ensures var n, n' := TwiceCosigned(k, p, text, w, ZERO_STAMP, 1), TwiceCosigned(k, p, text, w, 1, ZERO_STAMP);
            && multiset(n.lines) == multiset(n'.lines)
            && Judge(k, p, order, n).Accepted? && Judge(k, p, order, n).provableTime == 1
            && Judge(k, p, order, n').Accepted? && Judge(k, p, order, n').provableTime == ZERO_TIME
  {
    hide Judge, Times, CF.Format, PolicyValid, CosignatureLine, LogOf, WitnessOf;
    TwiceCosignedIs(k, p, order, c, text, w, ZERO_STAMP, 1);
    TwiceCosignedIs(k, p, order, c, text, w, 1, ZERO_STAMP);
    ZeroInstantIsOneStamp(ZERO_STAMP);
  }
}
