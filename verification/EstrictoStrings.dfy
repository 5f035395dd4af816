/** Strings of the strict reader, with every escape of RFC 8259 section 7: exactly which texts it
    reads and what they say. */
module EstrictoStrings {
  import opened Bytes
  import opened EstrictoGrammar
  import Utf8

  /** One way to write a piece of a string. */
  datatype Piece = Plain(b: byte) | Short(e: byte) | Unicode(digits: Bytes) | Pair(high: Bytes, low: Bytes)

  predicate IsHigh(u: nat) { 0xD800 <= u <= 0xDBFF }

  predicate IsLow(u: nat) { 0xDC00 <= u <= 0xDFFF }

  /** The byte a short escape stands for. */
  function ShortValue(e: byte): Option<byte> {
    if e == QUOTE || e == BACKSLASH || e == 47 then Some(e)
    else if e == 98 then Some(8)
    else if e == 102 then Some(12)
    else if e == 110 then Some(10)
    else if e == 114 then Some(13)
    else if e == 116 then Some(9)
    else None
  }

  predicate ValidPiece(p: Piece) {
    match p
    case Plain(b) => b != QUOTE && b != BACKSLASH && b >= 0x20
    case Short(e) => ShortValue(e).Some?
    case Unicode(d) => |d| == 4 && Hex4(d).Some? && !IsHigh(Hex4(d).value) && !IsLow(Hex4(d).value)
    case Pair(h, l) =>
      |h| == 4 && |l| == 4 && Hex4(h).Some? && Hex4(l).Some? && IsHigh(Hex4(h).value) && IsLow(Hex4(l).value)
  }

  function Spell(p: Piece): Bytes {
    match p
    case Plain(b) => [b]
    case Short(e) => [BACKSLASH, e]
    case Unicode(d) => [BACKSLASH, 117] + d
    case Pair(h, l) => [BACKSLASH, 117] + h + [BACKSLASH, 117] + l
  }

  /** What a piece says: a byte as it is, or the UTF-8 of a code point. */
  function Meaning(p: Piece): Bytes
    requires ValidPiece(p)
  {
    match p
    case Plain(b) => [b]
    case Short(e) => [ShortValue(e).value]
    case Unicode(d) => Utf8Of(Hex4(d).value)
    case Pair(h, l) => Utf8Of(0x10000 + (Hex4(h).value - 0xD800) * 0x400 + (Hex4(l).value - 0xDC00))
  }

  predicate AllValid(ps: seq<Piece>) {
    forall i :: 0 <= i < |ps| ==> ValidPiece(ps[i])
  }

  function SpellAll(ps: seq<Piece>): Bytes {
    if ps == [] then [] else Spell(ps[0]) + SpellAll(ps[1..])
  }

  function MeaningAll(ps: seq<Piece>): Bytes
    requires AllValid(ps)
  {
    if ps == [] then [] else Meaning(ps[0]) + MeaningAll(ps[1..])
  }

  // --------------------------------------------------------------- code points

  /** The bytes appended for a code point that is not a surrogate are its one UTF-8 form. */
  lemma Utf8OfScalar(r: nat)
    requires r < 0x110000 && !IsHigh(r) && !IsLow(r)
    ensures Utf8.Width(Utf8Of(r)) == |Utf8Of(r)| && Utf8.CodePoint(Utf8Of(r)) == r && Utf8.Valid(Utf8Of(r))
  {
    var s := Utf8Of(r);
    if r >= 0x80 {
      Sextets(r);
    }
    assert Utf8.Width(s) == |s|;
    assert s[|s|..] == [];
  }

  lemma Sextets(r: nat)
    ensures r == r / 64 * 64 + r % 64
    ensures r / 64 == r / 4096 * 64 + r / 64 % 64
    ensures r / 4096 == r / 262144 * 64 + r / 4096 % 64
  {
  }

  // -------------------------------------------------------------- reading pieces

  lemma Hex4Local(d: Bytes, x: Bytes)
    requires |d| == 4
    ensures Hex4(d + x) == Hex4(d)
  {
  }

  lemma ReadsUnicode(d: Bytes, x: Bytes)
    requires ValidPiece(Unicode(d))
    ensures ReadPiece(Spell(Unicode(d)) + x) == Some((Meaning(Unicode(d)), x))
  {
    var t := Spell(Unicode(d)) + x;
    Hex4Local(d, x);
    hide Hex4, Utf8Of;
    assert t[1] == 117 && t[2..] == d + x && t[6..] == x;
  }

  lemma ReadsPair(h: Bytes, l: Bytes, x: Bytes)
    requires ValidPiece(Pair(h, l))
    ensures ReadPiece(Spell(Pair(h, l)) + x) == Some((Meaning(Pair(h, l)), x))
  {
    hide Hex4, Utf8Of, Spell;
    Hex4Local(h, [BACKSLASH, 117] + l + x);
    Hex4Local(l, x);
    PairText(h, l, x);
  }

  lemma PairText(h: Bytes, l: Bytes, x: Bytes)
    requires |h| == 4 && |l| == 4
    ensures var t := Spell(Pair(h, l)) + x;
            && |t| == 12 + |x| && t[0] == BACKSLASH && t[1] == 117 && t[6] == BACKSLASH && t[7] == 117
            && t[2..] == h + ([BACKSLASH, 117] + l + x) && t[8..] == l + x && t[12..] == x
  {
    FourParts([BACKSLASH, 117], h, [BACKSLASH, 117], l, x);
  }

  lemma FourParts(a: Bytes, h: Bytes, b: Bytes, l: Bytes, x: Bytes)
    requires |a| == |b| == 2 && |h| == |l| == 4
    ensures var t := a + h + b + l + x;
            && t[2..] == h + (b + l + x) && t[8..] == l + x && t[12..] == x
            && t[0] == a[0] && t[1] == a[1] && t[6] == b[0] && t[7] == b[1]
  {
    var p := a + h + b;
    Associate(a + h, b, l);
    Associate(a + h, b + l, x);
    Associate(a, h, b + l + x);
    Associate(p, l, x);
    CutAt(a, h + (b + l + x));
    CutAt(p, l + x);
    CutAt(p + l, x);
    hide *;
    assert p[0] == a[0] && p[1] == a[1] && p[6] == b[0] && p[7] == b[1];
  }

  lemma ReadsPiece(p: Piece, x: Bytes)
    requires ValidPiece(p)
    ensures ReadPiece(Spell(p) + x) == Some((Meaning(p), x))
    ensures (Spell(p) + x)[0] != QUOTE
  {
    var t := Spell(p) + x;
    match p
    case Plain(b) => assert t[1..] == x;
    case Short(e) => assert t[1] == e && t[2..] == x;
    case Unicode(d) =>
      hide Hex4, Utf8Of, Meaning;
      ReadsUnicode(d, x);
    case Pair(h, l) =>
      hide Hex4, Utf8Of, Meaning;
      ReadsPair(h, l, x);
  }

  lemma {:induction false} ReadsPieces(ps: seq<Piece>, x: Bytes)
    requires AllValid(ps)
    ensures ReadBody(SpellAll(ps) + [QUOTE] + x) == Some((MeaningAll(ps), x))
  {
    hide ReadPiece, Spell, Meaning, ValidPiece;
    var t := SpellAll(ps) + [QUOTE] + x;
    if ps == [] {
      assert t == [QUOTE] + x && t[1..] == x;
    } else {
      ReadsPieces(ps[1..], x);
      ReadsPiece(ps[0], SpellAll(ps[1..]) + [QUOTE] + x);
      assert t == Spell(ps[0]) + (SpellAll(ps[1..]) + [QUOTE] + x);
    }
  }

  /** The piece a reading step took. */
  lemma PieceTaken(t: Bytes) returns (p: Piece)
    requires ReadPiece(t).Some?
    ensures ValidPiece(p) && t == Spell(p) + ReadPiece(t).value.1 && ReadPiece(t).value.0 == Meaning(p)
  {
    if t[0] != BACKSLASH {
      p := Plain(t[0]);
    } else if t[1] != 117 {
      p := Short(t[1]);
      assert t == [t[0], t[1]] + t[2..];
    } else {
      p := UnicodeTaken(t);
    }
  }

  lemma UnicodeTaken(t: Bytes) returns (p: Piece)
    requires ReadPiece(t).Some? && t[0] == BACKSLASH && t[1] == 117
    ensures ValidPiece(p) && t == Spell(p) + ReadPiece(t).value.1 && ReadPiece(t).value.0 == Meaning(p)
  {
    hide Hex4, Utf8Of;
    DigitsAt(t, 2);
    var d := t[2..6];
    if IsHigh(Hex4(d).value) {
      DigitsAt(t, 8);
      p := Pair(d, t[8..12]);
      PairCut(t);
    } else {
      p := Unicode(d);
      assert t == [BACKSLASH, 117] + d + t[6..];
    }
  }

  /** Four digits are read from where they stand. */
  lemma DigitsAt(t: Bytes, i: nat)
    requires i <= |t|
    ensures Hex4(t[i..]).Some? ==> i + 4 <= |t| && Hex4(t[i..]) == Hex4(t[i..i + 4])
  {
    if i + 4 <= |t| {
      assert t[i..] == t[i..i + 4] + t[i + 4..];
      Hex4Local(t[i..i + 4], t[i + 4..]);
    }
  }

  lemma PairCut(t: Bytes)
    requires |t| >= 12 && t[0] == t[6] == BACKSLASH && t[1] == t[7] == 117
    ensures t == [BACKSLASH, 117] + t[2..6] + [BACKSLASH, 117] + t[8..12] + t[12..]
  {
  }

  lemma {:induction false} PiecesTaken(t: Bytes) returns (ps: seq<Piece>)
    requires ReadBody(t).Some?
    ensures AllValid(ps) && t == SpellAll(ps) + [QUOTE] + ReadBody(t).value.1 && MeaningAll(ps) == ReadBody(t).value.0
    decreases |t|
  {
    hide ReadPiece, Spell, Meaning, ValidPiece;
    if t[0] == QUOTE {
      ps := [];
      assert t == [QUOTE] + t[1..];
    } else {
      var rest := ReadPiece(t).value.1;
      var p := PieceTaken(t);
      var more := PiecesTaken(rest);
      ps := [p] + more;
      assert ps[1..] == more;
      assert t == Spell(p) + (SpellAll(more) + [QUOTE] + ReadBody(rest).value.1);
    }
  }

  /** A string is read exactly when it is some spelling closed by a quote, and as what it says. */
  lemma BodyExact(t: Bytes, s: Bytes, x: Bytes)
    ensures ReadBody(t) == Some((s, x))
            <==> exists ps :: AllValid(ps) && t == SpellAll(ps) + [QUOTE] + x && s == MeaningAll(ps)
  {
    hide ReadBody, SpellAll, MeaningAll, AllValid;
    if ReadBody(t) == Some((s, x)) {
      var ps := PiecesTaken(t);
    }
    forall ps | AllValid(ps) && t == SpellAll(ps) + [QUOTE] + x ensures ReadBody(t) == Some((MeaningAll(ps), x)) {
      ReadsPieces(ps, x);
    }
  }
}
