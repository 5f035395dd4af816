/** Standard base64 as the wire formats use it: encoding, and the strict decoder together with
    the check that encoding again gives the same line. */
module Base64 {
  import opened Bytes

  const PAD: byte := 61

  /** The symbol of a six-bit value. */
  function Symbol(v: nat): byte
    requires v < 64
  {
    if v < 26 then (65 + v) as byte
    else if v < 52 then (71 + v) as byte
    else if v < 62 then (v - 4) as byte
    else if v == 62 then 43
    else 47
  }

  /** The value of a symbol, if it is one. */
  function Sextet(c: byte): Option<nat> {
    if 65 <= c <= 90 then Some(c as int - 65)
    else if 97 <= c <= 122 then Some(c as int - 71)
    else if 48 <= c <= 57 then Some(c as int + 4)
    else if c == 43 then Some(62)
    else if c == 47 then Some(63)
    else None
  }

  lemma SextetOfSymbol(v: nat)
    requires v < 64
    ensures Sextet(Symbol(v)) == Some(v) && Symbol(v) != PAD && Symbol(v) > 13
  {
  }

  /** Three bytes as four symbols. */
  function Quad(b0: byte, b1: byte, b2: byte): (s: Bytes)
    ensures |s| == 4
  {
    [Symbol(b0 as int / 4), Symbol(b0 as int % 4 * 16 + b1 as int / 16),
     Symbol(b1 as int % 16 * 4 + b2 as int / 64), Symbol(b2 as int % 64)]
  }

  function Encode(b: Bytes): Bytes {
    if |b| == 0 then []
    else if |b| == 1 then Quad(b[0], 0, 0)[..2] + [PAD, PAD]
    else if |b| == 2 then Quad(b[0], b[1], 0)[..3] + [PAD]
    else Quad(b[0], b[1], b[2]) + Encode(b[3..])
  }

  /** Four symbols at a time; padding only at the very end, and its spare bits zero. */
  function DecodeQuads(s: Bytes): Option<Bytes> {
    if |s| == 0 then Some([])
    else if |s| < 4 then None
    else match (Sextet(s[0]), Sextet(s[1]))
      case (Some(v0), Some(v1)) =>
        if s[2] == PAD then
          if |s| == 4 && s[3] == PAD && v1 % 16 == 0 then Some([(v0 * 4 + v1 / 16) as byte]) else None
        else if s[3] == PAD then
          match Sextet(s[2])
          case None => None
          case Some(v2) =>
            if |s| == 4 && v2 % 4 == 0 then Some([(v0 * 4 + v1 / 16) as byte, (v1 % 16 * 16 + v2 / 4) as byte])
            else None
        else (
          match (Sextet(s[2]), Sextet(s[3]), DecodeQuads(s[4..]))
          case (Some(v2), Some(v3), Some(rest)) =>
            Some([(v0 * 4 + v1 / 16) as byte, (v1 % 16 * 16 + v2 / 4) as byte, (v2 % 4 * 64 + v3) as byte] + rest)
          case _ => None)
      case _ => None
  }

  /** Go's decoder skips carriage returns and line feeds wherever they stand. */
  function SkipBreaks(s: Bytes): Bytes {
    if s == [] then []
    else if s[0] == 10 || s[0] == 13 then SkipBreaks(s[1..])
    else [s[0]] + SkipBreaks(s[1..])
  }

  /** base64.StdEncoding.Strict().DecodeString. */
  function DecodeStrict(s: Bytes): Option<Bytes> {
    DecodeQuads(SkipBreaks(s))
  }

  /** A 32-byte value on a line of its own, in its only spelling: decode, measure, and encode
      again. */
  function ParseLine(s: Bytes): Option<Bytes> {
    match DecodeStrict(s)
    case None => None
    case Some(b) => if |b| == 32 && Encode(b) == s then Some(b) else None
  }

  lemma {:induction false} NothingToSkip(s: Bytes)
    requires forall i :: 0 <= i < |s| ==> s[i] > 13
    ensures SkipBreaks(s) == s
  {
    if s != [] {
      NothingToSkip(s[1..]);
      assert s == [s[0]] + s[1..];
    }
  }

  lemma {:induction false} EncodeSymbols(b: Bytes)
    ensures forall i :: 0 <= i < |Encode(b)| ==> Encode(b)[i] > 13
    ensures b != [] ==> Encode(b) != []
  {
    if |b| >= 3 { EncodeSymbols(b[3..]); }
  }

  lemma DecodeStep(s: Bytes, v0: nat, v1: nat, v2: nat, v3: nat, tail: Bytes)
    requires |s| >= 4 && s[2] != PAD && s[3] != PAD
    requires v0 < 64 && v1 < 64 && v2 < 64 && v3 < 64
    requires Sextet(s[0]) == Some(v0) && Sextet(s[1]) == Some(v1) && Sextet(s[2]) == Some(v2)
             && Sextet(s[3]) == Some(v3)
    requires DecodeQuads(s[4..]) == Some(tail)
    ensures DecodeQuads(s)
            == Some([(v0 * 4 + v1 / 16) as byte, (v1 % 16 * 16 + v2 / 4) as byte, (v2 % 4 * 64 + v3) as byte] + tail)
  {
    hide Sextet;
  }

  /** The bits of three bytes, regrouped by six and back by eight. */
  lemma QuadBits(b0: nat, b1: nat, b2: nat, v1: nat, v2: nat)
    requires b1 < 256 && b2 < 256
    requires v1 == b0 % 4 * 16 + b1 / 16 && v2 == b1 % 16 * 4 + b2 / 64
    ensures b0 / 4 * 4 + v1 / 16 == b0
    ensures v1 % 16 * 16 + v2 / 4 == b1
    ensures v2 % 4 * 64 + b2 % 64 == b2
  {
    assert v1 / 16 == b0 % 4 && v1 % 16 == b1 / 16;
    assert v2 / 4 == b1 % 16 && v2 % 4 == b2 / 64;
  }

  lemma QuadRoundTrip(b0: byte, b1: byte, b2: byte, rest: Bytes, tail: Bytes)
    requires DecodeQuads(rest) == Some(tail)
    ensures DecodeQuads(Quad(b0, b1, b2) + rest) == Some([b0, b1, b2] + tail)
  {
    hide Sextet, Symbol, DecodeQuads;
    var s := Quad(b0, b1, b2) + rest;
    assert s[4..] == rest;
    var v0, v1 := b0 as int / 4, b0 as int % 4 * 16 + b1 as int / 16;
    var v2, v3 := b1 as int % 16 * 4 + b2 as int / 64, b2 as int % 64;
    QuadBits(b0 as int, b1 as int, b2 as int, v1, v2);
    SextetOfSymbol(v0);
    SextetOfSymbol(v1);
    SextetOfSymbol(v2);
    SextetOfSymbol(v3);
    DecodeStep(s, v0, v1, v2, v3, tail);
  }

  lemma LastQuadRoundTrip(b0: byte, b1: byte)
    ensures DecodeQuads(Quad(b0, 0, 0)[..2] + [PAD, PAD]) == Some([b0])
    ensures DecodeQuads(Quad(b0, b1, 0)[..3] + [PAD]) == Some([b0, b1])
  {
    hide Sextet, Symbol;
    SextetOfSymbol(b0 as int / 4);
    SextetOfSymbol(b0 as int % 4 * 16);
    SextetOfSymbol(b0 as int % 4 * 16 + b1 as int / 16);
    SextetOfSymbol(b1 as int % 16 * 4);
  }

  lemma {:induction false} DecodeOfEncode(b: Bytes)
    ensures DecodeQuads(Encode(b)) == Some(b)
  {
    hide DecodeQuads, Quad;
    if |b| == 0 {
      DecodeNothing();
    } else if |b| == 1 {
      LastQuadRoundTrip(b[0], 0);
      assert b == [b[0]];
    } else if |b| == 2 {
      LastQuadRoundTrip(b[0], b[1]);
      assert b == [b[0], b[1]];
    } else {
      DecodeOfEncode(b[3..]);
      QuadRoundTrip(b[0], b[1], b[2], Encode(b[3..]), b[3..]);
      assert b == [b[0], b[1], b[2]] + b[3..];
    }
  }

  lemma DecodeNothing()
    ensures DecodeQuads([]) == Some([])
  {
  }

  /** One value, one spelling. */
  lemma ParseLineExact(s: Bytes, b: Bytes)
    ensures ParseLine(s) == Some(b) <==> |b| == 32 && s == Encode(b)
  {
    if |b| == 32 && s == Encode(b) {
      EncodeSymbols(b);
      NothingToSkip(s);
      DecodeOfEncode(b);
    }
  }

  // ------------------------------------------------------ one spelling but for breaks

  lemma SymbolOfSextet(c: byte)
    requires Sextet(c).Some?
    ensures Sextet(c).value < 64 && Symbol(Sextet(c).value) == c
  {
  }

  /** The bits of four symbols, regrouped by eight and back by six. */
  lemma SextetBits(v0: nat, v1: nat, v2: nat, v3: nat)
    requires v0 < 64 && v1 < 64 && v2 < 64 && v3 < 64
    ensures var b0, b1, b2 := v0 * 4 + v1 / 16, v1 % 16 * 16 + v2 / 4, v2 % 4 * 64 + v3;
            && b0 < 256 && b1 < 256 && b2 < 256
            && b0 / 4 == v0 && b0 % 4 * 16 + b1 / 16 == v1 && b1 % 16 * 4 + b2 / 64 == v2 && b2 % 64 == v3
  {
    By4(v0, v1 / 16);
    By16(v1 % 16, v2 / 4);
    By64(v2 % 4, v3);
  }

  lemma By4(q: nat, r: nat)
    requires r < 4
    ensures (q * 4 + r) / 4 == q && (q * 4 + r) % 4 == r
  {
  }

  lemma By16(q: nat, r: nat)
    requires r < 16
    ensures (q * 16 + r) / 16 == q && (q * 16 + r) % 16 == r
  {
  }

  lemma By64(q: nat, r: nat)
    requires r < 64
    ensures (q * 64 + r) / 64 == q && (q * 64 + r) % 64 == r
  {
  }

  /** The strict decoder refuses spare bits, so what it reads from symbols alone has one spelling. */
  lemma {:induction false} EncodeOfDecode(s: Bytes)
    requires DecodeQuads(s).Some?
    ensures Encode(DecodeQuads(s).value) == s
  {
    if s != [] {
      hide Symbol, Sextet;
      var q := QuadTaken(s);
      if s[2] == PAD || s[3] == PAD {
        assert s == s[..4];
      } else {
        EncodeOfDecode(s[4..]);
        var b, rest := DecodeQuads(s).value, DecodeQuads(s[4..]).value;
        assert b == q + rest && b[3..] == rest;
        assert s == s[..4] + s[4..];
      }
    }
  }

  /** What the first four symbols are read as, and written as again. */
  lemma QuadTaken(s: Bytes) returns (q: Bytes)
    requires s != [] && DecodeQuads(s).Some?
    ensures |s| >= 4 && 1 <= |q| <= 3
    ensures s[2] == PAD || s[3] == PAD ==> |s| == 4 && DecodeQuads(s).value == q && Encode(q) == s
    ensures s[2] != PAD && s[3] != PAD ==>
              && |q| == 3 && Quad(q[0], q[1], q[2]) == s[..4]
              && DecodeQuads(s[4..]).Some? && DecodeQuads(s).value == q + DecodeQuads(s[4..]).value
  {
    hide Symbol, Sextet, Encode;
    if s[2] == PAD {
      q := DecodeQuads(s).value;
      OneByteTaken(s);
    } else if s[3] == PAD {
      q := DecodeQuads(s).value;
      TwoBytesTaken(s);
    } else {
      q := DecodeQuads(s).value[..3];
      ThreeBytesTaken(s);
    }
  }

  lemma OneByteTaken(s: Bytes)
    requires |s| >= 4 && DecodeQuads(s).Some? && s[2] == PAD
    ensures |s| == 4 && |DecodeQuads(s).value| == 1 && Encode(DecodeQuads(s).value) == s
  {
    hide Symbol, Sextet;
    SymbolOfSextet(s[0]);
    SymbolOfSextet(s[1]);
    SextetBits(Sextet(s[0]).value, Sextet(s[1]).value, 0, 0);
  }

  lemma TwoBytesTaken(s: Bytes)
    requires |s| >= 4 && DecodeQuads(s).Some? && s[2] != PAD && s[3] == PAD
    ensures |s| == 4 && |DecodeQuads(s).value| == 2 && Encode(DecodeQuads(s).value) == s
  {
    hide Symbol, Sextet;
    SymbolOfSextet(s[0]);
    SymbolOfSextet(s[1]);
    SymbolOfSextet(s[2]);
    SextetBits(Sextet(s[0]).value, Sextet(s[1]).value, Sextet(s[2]).value, 0);
  }

  lemma ThreeBytesTaken(s: Bytes)
    requires |s| >= 4 && DecodeQuads(s).Some? && s[2] != PAD && s[3] != PAD
    ensures DecodeQuads(s[4..]).Some? && |DecodeQuads(s).value| >= 3
    ensures var q := DecodeQuads(s).value[..3];
            && Quad(q[0], q[1], q[2]) == s[..4]
            && DecodeQuads(s).value == q + DecodeQuads(s[4..]).value
  {
    hide *;
    var v0, v1, v2, v3, q := QuadRead(s);
    QuadOfSextets(v0, v1, v2, v3);
    SymbolOfSextet(s[0]);
    SymbolOfSextet(s[1]);
    SymbolOfSextet(s[2]);
    SymbolOfSextet(s[3]);
    assert (q + DecodeQuads(s[4..]).value)[..3] == q;
    assert s[..4] == [s[0], s[1], s[2], s[3]];
  }

  /** Four symbols are read as three bytes. */
  lemma QuadRead(s: Bytes) returns (v0: nat, v1: nat, v2: nat, v3: nat, q: Bytes)
    requires |s| >= 4 && DecodeQuads(s).Some? && s[2] != PAD && s[3] != PAD
    ensures Sextet(s[0]) == Some(v0) && Sextet(s[1]) == Some(v1) && Sextet(s[2]) == Some(v2) && Sextet(s[3]) == Some(v3)
    ensures v0 < 64 && v1 < 64 && v2 < 64 && v3 < 64
    ensures q == [(v0 * 4 + v1 / 16) as byte, (v1 % 16 * 16 + v2 / 4) as byte, (v2 % 4 * 64 + v3) as byte]
    ensures DecodeQuads(s[4..]).Some? && DecodeQuads(s).value == q + DecodeQuads(s[4..]).value
  {
    SymbolOfSextet(s[0]);
    SymbolOfSextet(s[1]);
    SymbolOfSextet(s[2]);
    SymbolOfSextet(s[3]);
    hide Sextet, Symbol;
    v0, v1, v2, v3 := Sextet(s[0]).value, Sextet(s[1]).value, Sextet(s[2]).value, Sextet(s[3]).value;
    q := [(v0 * 4 + v1 / 16) as byte, (v1 % 16 * 16 + v2 / 4) as byte, (v2 % 4 * 64 + v3) as byte];
  }

  lemma QuadOfSextets(v0: nat, v1: nat, v2: nat, v3: nat)
    requires v0 < 64 && v1 < 64 && v2 < 64 && v3 < 64
    ensures Quad((v0 * 4 + v1 / 16) as byte, (v1 % 16 * 16 + v2 / 4) as byte, (v2 % 4 * 64 + v3) as byte)
            == [Symbol(v0), Symbol(v1), Symbol(v2), Symbol(v3)]
  {
    hide Symbol;
    SextetBits(v0, v1, v2, v3);
  }

  lemma {:induction false} NoBreaksToSkip(s: Bytes)
    requires forall i :: 0 <= i < |s| ==> s[i] != 10 && s[i] != 13
    ensures SkipBreaks(s) == s
  {
    if s != [] {
      NoBreaksToSkip(s[1..]);
      assert s == [s[0]] + s[1..];
    }
  }

  /** A text decodes to a value exactly when, its breaks apart, it is that value's encoding. */
  lemma DecodeStrictExact(s: Bytes, b: Bytes)
    ensures DecodeStrict(s) == Some(b) <==> SkipBreaks(s) == Encode(b)
  {
    hide Encode, DecodeQuads, SkipBreaks;
    DecodeOfEncode(b);
    if DecodeStrict(s) == Some(b) { EncodeOfDecode(SkipBreaks(s)); }
  }
}
