/** Hexadecimal as encoding/hex reads and writes it: lower case out, either case in. */
module Hex {
  import opened Bytes

  function Digit(v: nat): (c: byte)
    requires v < 16
    ensures LowerDigit(c) && Nibble(c) == Some(v)
  {
    if v < 10 then (48 + v) as byte else (87 + v) as byte
  }

  predicate LowerDigit(c: byte) {
    48 <= c <= 57 || 97 <= c <= 102
  }

  function Nibble(c: byte): (v: Option<nat>)
    ensures v.Some? ==> v.value < 16 && 48 <= c <= 102
  {
    if 48 <= c <= 57 then Some(c as int - 48)
    else if 97 <= c <= 102 then Some(c as int - 87)
    else if 65 <= c <= 70 then Some(c as int - 55)
    else None
  }

  predicate Lower(s: Bytes, n: nat) {
    |s| == n && forall i :: 0 <= i < n ==> LowerDigit(s[i])
  }

  function Encode(b: Bytes): (s: Bytes)
    ensures Lower(s, 2 * |b|)
  {
    if b == [] then [] else [Digit(b[0] as int / 16), Digit(b[0] as int % 16)] + Encode(b[1..])
  }

  function Decode(s: Bytes): (r: Option<Bytes>)
    ensures r.Some? ==> |s| == 2 * |r.value| && forall i :: 0 <= i < |s| ==> 48 <= s[i] <= 102
  {
    if s == [] then Some([])
    else if |s| == 1 then None
    else
      var hi, lo, rest := Nibble(s[0]), Nibble(s[1]), Decode(s[2..]);
      if hi.Some? && lo.Some? && rest.Some? then Some([(16 * hi.value + lo.value) as byte] + rest.value) else None
  }

  lemma {:induction false} DecodeOfEncode(b: Bytes)
    ensures Decode(Encode(b)) == Some(b)
  {
    if b != [] {
      DecodeOfEncode(b[1..]);
      assert Encode(b)[2..] == Encode(b[1..]);
      assert b == [b[0]] + b[1..];
    }
  }

  lemma EncodeInjective(a: Bytes, b: Bytes)
    requires Encode(a) == Encode(b)
    ensures a == b
  {
    DecodeOfEncode(a);
    DecodeOfEncode(b);
  }

  /** isHex: `n` digits of either case. */
  predicate IsHex(s: Bytes, n: nat) {
    |s| == n && Decode(s).Some?
  }

  /** Only lower-case digits come back from what they decode to. */
  lemma {:induction false} EncodeOfDecode(s: Bytes)
    requires Decode(s).Some?
    ensures Encode(Decode(s).value) == s <==> Lower(s, |s|)
  {
    if s != [] {
      EncodeOfDecode(s[2..]);
      PairOfDecode(s);
      TwoDigits(s);
      hide Decode, Encode;
      var e, f := Encode(Decode(s).value), Encode(Decode(s[2..]).value);
      assert s == s[..2] + s[2..] && e[2..] == f && e[..2] + f == e;
    }
  }

  lemma PairOfDecode(s: Bytes)
    requires s != [] && Decode(s).Some?
    ensures |s| >= 2 && Decode(s[2..]).Some?
    ensures var e := Encode(Decode(s).value);
            && |e| == |s| && e[2..] == Encode(Decode(s[2..]).value)
            && (e[..2] == s[..2] <==> LowerDigit(s[0]) && LowerDigit(s[1]))
  {
    hide *;
    FirstByte(s);
    var b := Decode(s).value;
    DigitOfNibble(s[0]);
    DigitOfNibble(s[1]);
    EncodeFirst(b);
    EncodeLength(b);
    SamePair(Encode(b), Digit(b[0] as int / 16), Digit(b[0] as int % 16), Encode(b[1..]), s);
  }

  lemma EncodeLength(b: Bytes)
    ensures |Encode(b)| == 2 * |b|
  {
    hide Encode;
  }

  lemma EncodeFirst(b: Bytes)
    requires b != []
    ensures Encode(b) == [Digit(b[0] as int / 16), Digit(b[0] as int % 16)] + Encode(b[1..])
  {
    hide Digit, Lower;
  }

  lemma SamePair(e: Bytes, c: byte, d: byte, f: Bytes, s: Bytes)
    requires e == [c, d] + f && |s| >= 2
    ensures |e| == 2 + |f| && e[2..] == f && (e[..2] == s[..2] <==> c == s[0] && d == s[1])
  {
    assert e[..2] == [c, d] && s[..2] == [s[0], s[1]];
  }

  lemma FirstByte(s: Bytes)
    requires s != [] && Decode(s).Some?
    ensures |s| >= 2 && Decode(s[2..]).Some? && Nibble(s[0]).Some? && Nibble(s[1]).Some?
    ensures var b := Decode(s).value;
            && b != [] && b[1..] == Decode(s[2..]).value && |b| == 1 + |Decode(s[2..]).value|
            && b[0] as int / 16 == Nibble(s[0]).value && b[0] as int % 16 == Nibble(s[1]).value
  {
    hide Nibble;
  }

  lemma DigitOfNibble(c: byte)
    requires Nibble(c).Some?
    ensures Digit(Nibble(c).value) == c <==> LowerDigit(c)
  {
  }

  lemma TwoDigits(s: Bytes)
    requires |s| >= 2
    ensures Lower(s, |s|) <==> LowerDigit(s[0]) && LowerDigit(s[1]) && Lower(s[2..], |s| - 2)
  {
    assert forall i :: 0 <= i < |s[2..]| ==> s[2..][i] == s[i + 2];
    if Lower(s[2..], |s| - 2) {
      forall i | 2 <= i < |s| ensures LowerDigit(s[i]) { assert s[2..][i - 2] == s[i]; }
    }
  }
}
