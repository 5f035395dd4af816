/** UTF-8 as Go checks it, one code point at a time. */
module Utf8 {
  import opened Bytes

  predicate Continuation(b: byte) {
    0x80 <= b <= 0xBF
  }

  /** How many bytes the first code point takes, or 0 if it is not well formed. */
  function Width(s: Bytes): (w: nat)
    ensures w <= |s| && w <= 4
    ensures w > 1 ==> forall i :: 0 <= i < w ==> s[i] >= 0x80
    ensures w == 1 ==> s[0] < 0x80
    ensures s != [] && s[0] < 0x80 ==> w == 1
  {
    if s == [] then 0
    else if s[0] < 0x80 then 1
    else if |s| >= 2 && 0xC2 <= s[0] <= 0xDF && Continuation(s[1]) then 2
    else if |s| >= 3 && Continuation(s[1]) && Continuation(s[2])
            && (|| (s[0] == 0xE0 && s[1] >= 0xA0)
                || 0xE1 <= s[0] <= 0xEC
                || (s[0] == 0xED && s[1] <= 0x9F)
                || 0xEE <= s[0] <= 0xEF) then 3
    else if |s| >= 4 && Continuation(s[1]) && Continuation(s[2]) && Continuation(s[3])
            && (|| (s[0] == 0xF0 && s[1] >= 0x90)
                || 0xF1 <= s[0] <= 0xF3
                || (s[0] == 0xF4 && s[1] <= 0x8F)) then 4
    else 0
  }

  /** The code point of one well-formed UTF-8 sequence (RFC 3629, section 3). */
  function CodePoint(s: Bytes): int {
    if |s| == 1 then s[0] as int
    else if |s| == 2 then (s[0] as int - 0xC0) * 64 + (s[1] as int - 0x80)
    else if |s| == 3 then ((s[0] as int - 0xE0) * 64 + (s[1] as int - 0x80)) * 64 + (s[2] as int - 0x80)
    else if |s| == 4 then
      (((s[0] as int - 0xF0) * 64 + (s[1] as int - 0x80)) * 64 + (s[2] as int - 0x80)) * 64 + (s[3] as int - 0x80)
    else -1
  }

  /** utf8.Valid. */
  predicate Valid(s: Bytes) {
    s == [] || (Width(s) > 0 && Valid(s[Width(s)..]))
  }

  const REPLACEMENT: Bytes := [0xEF, 0xBF, 0xBD]

  /** What encoding/json makes of a string: each byte that is not part of a code point becomes
      U+FFFD. */
  function Coerce(s: Bytes): Bytes {
    if s == [] then []
    else if Width(s) > 0 then s[..Width(s)] + Coerce(s[Width(s)..])
    else REPLACEMENT + Coerce(s[1..])
  }

  lemma {:induction false} ValidIsKept(s: Bytes)
    requires Valid(s)
    ensures Coerce(s) == s
  {
    if s != [] {
      ValidIsKept(s[Width(s)..]);
      assert s == s[..Width(s)] + s[Width(s)..];
    }
  }

  /** The width of a code point does not depend on what follows it. */
  lemma WidthIsLocal(s: Bytes, t: Bytes)
    requires Width(s) > 0
    ensures Width(s + t) == Width(s)
  {
  }

  lemma {:induction false} ValidConcat(s: Bytes, t: Bytes)
    requires Valid(s) && Valid(t)
    ensures Valid(s + t)
  {
    hide Width;
    if s == [] {
      assert s + t == t;
    } else {
      var w := Width(s);
      WidthIsLocal(s, t);
      ValidConcat(s[w..], t);
      assert s == s[..w] + s[w..];
      Associate(s[..w], s[w..], t);
      CutAt(s[..w], s[w..] + t);
    }
  }

  lemma {:induction false} CoercedIsValid(s: Bytes)
    ensures Valid(Coerce(s))
  {
    hide Width;
    if s != [] {
      var w := Width(s);
      if w > 0 {
        CoercedIsValid(s[w..]);
        OneCodePoint(s);
        ValidConcat(s[..w], Coerce(s[w..]));
      } else {
        CoercedIsValid(s[1..]);
        ReplacementIsValid();
        ValidConcat(REPLACEMENT, Coerce(s[1..]));
      }
    }
  }

  lemma OneCodePoint(s: Bytes)
    requires Width(s) > 0
    ensures Valid(s[..Width(s)])
  {
    PrefixWidth(s, Width(s));
    hide Width;
    assert s[..Width(s)][Width(s)..] == [];
  }

  lemma ReplacementIsValid()
    ensures Valid(REPLACEMENT)
  {
    assert Width(REPLACEMENT) == 3 && REPLACEMENT[3..] == [];
    hide Width;
  }

  lemma PrefixWidth(s: Bytes, w: nat)
    requires w == Width(s) > 0
    ensures Width(s[..w]) == w
  {
  }

  lemma {:induction false} AsciiIsValid(s: Bytes)
    requires forall i :: 0 <= i < |s| ==> s[i] < 0x80
    ensures Valid(s)
  {
    if s != [] { AsciiIsValid(s[1..]); }
  }

  lemma {:induction false} AsciiIsKept(s: Bytes)
    requires forall i :: 0 <= i < |Coerce(s)| ==> Coerce(s)[i] < 0x80
    ensures Coerce(s) == s
  {
    if s != [] {
      var w := Width(s);
      assert Coerce(s)[0] < 0x80;
      assert w > 0 && s == s[..w] + s[w..];
      assert forall i :: 0 <= i < |Coerce(s[w..])| ==> Coerce(s[w..])[i] == Coerce(s)[w + i];
      AsciiIsKept(s[w..]);
    }
  }
}
