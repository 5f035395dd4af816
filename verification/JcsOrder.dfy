/** The order of an object's members in internal/jcs/jcs.go: by the UTF-16 code units of their names
    (RFC 8785, section 3.2.3). */
module JcsOrder {
  import opened Bytes
  import Utf8

  // ---------------------------------------------------------------- code units

  /** utf16.Encode of one code point: itself, or a surrogate pair. */
  function UnitsOf(r: int): seq<int> {
    if r < 0x10000 then [r] else [0xD800 + (r - 0x10000) / 0x400, 0xDC00 + (r - 0x10000) % 0x400]
  }

  /** The code units of a Go string; a byte that is not part of a code point counts as U+FFFD. */
  function Units(s: Bytes): seq<int> {
    if s == [] then []
    else
      var w := Utf8.Width(s);
      if w == 0 then [0xFFFD] + Units(s[1..]) else UnitsOf(Utf8.CodePoint(s[..w])) + Units(s[w..])
  }

  /** After `k` units alike, `a` ends before `b` or has the smaller unit. */
  predicate BelowAt(a: seq<int>, b: seq<int>, k: nat) {
    k <= |a| && k < |b| && a[..k] == b[..k] && (k == |a| || a[k] < b[k])
  }

  ghost predicate Below(a: seq<int>, b: seq<int>) {
    exists k: nat :: BelowAt(a, b, k)
  }

  ghost predicate Less(a: Bytes, b: Bytes) {
    Below(Units(a), Units(b))
  }

  /** lessUTF16, as it runs. */
  method LessUtf16(a: Bytes, b: Bytes) returns (r: bool)
    ensures r <==> Less(a, b)
  {
    var ua, ub := Units(a), Units(b);
    hide Units;
    var i := 0;
    while i < |ua| && i < |ub|
      invariant i <= |ua| && i <= |ub| && ua[..i] == ub[..i]
    {
      if ua[i] != ub[i] {
        DecidedAt(ua, ub, i);
        return ua[i] < ub[i];
      }
      i := i + 1;
    }
    DecidedAt(ua, ub, i);
    return |ua| < |ub|;
  }

  /** Where two lists of units part, or one ends, decides. */
  lemma DecidedAt(a: seq<int>, b: seq<int>, i: nat)
    requires i <= |a| && i <= |b| && a[..i] == b[..i]
    requires i == |a| || i == |b| || a[i] != b[i]
    ensures Below(a, b) <==> BelowAt(a, b, i)
  {
    forall k: nat | BelowAt(a, b, k) ensures k == i {
      if k < i { SameUnits(a, b, i, k); } else if k > i { SameUnits(a, b, k, i); }
    }
  }

  lemma SameUnits(a: seq<int>, b: seq<int>, n: nat, k: nat)
    requires k < n <= |a| && n <= |b| && a[..n] == b[..n]
    ensures a[k] == b[k]
  {
    assert a[k] == a[..n][k];
  }

  // -------------------------------------------------------------- a total order

  lemma BelowTransitive(a: seq<int>, b: seq<int>, c: seq<int>)
    requires Below(a, b) && Below(b, c)
    ensures Below(a, c)
  {
    var j: nat :| BelowAt(a, b, j);
    var k: nat :| BelowAt(b, c, k);
    var m := if j < k then j else k;
    assert a[..m] == a[..j][..m] == b[..j][..m] == b[..m];
    assert b[..m] == b[..k][..m] == c[..k][..m] == c[..m];
    if j < k { SameUnits(b, c, k, j); }
    if k < j { SameUnits(a, b, j, k); }
    assert BelowAt(a, c, m);
  }

  lemma NotBelowItself(a: seq<int>)
    ensures !Below(a, a)
  {
  }

  lemma {:induction false} BelowEitherWay(a: seq<int>, b: seq<int>, i: nat)
    requires a != b && i <= |a| && i <= |b| && a[..i] == b[..i]
    ensures Below(a, b) || Below(b, a)
    decreases |a| - i
  {
    if i == |a| || i == |b| || a[i] != b[i] {
      assert a[..|a|] == a && b[..|b|] == b;
      assert BelowAt(a, b, i) || BelowAt(b, a, i);
    } else {
      BelowEitherWay(a, b, i + 1);
    }
  }

  // ------------------------------------------------------------ names and units

  predicate IsScalar(r: int) {
    0 <= r < 0xD800 || 0xE000 <= r < 0x110000
  }

  /** A well-formed sequence has a scalar value of the size its width says. */
  lemma CodePointIsScalar(s: Bytes)
    requires s != [] && Utf8.Width(s) == |s|
    ensures var r := Utf8.CodePoint(s);
            && IsScalar(r)
            && |s| == (if r < 0x80 then 1 else if r < 0x800 then 2 else if r < 0x10000 then 3 else 4)
  {
  }

  /** One scalar value, one well-formed sequence. */
  lemma CodePointUnique(s: Bytes, t: Bytes)
    requires s != [] && Utf8.Width(s) == |s| && t != [] && Utf8.Width(t) == |t|
    requires Utf8.CodePoint(s) == Utf8.CodePoint(t)
    ensures s == t
  {
    CodePointIsScalar(s);
    CodePointIsScalar(t);
    WidthIsCanonical(s);
    WidthIsCanonical(t);
    assert |s| == |t|;
    hide Utf8.Width;
    var n := |s|;
    if n == 2 {
      LastSixBits(s[0] as int - 0xC0, s[1], t[0] as int - 0xC0, t[1]);
    } else if n >= 3 {
      if n == 3 {
        var a, b := (s[0] as int - 0xE0) * 64 + (s[1] as int - 0x80), (t[0] as int - 0xE0) * 64 + (t[1] as int - 0x80);
        LastSixBits(a, s[2], b, t[2]);
        LastSixBits(s[0] as int - 0xE0, s[1], t[0] as int - 0xE0, t[1]);
      } else {
        var c, d := (s[0] as int - 0xF0) * 64 + (s[1] as int - 0x80), (t[0] as int - 0xF0) * 64 + (t[1] as int - 0x80);
        LastSixBits(c * 64 + (s[2] as int - 0x80), s[3], d * 64 + (t[2] as int - 0x80), t[3]);
        LastSixBits(c, s[2], d, t[2]);
        LastSixBits(s[0] as int - 0xF0, s[1], t[0] as int - 0xF0, t[1]);
      }
    }
  }

  lemma WidthIsCanonical(s: Bytes)
    requires s != [] && Utf8.Width(s) == |s|
    ensures forall i :: 1 <= i < |s| ==> Utf8.Continuation(s[i])
  {
  }

  /** Six bits at the end of a sum can be told apart from the rest. */
  lemma LastSixBits(a: int, b: byte, c: int, d: byte)
    requires Utf8.Continuation(b) && Utf8.Continuation(d)
    requires a * 64 + (b as int - 0x80) == c * 64 + (d as int - 0x80)
    ensures a == c && b == d
  {
  }

  /** The first units of two texts give their first scalar values. */
  lemma FirstUnits(q: int, x: seq<int>, r: int, y: seq<int>)
    requires IsScalar(q) && IsScalar(r)
    requires UnitsOf(q) + x == UnitsOf(r) + y
    ensures q == r && x == y
  {
    var u, v := UnitsOf(q) + x, UnitsOf(r) + y;
    assert u[0] == UnitsOf(q)[0] && v[0] == UnitsOf(r)[0];
    assert u[|UnitsOf(q)|..] == x && v[|UnitsOf(r)|..] == y;
    if q >= 0x10000 && r >= 0x10000 { assert u[1] == UnitsOf(q)[1] && v[1] == UnitsOf(r)[1]; }
  }

  lemma FirstCodePoint(s: Bytes) returns (w: nat)
    requires s != [] && Utf8.Valid(s)
    ensures 0 < w <= |s| && Utf8.Valid(s[w..]) && Utf8.Width(s[..w]) == |s[..w]|
    ensures Units(s) == UnitsOf(Utf8.CodePoint(s[..w])) + Units(s[w..])
  {
    w := Utf8.Width(s);
    Utf8.PrefixWidth(s, w);
  }

  /** Valid names with the same code units are the same name. */
  lemma {:induction false} UnitsUnique(s: Bytes, t: Bytes)
    requires Utf8.Valid(s) && Utf8.Valid(t) && Units(s) == Units(t)
    ensures s == t
  {
    if s != [] && t != [] {
      var w := FirstCodePoint(s);
      var v := FirstCodePoint(t);
      var a, b := s[..w], t[..v];
      hide Utf8.Width, Utf8.CodePoint, Utf8.Valid, Units;
      CodePointIsScalar(a);
      CodePointIsScalar(b);
      FirstUnits(Utf8.CodePoint(a), Units(s[w..]), Utf8.CodePoint(b), Units(t[v..]));
      CodePointUnique(a, b);
      UnitsUnique(s[w..], t[v..]);
      assert s == a + s[w..] && t == b + t[v..];
    } else {
      UnitsOfSome(s);
      UnitsOfSome(t);
    }
  }

  lemma UnitsOfSome(s: Bytes)
    ensures Units(s) == [] <==> s == []
  {
  }

  /** Two different names are always in order, one way and not the other. */
  lemma LessIsTotal(a: Bytes, b: Bytes)
    requires Utf8.Valid(a) && Utf8.Valid(b)
    ensures a != b <==> Less(a, b) || Less(b, a)
    ensures !(Less(a, b) && Less(b, a))
  {
    hide Units;
    if a != b {
      if Units(a) == Units(b) { UnitsUnique(a, b); }
      BelowEitherWay(Units(a), Units(b), 0);
    }
    NotBelowItself(Units(a));
    if Less(a, b) && Less(b, a) { BelowTransitive(Units(a), Units(b), Units(a)); }
  }

  ghost predicate Sorted(names: seq<Bytes>) {
    forall i, j :: 0 <= i < j < |names| ==> Less(names[i], names[j])
  }

  /** A set of names has one order: however the sort goes about it, its result is this one. */
  lemma {:induction false} OneOrder(a: seq<Bytes>, b: seq<Bytes>)
    requires Sorted(a) && Sorted(b)
    requires forall x :: x in a <==> x in b
    ensures a == b
    decreases |a|
  {
    hide Less;
    var x := if a != [] then a[0] else if b != [] then b[0] else [];
    assert x in a <==> x in b;
    if a != [] && b != [] {
      FirstIsFirst(a, b);
      forall x ensures x in a[1..] <==> x in b[1..] {
        RestOf(a, x);
        RestOf(b, x);
      }
      OneOrder(a[1..], b[1..]);
      assert a == [a[0]] + a[1..] && b == [b[0]] + b[1..];
    }
  }

  lemma FirstIsFirst(a: seq<Bytes>, b: seq<Bytes>)
    requires Sorted(a) && Sorted(b) && a != [] && b != []
    requires forall x :: x in a <==> x in b
    ensures a[0] == b[0]
  {
    hide Units, Below;
    assert a[0] in b && b[0] in a;
    var i :| 0 <= i < |b| && b[i] == a[0];
    var j :| 0 <= j < |a| && a[j] == b[0];
    if i > 0 && j > 0 {
      assert Less(b[0], b[i]) && Less(a[0], a[j]);
      BelowTransitive(Units(a[0]), Units(b[0]), Units(a[0]));
      NotBelowItself(Units(a[0]));
    }
  }

  lemma RestOf(a: seq<Bytes>, x: Bytes)
    requires Sorted(a) && a != []
    ensures x in a[1..] <==> x in a && x != a[0]
  {
    hide Units, Below;
    assert a == [a[0]] + a[1..];
    if a[0] in a[1..] {
      var i :| 0 <= i < |a[1..]| && a[1..][i] == a[0];
      assert Less(a[0], a[i + 1]);
      NotBelowItself(Units(a[0]));
    }
  }

  // ---------------------------------------------------------------- ASCII names

  lemma {:induction false} UnitsOfAscii(s: Bytes)
    requires forall i :: 0 <= i < |s| ==> s[i] < 0x80
    ensures |Units(s)| == |s| && forall i :: 0 <= i < |s| ==> Units(s)[i] == s[i] as int
  {
    if s != [] {
      UnitsOfAscii(s[1..]);
      assert s[..1] == [s[0]];
      assert Units(s) == [s[0] as int] + Units(s[1..]);
    }
  }

  /** For ASCII names the bytes decide. */
  lemma AsciiLess(a: Bytes, b: Bytes, k: nat)
    requires (forall i :: 0 <= i < |a| ==> a[i] < 0x80) && (forall i :: 0 <= i < |b| ==> b[i] < 0x80)
    requires k < |a| && k < |b| && a[k] < b[k]
    requires forall i :: 0 <= i < k ==> a[i] == b[i]
    ensures Less(a, b)
  {
    UnitsOfAscii(a);
    UnitsOfAscii(b);
    hide Units;
    assert BelowAt(Units(a), Units(b), k);
  }
}
