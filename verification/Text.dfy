/** Text as the formats use it: byte strings cut into lines at U+000A, and substring search. */
module Text {
  import opened Bytes

  const LF: byte := 10

  /** The bytes of an ASCII literal. */
  function Ascii(s: string): (b: Bytes)
    requires forall i :: 0 <= i < |s| ==> s[i] < 128 as char
    ensures |b| == |s|
  {
    seq(|s|, i requires 0 <= i < |s| => s[i] as int as byte)
  }

  predicate OneLine(s: Bytes) {
    forall i :: 0 <= i < |s| ==> s[i] != LF
  }

  predicate AllOneLine(lines: seq<Bytes>) {
    forall i :: 0 <= i < |lines| ==> OneLine(lines[i])
  }

  // ------------------------------------------------------------------- search

  /** The first occurrence of `p` in `t` at or after `i`, or -1. */
  function IndexFrom(p: Bytes, t: Bytes, i: nat): (r: int)
    ensures r == -1 ==> forall k: nat :: i <= k ==> !MatchAt(p, t, k)
    ensures r != -1 ==> i <= r && MatchAt(p, t, r) && forall k: nat :: i <= k < r ==> !MatchAt(p, t, k)
    decreases |t| - i
  {
    if i + |p| > |t| then -1
    else if MatchAt(p, t, i) then i
    else if i < |t| then IndexFrom(p, t, i + 1)
    else -1
  }

  // -------------------------------------------------------------------- lines

  /** strings.Split(s, "\n"). */
  function Split(s: Bytes): (lines: seq<Bytes>)
    ensures lines != []
    ensures AllOneLine(lines)
    ensures Unlines(lines) == s + [LF]
  {
    if s == [] then [[]]
    else
      var rest := Split(s[1..]);
      if s[0] == LF then
        assert Unlines([[]] + rest) == [LF] + Unlines(rest);
        [[]] + rest
      else
        assert Unlines([[s[0]] + rest[0]] + rest[1..]) == [s[0]] + Unlines(rest);
        [[s[0]] + rest[0]] + rest[1..]
  }

  /** Every line, each closed by its line feed. */
  function Unlines(lines: seq<Bytes>): Bytes {
    if lines == [] then [] else lines[0] + [LF] + Unlines(lines[1..])
  }

  lemma {:induction false} UnlinesOneMore(lines: seq<Bytes>, l: Bytes)
    ensures Unlines(lines + [l]) == Unlines(lines) + l + [LF]
  {
    if lines == [] {
      assert [] + [l] == [l] && [l][1..] == [];
    } else {
      UnlinesOneMore(lines[1..], l);
      assert (lines + [l])[1..] == lines[1..] + [l];
    }
  }

  /** Lines determine the text and the text determines the lines. */
  lemma {:induction false} UnlinesInjective(a: seq<Bytes>, b: seq<Bytes>)
    requires AllOneLine(a) && AllOneLine(b)
    requires Unlines(a) == Unlines(b)
    ensures a == b
  {
    if a == [] || b == [] {
    } else {
      FirstLine(a[0], Unlines(a[1..]), b[0], Unlines(b[1..]));
      UnlinesInjective(a[1..], b[1..]);
    }
  }

  /** What stands before the first line feed, and what stands after it. */
  lemma FirstLine(a: Bytes, x: Bytes, b: Bytes, y: Bytes)
    requires OneLine(a) && OneLine(b)
    requires a + [LF] + x == b + [LF] + y
    ensures a == b && x == y
  {
    var t := a + [LF] + x;
    assert t[|a|] == LF && t[..|a|] == a;
    assert t[|b|] == LF && t[..|b|] == b;
    assert forall i :: 0 <= i < |a| ==> t[i] == a[i];
    assert forall i :: 0 <= i < |b| ==> t[i] == b[i];
    assert |a| == |b|;
    assert x == t[|a| + 1..] && y == t[|b| + 1..];
  }

  /** Splitting what was joined: the round trip of Split. */
  lemma SplitOfUnlines(lines: seq<Bytes>, s: Bytes)
    requires lines != [] && AllOneLine(lines)
    requires Unlines(lines) == s + [LF]
    ensures Split(s) == lines
  {
    UnlinesInjective(Split(s), lines);
  }
}
