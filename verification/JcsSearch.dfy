/** Finding a member of a canonical object by searching its bytes, as signerOf does
    (internal/store/integrity.go), instead of decoding it. The text searched for is a quoted name,
    a colon and an opening quote; quotes inside a value are escaped, so it can only occur where a
    member of that name starts. */
module JcsSearch {
  import opened Bytes
  import opened Text
  import opened Jcs
  import Decimal
  import Hex

  /** Lower-case letters and underscores: the names of a header's members. */
  predicate Identifier(nm: Bytes) {
    nm != [] && forall i :: 0 <= i < |nm| ==> 97 <= nm[i] <= 122 || nm[i] == 95
  }

  /** `"name":"`. */
  function Key(nm: Bytes): Bytes {
    [QUOTE] + nm + [QUOTE, COLON, QUOTE]
  }

  // ------------------------------------------------------------ inside a string

  /** A quote inside an encoded string is escaped. */
  lemma {:induction false} QuotesAreEscaped(s: Bytes, j: nat)
    requires j < |Body(s)| && Body(s)[j] == QUOTE
    ensures j > 0 && Body(s)[j - 1] == BACKSLASH
  {
    var w := |Token(s[0])|;
    if j >= w {
      assert Body(s)[w..] == Body(s[1..]);
      assert Body(s)[j] == Body(s[1..])[j - w];
      QuotesAreEscaped(s[1..], j - w);
    }
  }

  lemma SliceOfSlice(t: Bytes, k: nat, m: nat, a: nat, b: nat)
    requires k <= m <= |t| && a <= b <= m - k
    ensures t[k..m][a..b] == t[k + a..k + b]
  {
    var s := t[k..m];
    forall i | 0 <= i < b - a ensures s[a..b][i] == t[k + a..k + b][i] {
      assert s[a..b][i] == s[a + i];
    }
  }

  /** What a match says byte by byte. */
  lemma MatchBytes(nm: Bytes, t: Bytes, k: nat)
    ensures MatchAt(Key(nm), t, k) <==>
            && k + |nm| + 4 <= |t| && t[k] == QUOTE && t[k + 1..k + 1 + |nm|] == nm
            && t[k + |nm| + 1] == QUOTE && t[k + |nm| + 2] == COLON && t[k + |nm| + 3] == QUOTE
  {
    var n := |nm|;
    if k + n + 4 <= |t| {
      var u := t[k..k + n + 4];
      SliceOfSlice(t, k, k + n + 4, 1, n + 1);
      assert u[0] == t[k] && u[n + 1] == t[k + n + 1] && u[n + 2] == t[k + n + 2] && u[n + 3] == t[k + n + 3];
      assert Key(nm)[1..n + 1] == nm;
      assert u == [u[0]] + u[1..n + 1] + [u[n + 1], u[n + 2], u[n + 3]];
    }
  }

  /** The closing quote of the name in a match is not inside the string. */
  lemma EndsOutside(nm: Bytes, s: Bytes, x: Bytes, k: nat)
    requires Identifier(nm) && MatchAt(Key(nm), Quoted(s) + x, k)
    ensures k + |nm| >= |Body(s)|
  {
    hide Body, Key;
    var t, q := Quoted(s) + x, k + |nm| + 1;
    MatchBytes(nm, t, k);
    hide MatchAt;
    assert t[q - 1] == t[k + 1..k + 1 + |nm|][|nm| - 1];
    if q <= |Body(s)| {
      assert t[q] == Body(s)[q - 1];
      QuotesAreEscaped(s, q - 1);
    }
  }

  lemma QuotedParts(s: Bytes, x: Bytes)
    ensures var t, b := Quoted(s) + x, |Body(s)|;
            && t[0] == QUOTE && t[1..b + 1] == Body(s) && t[b + 1] == QUOTE && t[b + 2..] == x
  {
    hide Body;
    var b, u := Body(s), [QUOTE] + Body(s);
    CutAt(u + [QUOTE], x);
    CutAt(u, [QUOTE]);
    CutAt([QUOTE], b);
    assert (Quoted(s) + x)[1..|b| + 1] == u[1..];
  }

  /** A match that begins in a quoted string ends with its closing quote, or begins there. */
  lemma MatchInQuoted(nm: Bytes, s: Bytes, x: Bytes, k: nat)
    requires Identifier(nm) && k <= |Body(s)| + 1
    requires MatchAt(Key(nm), Quoted(s) + x, k)
    ensures x != []
    ensures x[0] == COLON || x[0] == nm[0]
    ensures x[0] == COLON ==>
              && |x| >= 2 && x[1] == QUOTE && k + |nm| == |Body(s)|
              && Body(s)[k..] == nm && (k > 0 ==> Body(s)[k - 1] == QUOTE)
  {
    hide Body, Key;
    var t, b, q := Quoted(s) + x, |Body(s)|, k + |nm| + 1;
    MatchBytes(nm, t, k);
    EndsOutside(nm, s, x, k);
    hide MatchAt;
    QuotedParts(s, x);
    assert forall i :: k + 1 <= i < k + 1 + |nm| ==> t[i] == nm[i - k - 1];
    if k <= b {
      assert q == b + 1;
      assert Body(s)[k..] == t[k + 1..k + 1 + |nm|];
      assert x[0] == t[b + 2] && x[1] == t[b + 3];
    } else {
      assert x[0] == t[b + 2] == nm[0];
    }
  }

  /** In a value the text never occurs: what follows a value is a comma or a brace. */
  lemma NoMatchInString(nm: Bytes, s: Bytes, x: Bytes, k: nat)
    requires Identifier(nm) && k <= |Body(s)| + 1
    requires x != [] && Delimiter(x[0])
    ensures !MatchAt(Key(nm), Quoted(s) + x, k)
  {
    hide Body, Key;
    if MatchAt(Key(nm), Quoted(s) + x, k) { MatchInQuoted(nm, s, x, k); }
  }

  lemma {:induction false} IdentifierIsPlain(nm: Bytes)
    requires Identifier(nm)
    ensures Body(nm) == nm
  {
    BodyOfPlain(nm);
  }

  /** In a name it occurs only as the whole name, before a string. */
  lemma MatchInName(nm: Bytes, other: Bytes, x: Bytes, k: nat)
    requires Identifier(nm) && Identifier(other) && k <= |other| + 1
    ensures MatchAt(Key(nm), Quoted(other) + ([COLON] + x), k) <==> k == 0 && nm == other && x != [] && x[0] == QUOTE
  {
    hide Body, Key;
    IdentifierIsPlain(other);
    var t := Quoted(other) + ([COLON] + x);
    if MatchAt(Key(nm), t, k) {
      MatchInQuoted(nm, other, [COLON] + x, k);
      assert ([COLON] + x)[1] == x[0];
    }
    if nm == other && x != [] && x[0] == QUOTE {
      MatchBytes(nm, t, 0);
      assert t[1..1 + |nm|] == nm;
      assert t[|nm| + 2..] == [COLON] + x;
    }
  }

  // -------------------------------------------------------------- in one member

  predicate Holds(m: Member, nm: Bytes) {
    m.name == nm && m.value.String?
  }

  /** A match looks only at the bytes from where it starts. */
  lemma MatchShift(p: Bytes, a: Bytes, b: Bytes, k: nat)
    ensures MatchAt(p, a + b, |a| + k) <==> MatchAt(p, b, k)
  {
    if k + |p| <= |b| { assert (a + b)[|a| + k..|a| + k + |p|] == b[k..k + |p|]; }
  }

  lemma MatchNeedsQuote(nm: Bytes, t: Bytes, k: nat)
    requires k < |t| && t[k] != QUOTE
    ensures !MatchAt(Key(nm), t, k)
  {
    MatchBytes(nm, t, k);
  }

  lemma NoMatchInValue(nm: Bytes, v: Value, x: Bytes, k: nat)
    requires Identifier(nm) && k < |EncodeValue(v)|
    requires x != [] && Delimiter(x[0])
    ensures !MatchAt(Key(nm), EncodeValue(v) + x, k)
  {
    hide Body, Key, MatchAt, Decimal.Format;
    if v.String? {
      NoMatchInString(nm, v.s, x, k);
    } else {
      assert Decimal.IsDigit(Decimal.Format(v.n)[k]);
      MatchNeedsQuote(nm, EncodeValue(v) + x, k);
    }
  }

  lemma MatchInMember(nm: Bytes, m: Member, x: Bytes, k: nat)
    requires Identifier(nm) && Identifier(m.name) && k < |EncodeMember(m)|
    requires x != [] && Delimiter(x[0])
    ensures MatchAt(Key(nm), EncodeMember(m) + x, k) <==> k == 0 && Holds(m, nm)
  {
    hide Body, Key, MatchAt, EncodeValue;
    var v := EncodeValue(m.value);
    IdentifierIsPlain(m.name);
    FirstOfValue(m.value);
    assert EncodeMember(m) + x == Quoted(m.name) + ([COLON] + (v + x));
    var a := Quoted(m.name) + [COLON];
    assert EncodeMember(m) + x == a + (v + x);
    if k <= |m.name| + 1 {
      MatchInName(nm, m.name, v + x, k);
    } else if k == |m.name| + 2 {
      MatchNeedsQuote(nm, a + (v + x), k);
    } else {
      MatchShift(Key(nm), a, v + x, k - |a|);
      NoMatchInValue(nm, m.value, x, k - |a|);
    }
  }

  // ------------------------------------------------------------- in the members

  predicate Identifiers(ms: seq<Member>) {
    forall i :: 0 <= i < |ms| ==> Identifier(ms[i].name)
  }

  /** Where the i-th member starts among the encoded members. */
  function Offset(ms: seq<Member>, i: nat): nat
    requires i < |ms|
  {
    if i == 0 then 0 else |EncodeMember(ms[0])| + 1 + Offset(ms[1..], i - 1)
  }

  function Rest(ms: seq<Member>): Bytes
    requires ms != []
  {
    if |ms| == 1 then [CLOSE_BRACE] else [COMMA] + EncodeMembers(ms[1..])
  }

  lemma MembersSplit(ms: seq<Member>)
    requires ms != []
    ensures EncodeMembers(ms) == EncodeMember(ms[0]) + Rest(ms)
    ensures Rest(ms) != [] && Delimiter(Rest(ms)[0])
  {
    hide EncodeMember;
    if |ms| == 1 {
      assert EncodeMembers(ms) == EncodeMember(ms[0]) + [CLOSE_BRACE];
    } else {
      Associate(EncodeMember(ms[0]), [COMMA], EncodeMembers(ms[1..]));
    }
  }

  /** The first member, or the delimiter after it, or the other members. */
  lemma MatchStep(nm: Bytes, ms: seq<Member>, k: nat)
    requires Identifier(nm) && Identifiers(ms) && ms != []
    ensures var w := |EncodeMember(ms[0])|;
            && (k <= w ==> (MatchAt(Key(nm), EncodeMembers(ms), k) <==> k == 0 && Holds(ms[0], nm)))
            && (k > w ==> (MatchAt(Key(nm), EncodeMembers(ms), k)
                           <==> |ms| > 1 && MatchAt(Key(nm), EncodeMembers(ms[1..]), k - w - 1)))
  {
    hide Key, EncodeMember, EncodeMembers, Rest, MatchAt, Identifier, Holds;
    MembersSplit(ms);
    RestIs(ms);
    var a, r := EncodeMember(ms[0]), Rest(ms);
    if k < |a| {
      MatchInMember(nm, ms[0], r, k);
    } else if k == |a| {
      assert (a + r)[k] == r[0];
      MatchNeedsQuote(nm, a + r, k);
      NotEmptyMember(ms[0]);
    } else if |ms| > 1 {
      Associate(a, [COMMA], EncodeMembers(ms[1..]));
      MatchShift(Key(nm), a + [COMMA], EncodeMembers(ms[1..]), k - |a| - 1);
    } else {
      KeyIsLong(nm);
      NoMatchPastEnd(Key(nm), a + r, k);
    }
  }

  lemma RestIs(ms: seq<Member>)
    requires ms != []
    ensures Rest(ms) == if |ms| == 1 then [CLOSE_BRACE] else [COMMA] + EncodeMembers(ms[1..])
  {
  }

  lemma NoMatchPastEnd(p: Bytes, t: Bytes, k: nat)
    requires k + |p| > |t|
    ensures !MatchAt(p, t, k)
  {
  }

  lemma NotEmptyMember(m: Member)
    ensures EncodeMember(m) != []
  {
  }

  lemma KeyIsLong(nm: Bytes)
    ensures |Key(nm)| >= 4
  {
  }

  /** The text occurs exactly where a member of that name with a string value starts. */
  lemma {:induction false} MatchIffMember(nm: Bytes, ms: seq<Member>, k: nat)
    requires Identifier(nm) && Identifiers(ms) && ms != []
    ensures MatchAt(Key(nm), EncodeMembers(ms), k)
            <==> exists i :: 0 <= i < |ms| && Offset(ms, i) == k && Holds(ms[i], nm)
    decreases |ms|
  {
    hide *;
    MatchStep(nm, ms, k);
    OffsetStep(nm, ms, k);
    var w := |EncodeMember(ms[0])|;
    if k > w && |ms| > 1 {
      TailIdentifiers(ms);
      MatchIffMember(nm, ms[1..], k - w - 1);
    }
  }

  lemma TailIdentifiers(ms: seq<Member>)
    requires Identifiers(ms) && ms != []
    ensures Identifiers(ms[1..])
  {
  }

  lemma OffsetStep(nm: Bytes, ms: seq<Member>, k: nat)
    requires ms != []
    ensures var w := |EncodeMember(ms[0])|;
            && (k <= w ==> ((exists i :: 0 <= i < |ms| && Offset(ms, i) == k && Holds(ms[i], nm))
                            <==> k == 0 && Holds(ms[0], nm)))
            && (k > w ==> ((exists i :: 0 <= i < |ms| && Offset(ms, i) == k && Holds(ms[i], nm))
                           <==> exists j ::
                                  0 <= j < |ms[1..]| && Offset(ms[1..], j) == k - w - 1 && Holds(ms[1..][j], nm)))
  {
    hide EncodeMember, Holds;
    var w := |EncodeMember(ms[0])|;
    assert Offset(ms, 0) == 0;
    assert forall i :: 0 < i < |ms| ==> Offset(ms, i) == w + 1 + Offset(ms[1..], i - 1) && ms[i] == ms[1..][i - 1];
    if k > w && exists j :: 0 <= j < |ms[1..]| && Offset(ms[1..], j) == k - w - 1 && Holds(ms[1..][j], nm) {
      var j :| 0 <= j < |ms[1..]| && Offset(ms[1..], j) == k - w - 1 && Holds(ms[1..][j], nm);
      assert Offset(ms, j + 1) == k && Holds(ms[j + 1], nm);
    }
  }

  // ------------------------------------------------------------------ the search

  const HEX_LENGTH := 64

  /** signerOf for a member of any name: the text occurs exactly once and is followed by 64
      lower-case hexadecimal digits and a quote. */
  function HexMember(nm: Bytes, t: Bytes): Option<Bytes> {
    var i := IndexFrom(Key(nm), t, 0);
    if i < 0 then None
    else if IndexFrom(Key(nm), t, i + |Key(nm)|) >= 0 then None
    else if i + |Key(nm)| > |t| then None
    else
      var v := t[i + |Key(nm)|..];
      if |v| < HEX_LENGTH + 1 || v[HEX_LENGTH] != QUOTE then None
      else if !Hex.Lower(v[..HEX_LENGTH], HEX_LENGTH) then None
      else Some(v[..HEX_LENGTH])
  }

  /** Member `i` is the one member with this name. */
  predicate OnlyAt(ms: seq<Member>, nm: Bytes, i: nat) {
    i < |ms| && forall j :: 0 <= j < |ms| ==> (Holds(ms[j], nm) <==> j == i)
  }

  lemma {:induction false} TextAt(ms: seq<Member>, i: nat)
    requires i < |ms|
    ensures Offset(ms, i) <= |EncodeMembers(ms)|
    ensures EncodeMembers(ms)[Offset(ms, i)..] == EncodeMember(ms[i]) + Rest(ms[i..])
    decreases i
  {
    hide EncodeMember, Rest;
    MembersSplit(ms);
    if i == 0 {
      assert ms[0..] == ms;
    } else {
      TextAt(ms[1..], i - 1);
      TextSplit(ms);
      assert ms[1..][i - 1..] == ms[i..];
      var a, r, o := EncodeMember(ms[0]) + [COMMA], EncodeMembers(ms[1..]), Offset(ms[1..], i - 1);
      assert (a + r)[|a| + o..] == r[o..];
    }
  }

  lemma TextSplit(ms: seq<Member>)
    requires |ms| > 1
    ensures EncodeMembers(ms) == EncodeMember(ms[0]) + [COMMA] + EncodeMembers(ms[1..])
  {
  }

  lemma IsMember(ms: seq<Member>, nm: Bytes, i: nat)
    requires OnlyAt(ms, nm, i)
    ensures i < |ms|
  {
  }

  /** Where the text occurs in the whole object: at one place. */
  lemma OneMatch(nm: Bytes, ms: seq<Member>, i: nat, k: nat)
    requires Identifier(nm) && Identifiers(ms) && OnlyAt(ms, nm, i)
    ensures MatchAt(Key(nm), EncodeObject(ms), k) <==> k == 1 + Offset(ms, i)
  {
    hide Key, EncodeMembers, MatchAt, Offset, Identifier, Identifiers, Holds;
    if k == 0 {
      MatchNeedsQuote(nm, EncodeObject(ms), 0);
    } else {
      MatchShift(Key(nm), [OPEN_BRACE], EncodeMembers(ms), k - 1);
      MatchIffMember(nm, ms, k - 1);
      if k == 1 + Offset(ms, i) { assert Holds(ms[i], nm); }
    }
  }

  lemma KeyStarts(m: Member, y: Bytes)
    requires Body(m.name) == m.name && m.value.String?
    ensures EncodeMember(m) + y == Key(m.name) + (Body(m.value.s) + [QUOTE] + y)
  {
    hide Body;
  }

  /** `v` is an encoded string closed by its quote. */
  ghost predicate Closed(v: Bytes, s: Bytes, y: Bytes) {
    v == Body(s) + [QUOTE] + y
  }

  /** What is read in `v`: as many lower-case digits as there must be, and a quote. */
  ghost predicate ReadsAs(v: Bytes, x: Bytes) {
    |v| > HEX_LENGTH && v[HEX_LENGTH] == QUOTE && v[..HEX_LENGTH] == x && Hex.Lower(x, HEX_LENGTH)
  }

  /** What follows the text is the member's value, encoded and closed. */
  lemma AfterMatch(nm: Bytes, ms: seq<Member>, i: nat) returns (v: Bytes, y: Bytes)
    requires Identifier(nm) && OnlyAt(ms, nm, i)
    ensures ms[i].value.String? && Closed(v, ms[i].value.s, y)
    ensures StandsAt(EncodeObject(ms), 1 + Offset(ms, i) + |Key(nm)|, v)
  {
    hide Body, EncodeMembers, Rest, Offset;
    assert Holds(ms[i], nm);
    IdentifierIsPlain(nm);
    TextAt(ms, i);
    y := Rest(ms[i..]);
    var o, b := Offset(ms, i), Body(ms[i].value.s) + [QUOTE] + y;
    KeyStarts(ms[i], y);
    assert EncodeObject(ms)[1 + o..] == EncodeMembers(ms)[o..];
    assert EncodeObject(ms)[1 + o + |Key(nm)|..] == EncodeObject(ms)[1 + o..][|Key(nm)|..];
    assert (Key(nm) + b)[|Key(nm)|..] == b;
    v := b;
  }

  lemma {:induction false} LowerHexIsPlain(x: Bytes, n: nat)
    requires Hex.Lower(x, n)
    ensures Body(x) == x
  {
    BodyOfPlain(x);
  }

  /** The value read is the member's own, and only a value of the required form is read. */
  lemma ReadsTheValue(s: Bytes, y: Bytes, v: Bytes, x: Bytes)
    requires Closed(v, s, y)
    ensures ReadsAs(v, x) <==> s == x && Hex.Lower(x, HEX_LENGTH)
  {
    hide Body;
    if Hex.Lower(x, HEX_LENGTH) {
      LowerHexIsPlain(x, HEX_LENGTH);
      hide Hex.Lower;
      if |v| > HEX_LENGTH && v[HEX_LENGTH] == QUOTE && v[..HEX_LENGTH] == x {
        assert v == x + [QUOTE] + v[HEX_LENGTH + 1..];
        BodyUnique(s, y, x, v[HEX_LENGTH + 1..]);
      }
    }
  }

  /** The search on canonical bytes gives the member's value exactly when that value is 64
      lower-case hexadecimal digits, whatever the other members hold. */
  lemma HexMemberExact(nm: Bytes, ms: seq<Member>, i: nat, x: Bytes)
    requires Identifier(nm) && Identifiers(ms) && OnlyAt(ms, nm, i)
    ensures HexMember(nm, EncodeObject(ms)) == Some(x)
            <==> ms[i].value == String(x) && Hex.Lower(x, HEX_LENGTH)
  {
    hide *;
    IsMember(ms, nm, i);
    var v, y := AfterMatch(nm, ms, i);
    FoundAt(nm, ms, i, v, x);
    ReadsTheValue(ms[i].value.s, y, v, x);
  }

  lemma FoundAt(nm: Bytes, ms: seq<Member>, i: nat, v: Bytes, x: Bytes)
    requires Identifier(nm) && Identifiers(ms) && OnlyAt(ms, nm, i)
    requires StandsAt(EncodeObject(ms), 1 + Offset(ms, i) + |Key(nm)|, v)
    ensures HexMember(nm, EncodeObject(ms)) == Some(x) <==> ReadsAs(v, x)
  {
    hide *;
    IsMember(ms, nm, i);
    OnlyMatch(nm, ms, i);
    KeyIsLong(nm);
    FoundOnce(nm, EncodeObject(ms), 1 + Offset(ms, i), v, x);
  }

  /** `v` is what remains of `t` from `o` on. */
  ghost predicate StandsAt(t: Bytes, o: nat, v: Bytes) {
    o <= |t| && t[o..] == v
  }

  lemma OnlyMatch(nm: Bytes, ms: seq<Member>, i: nat)
    requires Identifier(nm) && Identifiers(ms) && OnlyAt(ms, nm, i)
    ensures MatchesOnlyAt(nm, EncodeObject(ms), 1 + Offset(ms, i))
  {
    hide Key, EncodeObject, MatchAt, Offset, Identifier, Identifiers, OnlyAt;
    IsMember(ms, nm, i);
    forall k: nat ensures MatchAt(Key(nm), EncodeObject(ms), k) <==> k == 1 + Offset(ms, i) { OneMatch(nm, ms, i, k); }
  }

  ghost predicate MatchesOnlyAt(nm: Bytes, t: Bytes, o: nat) {
    forall k: nat :: MatchAt(Key(nm), t, k) <==> k == o
  }

  lemma FoundOnce(nm: Bytes, t: Bytes, o: nat, v: Bytes, x: Bytes)
    requires MatchesOnlyAt(nm, t, o)
    requires |Key(nm)| > 0 && StandsAt(t, o + |Key(nm)|, v)
    ensures HexMember(nm, t) == Some(x) <==> ReadsAs(v, x)
  {
    hide Key, MatchAt, Hex.Lower;
    assert MatchAt(Key(nm), t, o);
    assert IndexFrom(Key(nm), t, 0) == o;
    assert IndexFrom(Key(nm), t, o + |Key(nm)|) == -1;
  }
}
