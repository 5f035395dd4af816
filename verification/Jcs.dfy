/** The canonical JSON of internal/jcs/jcs.go (RFC 8785) for flat objects: strings with the
    minimal escapes, integers, and members in order of their names. */
module Jcs {
  import opened Bytes
  import opened Text
  import Decimal
  import Hex
  import Utf8

  const QUOTE: byte := 34
  const BACKSLASH: byte := 92
  const COLON: byte := 58
  const COMMA: byte := 44
  const OPEN_BRACE: byte := 123
  const CLOSE_BRACE: byte := 125

  // ------------------------------------------------------------------ strings

  /** The escape of one ASCII character, or itself. */
  function Token(b: byte): Bytes {
    if b == QUOTE then [BACKSLASH, QUOTE]
    else if b == BACKSLASH then [BACKSLASH, BACKSLASH]
    else if b == 8 then [BACKSLASH, 98]
    else if b == 12 then [BACKSLASH, 102]
    else if b == 10 then [BACKSLASH, 110]
    else if b == 13 then [BACKSLASH, 114]
    else if b == 9 then [BACKSLASH, 116]
    else if b < 32 then [BACKSLASH, 117, 48, 48, Hex.Digit(b as int / 16), Hex.Digit(b as int % 16)]
    else [b]
  }

  /** The inside of an encoded string. */
  function Body(s: Bytes): Bytes {
    if s == [] then [] else Token(s[0]) + Body(s[1..])
  }

  function Quoted(s: Bytes): Bytes {
    [QUOTE] + Body(s) + [QUOTE]
  }

  lemma {:induction false} BodyConcat(s: Bytes, t: Bytes)
    ensures Body(s + t) == Body(s) + Body(t)
  {
    hide Token;
    if s == [] {
      assert s + t == t;
    } else {
      BodyConcat(s[1..], t);
      assert (s + t)[0] == s[0] && (s + t)[1..] == s[1..] + t;
      assert Body(s + t) == Token(s[0]) + Body(s[1..] + t) && Body(s) == Token(s[0]) + Body(s[1..]);
      hide Body;
      Associate(Token(s[0]), Body(s[1..]), Body(t));
    }
  }

  lemma BodyOne(b: byte)
    ensures Body([b]) == Token(b)
  {
    assert [b][1..] == [];
  }

  lemma {:induction false} BodyOfPlain(s: Bytes)
    requires forall i :: 0 <= i < |s| ==> Token(s[i]) == [s[i]]
    ensures Body(s) == s
  {
    if s != [] {
      BodyOfPlain(s[1..]);
      assert s == [s[0]] + s[1..];
    }
  }

  lemma NotAscii(s: Bytes)
    requires forall i :: 0 <= i < |s| ==> s[i] >= 0x80
    ensures Body(s) == s
  {
    hide Body, Token;
    forall i | 0 <= i < |s| ensures Token(s[i]) == [s[i]] { PlainByte(s[i]); }
    BodyOfPlain(s);
  }

  lemma PlainByte(b: byte)
    requires b >= 0x80
    ensures Token(b) == [b]
  {
  }

  /** What encodeString writes for the code point at `i`, of width `w`. */
  function Piece(s: Bytes, i: nat, w: nat): Bytes
    requires i < |s| && i + w <= |s|
  {
    if s[i] < 0x80 then Token(s[i]) else s[i..i + w]
  }

  /** encodeString, code point by code point; None is ErrInvalidUTF8. */
  method EncodeString(s: Bytes) returns (r: Option<Bytes>)
    ensures r == if Utf8.Valid(s) then Some(Quoted(s)) else None
  {
    hide *;
    if !Utf8.Valid(s) { return None; }
    var buf: Bytes, i: nat := [QUOTE], 0;
    WrittenNothing(s);
    while i < |s|
      invariant i <= |s| && Utf8.Valid(s[i..])
      invariant Written(buf, s, i)
    {
      var w := Utf8.Width(s[i..]);
      WrittenNext(buf, s, i);
      buf := buf + Piece(s, i, w);
      i := i + w;
    }
    WrittenAll(buf, s, i);
    return Some(buf + [QUOTE]);
  }

  /** The buffer holds the opening quote and the first `i` bytes, encoded. */
  ghost predicate Written(buf: Bytes, s: Bytes, i: nat)
    requires i <= |s|
  {
    buf == [QUOTE] + Body(s[..i])
  }

  lemma WrittenNothing(s: Bytes)
    ensures Written([QUOTE], s, 0) && s[0..] == s
  {
  }

  lemma WrittenNext(buf: Bytes, s: Bytes, i: nat)
    requires i < |s| && Utf8.Valid(s[i..]) && Written(buf, s, i)
    ensures var w := Utf8.Width(s[i..]);
            0 < w <= |s| - i && Utf8.Valid(s[i + w..]) && Written(buf + Piece(s, i, w), s, i + w)
  {
    hide Body, Token, Utf8.Width;
    NextCodePoint(s, i);
    var w := Utf8.Width(s[i..]);
    assert [QUOTE] + Body(s[..i]) + Piece(s, i, w) == [QUOTE] + (Body(s[..i]) + Piece(s, i, w));
  }

  lemma WrittenAll(buf: Bytes, s: Bytes, i: nat)
    requires i == |s| && Written(buf, s, i)
    ensures buf + [QUOTE] == Quoted(s)
  {
    assert s[..i] == s;
  }

  /** What one code point adds: the escape of an ASCII character, or its bytes as they are. */
  lemma NextCodePoint(s: Bytes, i: nat)
    requires i < |s| && Utf8.Valid(s[i..])
    ensures var w := Utf8.Width(s[i..]);
            && 0 < w <= |s| - i && Utf8.Valid(s[i + w..])
            && Body(s[..i + w]) == Body(s[..i]) + Piece(s, i, w)
  {
    hide Token, Body;
    var w := Utf8.Width(s[i..]);
    var head := s[i..i + w];
    assert s[i..][w..] == s[i + w..] && s[..i + w] == s[..i] + head;
    assert forall k :: 0 <= k < w ==> head[k] == s[i..][k];
    BodyConcat(s[..i], head);
    if s[i] < 0x80 {
      assert head == [s[i]];
      BodyOne(s[i]);
    } else {
      NotAscii(head);
    }
  }

  // ------------------------------------------------------ strings, read back

  /** The byte a token stands for, and the token's length, at the start of `t`. */
  function ReadToken(t: Bytes): Option<(byte, nat)> {
    if t == [] || t[0] == QUOTE then None
    else if t[0] != BACKSLASH then Some((t[0], 1))
    else if |t| < 2 then None
    else if t[1] == 98 then Some((8, 2))
    else if t[1] == 102 then Some((12, 2))
    else if t[1] == 110 then Some((10, 2))
    else if t[1] == 114 then Some((13, 2))
    else if t[1] == 116 then Some((9, 2))
    else if t[1] == 117 then
      (if |t| < 6 || !(48 <= t[4] <= 49) then None
       else Some((((t[4] as int - 48) * 16 + HexValue(t[5]) % 16) as byte, 6)))
    else Some((t[1], 2))
  }

  function HexValue(c: byte): nat {
    if 48 <= c <= 57 then c as int - 48 else if 97 <= c <= 102 then c as int - 87 else 0
  }

  lemma ReadTokenOf(b: byte, rest: Bytes)
    ensures ReadToken(Token(b) + rest) == Some((b, |Token(b)|))
  {
    assert (Token(b) + rest)[..|Token(b)|] == Token(b);
  }

  /** The end of an encoded string is where it seems to be, and its content is unique. */
  lemma {:induction false} BodyUnique(s: Bytes, x: Bytes, t: Bytes, y: Bytes)
    requires Body(s) + [QUOTE] + x == Body(t) + [QUOTE] + y
    ensures s == t && x == y
  {
    if s == [] || t == [] {
      EndUnique(s, x, t, y);
    } else {
      var u := Body(s) + [QUOTE] + x;
      BodyStep(s, x);
      BodyStep(t, y);
      ReadTokenOf(s[0], Body(s[1..]) + [QUOTE] + x);
      ReadTokenOf(t[0], Body(t[1..]) + [QUOTE] + y);
      assert s[0] == t[0];
      assert u[|Token(s[0])|..] == Body(s[1..]) + [QUOTE] + x;
      assert u[|Token(t[0])|..] == Body(t[1..]) + [QUOTE] + y;
      BodyUnique(s[1..], x, t[1..], y);
      assert s == [s[0]] + s[1..] && t == [t[0]] + t[1..];
    }
  }

  lemma BodyStep(s: Bytes, x: Bytes)
    requires s != []
    ensures Body(s) + [QUOTE] + x == Token(s[0]) + (Body(s[1..]) + [QUOTE] + x)
  {
    hide Token;
    var a, b := Token(s[0]), Body(s[1..]);
    assert Body(s) == a + b;
    hide *;
    Associate(a, b, [QUOTE]);
    Associate(a, b + [QUOTE], x);
  }

  lemma FirstOfBody(s: Bytes, x: Bytes)
    ensures (Body(s) + [QUOTE] + x)[0] == QUOTE <==> s == []
  {
    if s != [] { assert (Body(s) + [QUOTE] + x)[0] == Token(s[0])[0]; }
  }

  lemma EndUnique(s: Bytes, x: Bytes, t: Bytes, y: Bytes)
    requires s == [] || t == []
    requires Body(s) + [QUOTE] + x == Body(t) + [QUOTE] + y
    ensures s == t && x == y
  {
    FirstOfBody(s, x);
    FirstOfBody(t, y);
    assert (Body(s) + [QUOTE] + x)[1..] == x && (Body(t) + [QUOTE] + y)[1..] == y;
  }

  // ------------------------------------------------------------------ objects

  datatype Value = Number(n: nat) | String(s: Bytes)

  datatype Member = Member(name: Bytes, value: Value)

  function EncodeValue(v: Value): Bytes {
    match v
    case Number(n) => Decimal.Format(n)
    case String(s) => Quoted(s)
  }

  function EncodeMember(m: Member): Bytes {
    Quoted(m.name) + [COLON] + EncodeValue(m.value)
  }

  /** The members, separated by commas and closed by the brace. */
  function EncodeMembers(ms: seq<Member>): Bytes {
    if ms == [] then [CLOSE_BRACE]
    else if |ms| == 1 then EncodeMember(ms[0]) + [CLOSE_BRACE]
    else EncodeMember(ms[0]) + [COMMA] + EncodeMembers(ms[1..])
  }

  function EncodeObject(ms: seq<Member>): Bytes {
    [OPEN_BRACE] + EncodeMembers(ms)
  }

  predicate AllValid(ms: seq<Member>) {
    forall i :: 0 <= i < |ms| ==> ValidMember(ms[i])
  }

  /** The members still to be written after the first `i`. */
  function Remaining(ms: seq<Member>, i: nat): Bytes
    requires i <= |ms|
  {
    if i == |ms| then [CLOSE_BRACE] else if i == 0 then EncodeMembers(ms) else [COMMA] + EncodeMembers(ms[i..])
  }

  lemma RemainingStep(ms: seq<Member>, i: nat)
    requires i < |ms|
    ensures Remaining(ms, i) == (if i > 0 then [COMMA] else []) + EncodeMember(ms[i]) + Remaining(ms, i + 1)
  {
    hide EncodeMember;
    assert ms[i..][1..] == ms[i + 1..];
    if i == 0 { assert ms[0..] == ms; }
  }

  predicate ValidMember(m: Member) {
    Utf8.Valid(m.name) && (m.value.String? ==> Utf8.Valid(m.value.s))
  }

  /** One turn of encode's loop: a name, a colon and a value. */
  method AppendMember(buf: Bytes, m: Member) returns (r: Option<Bytes>)
    ensures r == if ValidMember(m) then Some(buf + EncodeMember(m)) else None
  {
    var name := EncodeString(m.name);
    if name.None? { return None; }
    hide Quoted, Utf8.Valid;
    var value: Option<Bytes>;
    match m.value {
      case Number(n) => value := Some(Decimal.Format(n));
      case String(s) => value := EncodeString(s);
    }
    if value.None? { return None; }
    assert buf + name.value + [COLON] + value.value == buf + (name.value + [COLON] + value.value);
    return Some(buf + name.value + [COLON] + value.value);
  }

  /** The first `i` members are written and good. */
  ghost predicate WrittenMembers(buf: Bytes, ms: seq<Member>, i: nat)
    requires i <= |ms|
  {
    buf + Remaining(ms, i) == EncodeObject(ms) && AllValid(ms[..i])
  }

  lemma WrittenFirst(ms: seq<Member>)
    ensures WrittenMembers([OPEN_BRACE], ms, 0)
  {
  }

  lemma WrittenMember(buf: Bytes, ms: seq<Member>, i: nat)
    requires i < |ms| && WrittenMembers(buf, ms, i)
    ensures !ValidMember(ms[i]) ==> !AllValid(ms)
    ensures ValidMember(ms[i]) ==>
              WrittenMembers((if i > 0 then buf + [COMMA] else buf) + EncodeMember(ms[i]), ms, i + 1)
  {
    hide Remaining, EncodeObject, EncodeMember, ValidMember;
    RemainingStep(ms, i);
    var c, m, r := if i > 0 then [COMMA] else [], EncodeMember(ms[i]), Remaining(ms, i + 1);
    assert buf + (c + m + r) == (buf + c) + m + r;
    assert i == 0 ==> buf + c == buf;
    assert ms[..i + 1] == ms[..i] + [ms[i]];
  }

  lemma WrittenObject(buf: Bytes, ms: seq<Member>)
    requires WrittenMembers(buf, ms, |ms|)
    ensures buf + [CLOSE_BRACE] == EncodeObject(ms) && AllValid(ms)
  {
    assert ms[..|ms|] == ms;
  }

  /** encode, for an object whose members are already in order: None is ErrInvalidUTF8. */
  method Encode(ms: seq<Member>) returns (r: Option<Bytes>)
    ensures r == if AllValid(ms) then Some(EncodeObject(ms)) else None
  {
    hide *;
    var buf: Bytes, i: nat := [OPEN_BRACE], 0;
    WrittenFirst(ms);
    while i < |ms|
      invariant i <= |ms| && WrittenMembers(buf, ms, i)
    {
      WrittenMember(buf, ms, i);
      if i > 0 { buf := buf + [COMMA]; }
      var next := AppendMember(buf, ms[i]);
      if next.None? { return None; }
      buf := next.value;
      i := i + 1;
    }
    WrittenObject(buf, ms);
    return Some(buf + [CLOSE_BRACE]);
  }

  // ----------------------------------------------------- objects, read back

  lemma {:induction false} NumberUnique(m: nat, c: byte, x: Bytes, n: nat, d: byte, y: Bytes)
    requires !Decimal.IsDigit(c) && !Decimal.IsDigit(d)
    requires Decimal.Format(m) + [c] + x == Decimal.Format(n) + [d] + y
    ensures m == n && [c] + x == [d] + y
  {
    hide Decimal.Format, Decimal.Value;
    var a, b := Decimal.Format(m), Decimal.Format(n);
    var u := a + [c] + x;
    assert u[|a|] == c && u[|b|] == d;
    assert forall i :: 0 <= i < |a| ==> u[i] == a[i] && Decimal.IsDigit(a[i]);
    assert forall i :: 0 <= i < |b| ==> u[i] == b[i] && Decimal.IsDigit(b[i]);
    assert |a| == |b|;
    assert a == u[..|a|] && b == u[..|b|];
    assert Decimal.Value(a) == m && Decimal.Value(b) == n;
    assert [c] + x == u[|a|..] && [d] + y == u[|b|..];
  }

  predicate Delimiter(c: byte) {
    c == COMMA || c == CLOSE_BRACE
  }

  lemma ValueUnique(v: Value, c: byte, x: Bytes, w: Value, d: byte, y: Bytes)
    requires Delimiter(c) && Delimiter(d)
    requires EncodeValue(v) + [c] + x == EncodeValue(w) + [d] + y
    ensures v == w && [c] + x == [d] + y
  {
    hide Quoted, Decimal.Format;
    Grouped(EncodeValue(v), [c], x);
    Grouped(EncodeValue(w), [d], y);
    SameKind(v, [c] + x, w, [d] + y);
    if v.Number? {
      NumberUnique(v.n, c, x, w.n, d, y);
    } else {
      StringUnique(v.s, c, x, w.s, d, y);
    }
  }

  lemma Grouped(a: Bytes, b: Bytes, c: Bytes)
    ensures a + b + c == a + (b + c)
  {
  }

  lemma SameKind(v: Value, x: Bytes, w: Value, y: Bytes)
    requires EncodeValue(v) + x == EncodeValue(w) + y
    ensures v.Number? == w.Number?
  {
    FirstOfValue(v);
    FirstOfValue(w);
    hide EncodeValue;
    assert (EncodeValue(v) + x)[0] == EncodeValue(v)[0] && (EncodeValue(w) + y)[0] == EncodeValue(w)[0];
  }

  lemma StringUnique(s: Bytes, c: byte, x: Bytes, t: Bytes, d: byte, y: Bytes)
    requires Quoted(s) + [c] + x == Quoted(t) + [d] + y
    ensures s == t && [c] + x == [d] + y
  {
    hide Quoted;
    assert Quoted(s) + [c] + x == Quoted(s) + ([c] + x) && Quoted(t) + [d] + y == Quoted(t) + ([d] + y);
    QuotedUnique(s, [c] + x, t, [d] + y);
  }

  lemma QuotedUnique(s: Bytes, x: Bytes, t: Bytes, y: Bytes)
    requires Quoted(s) + x == Quoted(t) + y
    ensures s == t && x == y
  {
    hide Body;
    assert (Quoted(s) + x)[1..] == Body(s) + [QUOTE] + x;
    assert (Quoted(t) + y)[1..] == Body(t) + [QUOTE] + y;
    BodyUnique(s, x, t, y);
  }

  lemma FirstOfValue(v: Value)
    ensures EncodeValue(v) != [] && (EncodeValue(v)[0] == QUOTE <==> v.String?)
  {
    if v.Number? { StartsWithDigit(v.n); }
  }

  lemma StartsWithDigit(n: nat)
    ensures Decimal.Format(n) != [] && Decimal.IsDigit(Decimal.Format(n)[0]) && Decimal.Format(n)[0] != QUOTE
  {
    hide Decimal.Format;
    var s := Decimal.Format(n);
    assert Decimal.IsDigit(s[0]);
  }

  lemma MemberUnique(m: Member, c: byte, x: Bytes, n: Member, d: byte, y: Bytes)
    requires Delimiter(c) && Delimiter(d)
    requires EncodeMember(m) + [c] + x == EncodeMember(n) + [d] + y
    ensures m == n && [c] + x == [d] + y
  {
    hide Body, Decimal.Format, EncodeValue;
    hide Quoted;
    var a := [COLON] + EncodeValue(m.value) + [c] + x;
    var b := [COLON] + EncodeValue(n.value) + [d] + y;
    assert EncodeMember(m) + [c] + x == Quoted(m.name) + a;
    assert EncodeMember(n) + [d] + y == Quoted(n.name) + b;
    QuotedUnique(m.name, a, n.name, b);
    assert a[1..] == EncodeValue(m.value) + [c] + x && b[1..] == EncodeValue(n.value) + [d] + y;
    ValueUnique(m.value, c, x, n.value, d, y);
  }

  lemma FirstOfMembers(ms: seq<Member>)
    ensures EncodeMembers(ms)[0] == CLOSE_BRACE <==> ms == []
  {
    hide Body, EncodeValue;
    if ms != [] { assert EncodeMembers(ms)[0] == EncodeMember(ms[0])[0] == QUOTE; }
  }

  lemma {:induction false} MembersUnique(ms: seq<Member>, ns: seq<Member>)
    requires EncodeMembers(ms) == EncodeMembers(ns)
    ensures ms == ns
  {
    FirstOfMembers(ms);
    FirstOfMembers(ns);
    if ms != [] { SomeMembersUnique(ms, ns); }
  }

  lemma {:induction false} SomeMembersUnique(ms: seq<Member>, ns: seq<Member>)
    requires ms != [] && ns != []
    requires EncodeMembers(ms) == EncodeMembers(ns)
    ensures ms == ns
  {
    hide EncodeMember, EncodeMembers;
    var c, x := FirstMember(ms);
    var d, y := FirstMember(ns);
    MemberUnique(ms[0], c, x, ns[0], d, y);
    FirstAndRest(c, x, d, y);
    assert ms == [ms[0]] + ms[1..] && ns == [ns[0]] + ns[1..];
    if |ms| > 1 { SomeMembersUnique(ms[1..], ns[1..]); }
  }

  lemma FirstMember(ms: seq<Member>) returns (c: byte, x: Bytes)
    requires ms != []
    ensures Delimiter(c) && (c == COMMA <==> |ms| > 1)
    ensures EncodeMembers(ms) == EncodeMember(ms[0]) + [c] + x
    ensures x == if |ms| == 1 then [] else EncodeMembers(ms[1..])
  {
    hide EncodeMember;
    c := if |ms| == 1 then CLOSE_BRACE else COMMA;
    x := if |ms| == 1 then [] else EncodeMembers(ms[1..]);
    assert |ms| == 1 ==> EncodeMember(ms[0]) + [c] + x == EncodeMember(ms[0]) + [c];
  }

  lemma FirstAndRest(c: byte, x: Bytes, d: byte, y: Bytes)
    requires [c] + x == [d] + y
    ensures c == d && x == y
  {
    assert ([c] + x)[0] == c && ([d] + y)[0] == d && ([c] + x)[1..] == x && ([d] + y)[1..] == y;
  }

  /** One object, one text; the empty one included. */
  lemma ObjectUnique(ms: seq<Member>, ns: seq<Member>)
    requires EncodeObject(ms) == EncodeObject(ns)
    ensures ms == ns
  {
    assert EncodeObject(ms)[1..] == EncodeMembers(ms) && EncodeObject(ns)[1..] == EncodeMembers(ns);
    MembersUnique(ms, ns);
  }
}
