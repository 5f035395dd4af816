/** Printings of a member tree: the strict reader accepts exactly these texts, and gives back the
    tree; and what every accepted document satisfies. */
module EstrictoPrint {
  import opened Bytes
  import opened EstrictoGrammar
  import E = Estricto
  import S = EstrictoStrings
  import J = Jcs
  import Hex
  import Utf8

  // --------------------------------------------------------------- whitespace

  predicate AllSpaces(w: Bytes) {
    forall i :: 0 <= i < |w| ==> IsSpace(w[i])
  }

  lemma {:induction false} SpacesSkipped(w: Bytes, t: Bytes)
    requires AllSpaces(w)
    ensures SkipSpaces(w + t) == SkipSpaces(t)
  {
    if w == [] {
      assert w + t == t;
    } else {
      SpacesSkipped(w[1..], t);
      assert (w + t)[1..] == w[1..] + t;
    }
  }

  /** Spaces, and then text that does not begin with one. */
  lemma SkipTo(w: Bytes, t: Bytes)
    requires AllSpaces(w) && t != [] && !IsSpace(t[0])
    ensures SkipSpaces(w + t) == t
  {
    SpacesSkipped(w, t);
  }

  // ------------------------------------------------------------------- strings

  lemma ReadsToken(b: byte, x: Bytes)
    ensures ReadPiece(J.Token(b) + x) == Some(([b], x)) && (J.Token(b) + x)[0] != QUOTE
  {
    var k, t := J.Token(b), J.Token(b) + x;
    assert t[|k|..] == x;
    if |k| == 6 {
      assert t[0] == k[0] && t[1] == k[1] && t[2] == k[2] && t[3] == k[3] && t[4] == k[4] && t[5] == k[5];
      ReadsEscape(b, t);
      hide Hex4, Utf8Of;
    } else {
      assert t[0] == k[0] && (|k| == 2 ==> t[1] == k[1]);
      hide Hex4, Utf8Of;
    }
  }

  lemma ReadsEscape(b: byte, t: Bytes)
    requires b < 32 && |t| >= 6
    requires t[2] == 48 && t[3] == 48 && t[4] == Hex.Digit(b as int / 16) && t[5] == Hex.Digit(b as int % 16)
    ensures Hex4(t[2..]) == Some(b as int) && Utf8Of(b as int) == [b]
  {
    var u := t[2..];
    assert u[0] == t[2] && u[1] == t[3] && u[2] == t[4] && u[3] == t[5];
    DigitValue(b as int / 16);
    DigitValue(b as int % 16);
  }

  lemma DigitValue(v: nat)
    requires v < 16
    ensures HexValue(Hex.Digit(v)) == Some(v)
  {
  }

  /** What encodeString writes, the reader reads. */
  lemma {:induction false} ReadsBody(s: Bytes, x: Bytes)
    ensures ReadBody(J.Body(s) + [QUOTE] + x) == Some((s, x))
  {
    hide J.Token, ReadPiece;
    var t := J.Body(s) + [QUOTE] + x;
    if s == [] {
      assert t == [QUOTE] + x && t[1..] == x;
    } else {
      ReadsBody(s[1..], x);
      J.BodyStep(s, x);
      ReadsToken(s[0], J.Body(s[1..]) + [QUOTE] + x);
      assert [s[0]] + s[1..] == s;
    }
  }

  /** A string between its quotes, spelled in some way. */
  function Text(ps: seq<S.Piece>): Bytes {
    [QUOTE] + S.SpellAll(ps) + [QUOTE]
  }

  function Said(ps: seq<S.Piece>): Bytes {
    if S.AllValid(ps) then S.MeaningAll(ps) else []
  }

  lemma ReadsText(ps: seq<S.Piece>, x: Bytes)
    requires S.AllValid(ps)
    ensures (Text(ps) + x)[0] == QUOTE && ReadBody((Text(ps) + x)[1..]) == Some((Said(ps), x))
  {
    hide S.SpellAll, ReadBody;
    S.ReadsPieces(ps, x);
    assert (Text(ps) + x)[1..] == S.SpellAll(ps) + [QUOTE] + x;
  }

  /** What encodeString writes is one of the spellings of the string, and valid if the string is. */
  lemma EncodedIsASpelling(s: Bytes) returns (ps: seq<S.Piece>)
    ensures S.AllValid(ps) && Text(ps) == J.Quoted(s) && Said(ps) == s
    ensures Utf8.Valid(s) ==> Utf8.Valid(S.SpellAll(ps))
  {
    hide J.Body, S.SpellAll, Utf8.Valid, ReadBody;
    var t := J.Body(s) + [QUOTE];
    assert t == J.Body(s) + [QUOTE] + [];
    ReadsBody(s, []);
    ps := S.PiecesTaken(t);
    assert S.SpellAll(ps) + [QUOTE] + [] == S.SpellAll(ps) + [QUOTE];
    assert t[..|t| - 1] == J.Body(s) && t[..|t| - 1] == S.SpellAll(ps);
    if Utf8.Valid(s) { BodyIsValid(s); }
  }

  // ------------------------------------------------------------------- numbers

  datatype Exponent = Exponent(mark: byte, sign: Option<byte>, digits: Bytes)

  /** A number by the grammar of RFC 8259, section 6. */
  datatype Number = Number(negative: bool, whole: Bytes, fraction: Option<Bytes>, exponent: Option<Exponent>)

  predicate IsDigits(s: Bytes) {
    s != [] && forall i :: 0 <= i < |s| ==> IsDigit(s[i])
  }

  predicate ValidNumber(n: Number) {
    && IsDigits(n.whole) && (n.whole[0] == 48 ==> |n.whole| == 1)
    && (n.fraction.Some? ==> IsDigits(n.fraction.value))
    && (n.exponent.Some? ==>
          && (n.exponent.value.mark == 101 || n.exponent.value.mark == 69)
          && (n.exponent.value.sign.Some? ==> n.exponent.value.sign.value == 43 || n.exponent.value.sign.value == 45)
          && IsDigits(n.exponent.value.digits))
  }

  function SpellExponent(e: Option<Exponent>): Bytes {
    match e
    case None => []
    case Some(x) => [x.mark] + (match x.sign case None => [] case Some(c) => [c]) + x.digits
  }

  function SpellFraction(f: Option<Bytes>): Bytes {
    match f
    case None => []
    case Some(d) => [46] + d
  }

  function Spell(n: Number): Bytes {
    (if n.negative then [45] else []) + n.whole + SpellFraction(n.fraction) + SpellExponent(n.exponent)
  }

  /** Text with which a number before it does not go on. */
  predicate Ends(t: Bytes) {
    t == [] || (!IsDigit(t[0]) && t[0] != 46 && t[0] != 101 && t[0] != 69)
  }

  lemma {:induction false} DigitsSkipped(d: Bytes, t: Bytes)
    requires forall i :: 0 <= i < |d| ==> IsDigit(d[i])
    requires t == [] || !IsDigit(t[0])
    ensures SkipDigits(d + t) == t
  {
    if d == [] {
      assert d + t == t;
    } else {
      DigitsSkipped(d[1..], t);
      assert (d + t)[1..] == d[1..] + t;
    }
  }

  lemma ReadsDigits(d: Bytes, t: Bytes)
    requires IsDigits(d) && (t == [] || !IsDigit(t[0]))
    ensures SomeDigits(d + t) == Some(t)
  {
    DigitsSkipped(d, t);
  }

  lemma ReadsWhole(n: Number, t: Bytes)
    requires ValidNumber(n) && (t == [] || !IsDigit(t[0]))
    ensures AfterInteger((if n.negative then [45] else []) + n.whole + t) == Some(t)
  {
    var u := (if n.negative then [45] else []) + n.whole + t;
    var v := n.whole + t;
    assert u == (if n.negative then [45] else []) + v;
    assert n.negative ==> u[1..] == v;
    assert !n.negative ==> u == v;
    assert v[0] == n.whole[0] && IsDigit(v[0]);
    if n.whole[0] == 48 { assert v[1..] == t; } else { ReadsDigits(n.whole, t); }
  }

  lemma ReadsFraction(f: Option<Bytes>, t: Bytes)
    requires f.Some? ==> IsDigits(f.value)
    requires t == [] || (!IsDigit(t[0]) && t[0] != 46)
    ensures AfterFraction(SpellFraction(f) + t) == Some(t)
  {
    if f.Some? {
      assert (SpellFraction(f) + t)[1..] == f.value + t;
      ReadsDigits(f.value, t);
    } else {
      assert [] + t == t;
    }
  }

  lemma ReadsExponent(e: Option<Exponent>, t: Bytes)
    requires ValidNumber(Number(false, [48], None, e)) && Ends(t)
    ensures AfterExponent(SpellExponent(e) + t) == Some(t)
  {
    hide SomeDigits;
    if e.Some? {
      var x := e.value;
      var w := x.digits + t;
      ReadsDigits(x.digits, t);
      assert w[0] == x.digits[0] && IsDigit(w[0]);
      if x.sign.Some? {
        SpellSigned(x.mark, x.sign.value, x.digits, t);
      } else {
        assert SpellExponent(e) + t == [x.mark] + w;
        assert ([x.mark] + w)[1..] == w;
      }
    } else {
      assert [] + t == t;
    }
  }

  lemma SpellSigned(mark: byte, c: byte, digits: Bytes, t: Bytes)
    ensures var u := SpellExponent(Some(Exponent(mark, Some(c), digits))) + t;
            |u| >= 2 && u[0] == mark && u[1..][0] == c && u[1..][1..] == digits + t
  {
    var u := SpellExponent(Some(Exponent(mark, Some(c), digits))) + t;
    assert u == [mark, c] + (digits + t);
  }

  /** Every number of the grammar is read whole. */
  lemma ReadsNumber(n: Number, t: Bytes)
    requires ValidNumber(n) && Ends(t)
    ensures ReadNumber(Spell(n) + t) == Some((Spell(n), t))
    ensures Spell(n) != [] && (Spell(n)[0] == 45 || IsDigit(Spell(n)[0]))
  {
    hide AfterInteger, AfterFraction, AfterExponent, SpellFraction, SpellExponent, Ends, Spell;
    var e := SpellExponent(n.exponent) + t;
    var f := SpellFraction(n.fraction) + e;
    SpellParts(n, t);
    SpellStarts(n);
    ExponentStarts(n, t);
    ReadsExponent(n.exponent, t);
    ReadsFraction(n.fraction, e);
    ReadsWhole(n, f);
    hide ValidNumber;
  }

  lemma SpellParts(n: Number, t: Bytes)
    ensures Spell(n) + t
            == (if n.negative then [45] else []) + n.whole
               + (SpellFraction(n.fraction) + (SpellExponent(n.exponent) + t))
    ensures |Spell(n) + t| - |t| == |Spell(n)| && (Spell(n) + t)[..|Spell(n)|] == Spell(n)
  {
    hide SpellFraction, SpellExponent;
    var w := (if n.negative then [45] else []) + n.whole;
    Associate(w + SpellFraction(n.fraction), SpellExponent(n.exponent), t);
    Associate(w, SpellFraction(n.fraction), SpellExponent(n.exponent) + t);
  }

  lemma SpellStarts(n: Number)
    requires ValidNumber(n)
    ensures Spell(n) != [] && (Spell(n)[0] == 45 || IsDigit(Spell(n)[0]))
  {
    hide SpellFraction, SpellExponent;
    assert n.whole[0] in n.whole;
  }

  /** Neither what follows the fraction nor what follows the whole starts with a digit. */
  lemma ExponentStarts(n: Number, t: Bytes)
    requires ValidNumber(n) && Ends(t)
    ensures var e := SpellExponent(n.exponent) + t;
            var f := SpellFraction(n.fraction) + e;
            && (e == [] || (!IsDigit(e[0]) && e[0] != 46))
            && (f == [] || !IsDigit(f[0]))
  {
  }
  // ------------------------------------------------------------------- layouts

  /** A member tree laid out: what it says, and the whitespace between its tokens. */
  datatype Layout = LStr(s: seq<S.Piece>) | LNum(n: Number) | LObj(first: Bytes, members: Laid)

  /** The members of an object: whitespace before the name, after it, before the value, after it. */
  datatype Laid = Nothing
                | Laid(before: Bytes, name: seq<S.Piece>, afterName: Bytes, beforeValue: Bytes, value: Layout,
                       afterValue: Bytes, next: Laid)

  function Print(l: Layout): Bytes
    decreases l
  {
    match l
    case LStr(s) => Text(s)
    case LNum(n) => Spell(n)
    case LObj(first, ms) => [OPEN] + first + PrintMembers(ms)
  }

  function PrintMembers(ms: Laid): Bytes
    decreases ms, 0
  {
    match ms
    case Nothing => [CLOSE]
    case Laid(before, name, afterName, beforeValue, value, afterValue, next) =>
      before + (Text(name) + (afterName + ([COLON] + (beforeValue + (Print(value) + (afterValue + PrintNext(next)))))))
  }

  function PrintNext(ms: Laid): Bytes
    decreases ms, 1
  {
    if ms.Nothing? then [CLOSE] else [COMMA] + PrintMembers(ms)
  }

  /** The tree, without its layout. */
  function Tree(l: Layout): Value {
    match l
    case LStr(s) => Str(Said(s))
    case LNum(n) => Num(Spell(n))
    case LObj(_, ms) => Obj(Trees(ms))
  }

  function Trees(ms: Laid): seq<Member> {
    match ms
    case Nothing => []
    case Laid(_, name, _, _, value, _, next) => [Member(Said(name), Tree(value))] + Trees(next)
  }

  /** Whitespace where whitespace may be, numbers of the grammar, distinct names at each level, and no
      deeper than the limit. */
  predicate Good(l: Layout, depth: nat, limit: nat) {
    match l
    case LStr(s) => S.AllValid(s)
    case LNum(n) => ValidNumber(n)
    case LObj(first, ms) => depth + 1 <= limit && AllSpaces(first) && GoodMembers(ms, depth + 1, limit, {})
  }

  predicate GoodMembers(ms: Laid, depth: nat, limit: nat, seen: set<Bytes>) {
    match ms
    case Nothing => true
    case Laid(before, name, afterName, beforeValue, value, afterValue, next) =>
      && AllSpaces(before) && AllSpaces(afterName) && AllSpaces(beforeValue) && AllSpaces(afterValue)
      && S.AllValid(name) && Said(name) !in seen && Good(value, depth, limit)
      && GoodMembers(next, depth, limit, seen + {Said(name)})
  }

  lemma PrintStarts(l: Layout, depth: nat, limit: nat)
    requires Good(l, depth, limit)
    ensures Print(l) != [] && !IsSpace(Print(l)[0])
  {
    if l.LNum? { ReadsNumber(l.n, []); }
  }

  lemma QuotedStarts(s: seq<S.Piece>, x: Bytes)
    ensures Text(s) + x != [] && (Text(s) + x)[0] == QUOTE
  {
  }

  /** After a value come spaces, and then a comma or a brace: a number before it has ended. */
  lemma EndsAfter(w: Bytes, x: Bytes)
    requires AllSpaces(w) && x != [] && (x[0] == COMMA || x[0] == CLOSE)
    ensures Ends(w + x)
  {
    if w != [] { assert (w + x)[0] == w[0]; } else { assert w + x == x; }
  }

  lemma {:induction false} ReadsValue(l: Layout, x: Bytes, depth: nat, limit: nat)
    requires Good(l, depth, limit) && (l.LNum? ==> Ends(x))
    ensures ReadValue(Print(l) + x, depth, limit) == Some((Tree(l), x))
    decreases l, 1
  {
    hide ReadBody, ReadNumber, Text, Said, ValidNumber, SkipSpaces, ReadMembers;
    match l
    case LStr(s) =>
      ReadsText(s, x);
      QuotedStarts(s, x);
    case LNum(n) =>
      ReadsNumber(n, x);
      NumberStarts(Spell(n), x);
      hide Spell;
    case LObj(first, ms) =>
      ReadsObject(l, x, depth, limit);
      assert (Print(l) + x)[0] == OPEN;
      hide ReadObject;
  }

  lemma NumberStarts(a: Bytes, x: Bytes)
    requires a != [] && (a[0] == 45 || IsDigit(a[0]))
    ensures a + x != [] && (a + x)[0] == a[0] && a[0] != QUOTE && a[0] != OPEN
  {
  }

  lemma {:induction false} ReadsObject(l: Layout, x: Bytes, depth: nat, limit: nat)
    requires l.LObj? && Good(l, depth, limit)
    ensures StartsWith(Print(l) + x, OPEN)
    ensures ReadObject(Print(l) + x, depth + 1, limit) == Some((Trees(l.members), x))
    decreases l, 0
  {
    hide ReadBody, ReadNumber, Text, ReadMembers, SkipSpaces, GoodMembers;
    var t, y := Print(l) + x, PrintMembers(l.members) + x;
    assert t[1..] == l.first + y;
    if l.members.Nothing? {
      assert y == [CLOSE] + x && y[1..] == x;
      SkipTo(l.first, y);
    } else {
      var rest := AfterSpaces(l.members, x);
      assert y == l.members.before + rest;
      GoodSpaces(l.members, depth + 1, limit, {});
      BothSpaces(l.first, l.members.before);
      assert t[1..] == (l.first + l.members.before) + rest;
      MemberStarts(l.members, x);
      SkipTo(l.first + l.members.before, rest);
      ReadsMembers(l.members, x, depth + 1, limit, {});
      MembersSkip(l.members.before, rest, depth + 1, limit, {});
    }
  }

  /** The first member from its quote on. */
  function AfterSpaces(ms: Laid, x: Bytes): Bytes
    requires ms.Laid?
  {
    Text(ms.name)
    + (ms.afterName + ([COLON] + (ms.beforeValue + (Print(ms.value) + (ms.afterValue + PrintNext(ms.next))))))
    + x
  }

  lemma MemberStarts(ms: Laid, x: Bytes)
    requires ms.Laid?
    ensures AfterSpaces(ms, x) != [] && AfterSpaces(ms, x)[0] == QUOTE
    ensures PrintMembers(ms) + x == ms.before + AfterSpaces(ms, x)
  {
    hide Print, PrintNext;
  }

  lemma BothSpaces(a: Bytes, b: Bytes)
    requires AllSpaces(a) && AllSpaces(b)
    ensures AllSpaces(a + b)
  {
  }

  lemma GoodSpaces(ms: Laid, depth: nat, limit: nat, seen: set<Bytes>)
    requires ms.Laid? && GoodMembers(ms, depth, limit, seen)
    ensures AllSpaces(ms.before)
  {
  }

  /** objeto has skipped the spaces before the first name already. */
  lemma MembersSkip(w: Bytes, t: Bytes, depth: nat, limit: nat, seen: set<Bytes>)
    requires AllSpaces(w) && t != [] && !IsSpace(t[0])
    ensures ReadMembers(w + t, depth, limit, seen) == ReadMembers(t, depth, limit, seen)
  {
    SkipTo(w, t);
    assert SkipSpaces(t) == t;
    hide ReadBody, ReadValue;
    hide SkipSpaces;
  }

  lemma {:induction false} ReadsMembers(ms: Laid, x: Bytes, depth: nat, limit: nat, seen: set<Bytes>)
    requires ms.Laid? && GoodMembers(ms, depth, limit, seen)
    ensures ReadMembers(PrintMembers(ms) + x, depth, limit, seen) == Some((Trees(ms), x))
    decreases ms, 1
  {
    hide ReadMember, PrintMembers, Good;
    var y := PrintNext(ms.next) + x;
    ReadsMember(ms, x, depth, limit, seen);
    NextStarts(ms.next, x);
    if ms.next.Nothing? {
      assert Trees(ms.next) == [];
      assert [Member(Said(ms.name), Tree(ms.value))] + [] == [Member(Said(ms.name), Tree(ms.value))];
    } else {
      ReadsMembers(ms.next, x, depth, limit, seen + {Said(ms.name)});
    }
  }

  lemma NextStarts(ms: Laid, x: Bytes)
    ensures var y := PrintNext(ms) + x;
            && y != [] && (y[0] == COMMA || y[0] == CLOSE)
            && (ms.Nothing? ==> StartsWith(y, CLOSE) && y[1..] == x)
            && (ms.Laid? ==> StartsWith(y, COMMA) && y[1..] == PrintMembers(ms) + x)
  {
    hide PrintMembers;
    var y := PrintNext(ms) + x;
    if ms.Nothing? { assert y == [CLOSE] + x; } else { assert y == [COMMA] + (PrintMembers(ms) + x); }
  }

  lemma {:induction false} ReadsMember(ms: Laid, x: Bytes, depth: nat, limit: nat, seen: set<Bytes>)
    requires ms.Laid? && GoodMembers(ms, depth, limit, seen)
    ensures ReadMember(PrintMembers(ms) + x, depth, limit, seen)
         == Some((Member(Said(ms.name), Tree(ms.value)), PrintNext(ms.next) + x))
    decreases ms, 0
  {
    var y := PrintNext(ms.next) + x;
    NextStarts(ms.next, x);
    PrintStarts(ms.value, depth, limit);
    EndsAfter(ms.afterValue, y);
    ReadsValue(ms.value, ms.afterValue + y, depth, limit);
    hide *;
    MemberText(ms, x, y);
    // The text after each token, from the last to the first.
    var u4 := Print(ms.value) + (ms.afterValue + y);
    var u2 := [COLON] + (ms.beforeValue + u4);
    var u0 := Text(ms.name) + (ms.afterName + u2);
    GoodParts(ms, depth, limit, seen);
    QuotedStarts(ms.name, ms.afterName + u2);
    SkipTo(ms.afterValue, y);
    SkipTo(ms.beforeValue, u4);
    SkipTo(ms.afterName, u2);
    ReadsText(ms.name, ms.afterName + u2);
    SkipTo(ms.before, u0);
    ReadMemberBy(PrintMembers(ms) + x, depth, limit, seen, u0, Said(ms.name),
                 ms.afterName + u2, u2, u4, Tree(ms.value), ms.afterValue + y, y);
  }

  lemma GoodParts(ms: Laid, depth: nat, limit: nat, seen: set<Bytes>)
    requires ms.Laid? && GoodMembers(ms, depth, limit, seen)
    ensures AllSpaces(ms.before) && AllSpaces(ms.afterName) && AllSpaces(ms.beforeValue) && AllSpaces(ms.afterValue)
    ensures S.AllValid(ms.name) && Said(ms.name) !in seen
    ensures Good(ms.value, depth, limit) && GoodMembers(ms.next, depth, limit, seen + {Said(ms.name)})
    ensures !IsSpace(QUOTE) && !IsSpace(COLON) && !IsSpace(COMMA) && !IsSpace(CLOSE)
  {
  }

  lemma MemberText(ms: Laid, x: Bytes, y: Bytes)
    requires ms.Laid? && y == PrintNext(ms.next) + x && Print(ms.value) != []
    ensures PrintMembers(ms) + x
         == ms.before
            + (Text(ms.name) + (ms.afterName + ([COLON] + (ms.beforeValue + (Print(ms.value) + (ms.afterValue + y))))))
    ensures (Print(ms.value) + (ms.afterValue + y))[0] == Print(ms.value)[0]
  {
    hide Print, PrintNext, Text;
  }

  /** One member, token by token. */
  lemma ReadMemberBy(t: Bytes, depth: nat, limit: nat, seen: set<Bytes>, u0: Bytes, name: Bytes, u1: Bytes, u2: Bytes,
                     u4: Bytes, v: Value, u5: Bytes, y: Bytes)
    requires SkipSpaces(t) == u0 && u0 != [] && u0[0] == QUOTE && ReadBody(u0[1..]) == Some((name, u1)) && name !in seen
    requires SkipSpaces(u1) == u2 && u2 != [] && u2[0] == COLON && SkipSpaces(u2[1..]) == u4
    requires ReadValue(u4, depth, limit) == Some((v, u5)) && SkipSpaces(u5) == y
    ensures ReadMember(t, depth, limit, seen) == Some((Member(name, v), y))
  {
    hide SkipSpaces, ReadBody, ReadValue;
  }
  // ------------------------------------------------------------------ the document

  predicate StringsValid(l: Layout)
    decreases l, 1
  {
    match l
    case LStr(s) => Utf8.Valid(S.SpellAll(s))
    case LNum(_) => true
    case LObj(_, ms) => NamesValid(ms)
  }

  predicate NamesValid(ms: Laid)
    decreases ms, 0
  {
    match ms
    case Nothing => true
    case Laid(_, name, _, _, value, _, next) => Utf8.Valid(S.SpellAll(name)) && StringsValid(value) && NamesValid(next)
  }

  lemma AsciiText(t: Bytes)
    requires forall i :: 0 <= i < |t| ==> t[i] < 0x80
    ensures Utf8.Valid(t)
  {
    Utf8.AsciiIsValid(t);
  }

  lemma SpacesAreAscii(w: Bytes)
    requires AllSpaces(w)
    ensures Utf8.Valid(w)
  {
    AsciiText(w);
  }

  lemma TokenIsAscii(b: byte)
    requires b < 0x80
    ensures Utf8.Valid(J.Token(b))
  {
    hide Utf8.Valid;
    AsciiText(J.Token(b));
  }

  /** Encoding a valid string leaves valid text. */
  lemma {:induction false} BodyIsValid(s: Bytes)
    requires Utf8.Valid(s)
    ensures Utf8.Valid(J.Body(s))
  {
    hide J.Token, J.Body, Utf8.Width;
    if s == [] {
      EmptyBody();
    } else {
      var w := Utf8.Width(s);
      BodyIsValid(s[w..]);
      assert s[0..] == s;
      J.NextCodePoint(s, 0);
      assert s[..0] == [] && s[0 + w..] == s[w..];
      EmptyBody();
      var head := s[..w];
      assert s == head + s[w..];
      J.BodyConcat(head, s[w..]);
      if s[0] < 0x80 {
        TokenIsAscii(s[0]);
        assert [] + J.Token(s[0]) == J.Token(s[0]);
      } else {
        Utf8.PrefixWidth(s, w);
        assert head[w..] == [];
        assert [] + s[0..0 + w] == head;
      }
      Utf8.ValidConcat(J.Body(head), J.Body(s[w..]));
    }
  }

  lemma EmptyBody()
    ensures J.Body([]) == [] && Utf8.Valid([])
  {
  }

  lemma QuotedIsValid(s: seq<S.Piece>)
    requires Utf8.Valid(S.SpellAll(s))
    ensures Utf8.Valid(Text(s))
  {
    hide S.SpellAll, Utf8.Valid;
    AsciiText([QUOTE]);
    Utf8.ValidConcat([QUOTE], S.SpellAll(s));
    Utf8.ValidConcat([QUOTE] + S.SpellAll(s), [QUOTE]);
  }

  lemma SpellIsAscii(n: Number)
    requires ValidNumber(n)
    ensures Utf8.Valid(Spell(n))
  {
    assert forall i :: 0 <= i < |SpellFraction(n.fraction)| ==> SpellFraction(n.fraction)[i] < 0x80;
    assert forall i :: 0 <= i < |SpellExponent(n.exponent)| ==> SpellExponent(n.exponent)[i] < 0x80;
    AsciiText(Spell(n));
  }

  lemma {:induction false} PrintIsValid(l: Layout, depth: nat, limit: nat)
    requires Good(l, depth, limit) && StringsValid(l)
    ensures Utf8.Valid(Print(l))
    decreases l, 1
  {
    hide Utf8.Valid, Spell, Text, ValidNumber;
    match l
    case LStr(s) => QuotedIsValid(s);
    case LNum(n) => SpellIsAscii(n);
    case LObj(first, ms) =>
      SpacesAreAscii(first);
      AsciiText([OPEN]);
      MembersAreValid(ms, depth + 1, limit, {});
      Utf8.ValidConcat([OPEN], first);
      Utf8.ValidConcat([OPEN] + first, PrintMembers(ms));
  }

  lemma {:induction false} MembersAreValid(ms: Laid, depth: nat, limit: nat, seen: set<Bytes>)
    requires GoodMembers(ms, depth, limit, seen) && NamesValid(ms)
    ensures Utf8.Valid(PrintMembers(ms)) && Utf8.Valid(PrintNext(ms))
    decreases ms, 0
  {
    AsciiText([CLOSE]);
    AsciiText([COMMA]);
    if ms.Laid? {
      AsciiText([COLON]);
      GoodParts(ms, depth, limit, seen);
      PrintIsValid(ms.value, depth, limit);
      MembersAreValid(ms.next, depth, limit, seen + {Said(ms.name)});
      QuotedIsValid(ms.name);
      SpacesAreAscii(ms.before);
      SpacesAreAscii(ms.afterName);
      SpacesAreAscii(ms.beforeValue);
      SpacesAreAscii(ms.afterValue);
      hide Utf8.Valid, Text, Print, AllSpaces, PrintNext;
      var a := ms.afterValue + PrintNext(ms.next);
      Utf8.ValidConcat(ms.afterValue, PrintNext(ms.next));
      Utf8.ValidConcat(Print(ms.value), a);
      Utf8.ValidConcat(ms.beforeValue, Print(ms.value) + a);
      Utf8.ValidConcat([COLON], ms.beforeValue + (Print(ms.value) + a));
      Utf8.ValidConcat(ms.afterName, [COLON] + (ms.beforeValue + (Print(ms.value) + a)));
      Utf8.ValidConcat(Text(ms.name), ms.afterName + ([COLON] + (ms.beforeValue + (Print(ms.value) + a))));
      Utf8.ValidConcat(ms.before,
                       Text(ms.name) + (ms.afterName + ([COLON] + (ms.beforeValue + (Print(ms.value) + a)))));
      NextIsValid(ms);
    }
  }

  lemma NextIsValid(ms: Laid)
    requires ms.Laid? && Utf8.Valid(PrintMembers(ms))
    ensures Utf8.Valid(PrintNext(ms))
  {
    hide Utf8.Valid, PrintMembers;
    AsciiText([COMMA]);
    Utf8.ValidConcat([COMMA], PrintMembers(ms));
  }

  /** A text that is valid UTF-8 within the size, and prints a tree within the depth, is read as
      that tree. */
  lemma ReadsDocument(l: Layout, before: Bytes, after: Bytes, max: nat, limit: nat)
    requires l.LObj? && Good(l, 0, limit) && AllSpaces(before) && AllSpaces(after)
    requires |before + Print(l) + after| <= max && Utf8.Valid(before + Print(l) + after)
    ensures E.Document(before + Print(l) + after, max, limit) == Some(Trees(l.members))
  {
    hide *;
    var raw := before + (Print(l) + after);
    PrintStarts(l, 0, limit);
    ReadsObject(l, after, 0, limit);
    NoBom(before, Print(l) + after);
    assert before + Print(l) + after == raw;
    StartOf(Print(l), after);
    SkipTo(before, Print(l) + after);
    OnlySpaces(after);
    DocumentBy(raw, max, limit, Print(l) + after, Trees(l.members), after);
  }

  /** Any printing of a tree within the limits is read back as that tree: strings with any of the
      escapes, numbers of the grammar, any whitespace between the tokens. */
  lemma DocumentOfPrint(l: Layout, before: Bytes, after: Bytes, max: nat, limit: nat)
    requires l.LObj? && Good(l, 0, limit) && StringsValid(l) && AllSpaces(before) && AllSpaces(after)
    requires |before + Print(l) + after| <= max
    ensures E.Document(before + Print(l) + after, max, limit) == Some(Trees(l.members))
  {
    hide *;
    PrintIsValid(l, 0, limit);
    SpacesAreAscii(before);
    SpacesAreAscii(after);
    Utf8.ValidConcat(before, Print(l));
    Utf8.ValidConcat(before + Print(l), after);
    ReadsDocument(l, before, after, max, limit);
  }

  lemma StartOf(a: Bytes, x: Bytes)
    requires a != []
    ensures a + x != [] && (a + x)[0] == a[0]
  {
  }

  lemma OnlySpaces(w: Bytes)
    requires AllSpaces(w)
    ensures SkipSpaces(w) == []
  {
    SpacesSkipped(w, []);
    assert w + [] == w;
  }

  lemma DocumentBy(raw: Bytes, max: nat, limit: nat, t: Bytes, ms: seq<Member>, rest: Bytes)
    requires |raw| <= max && Utf8.Valid(raw) && !(E.BOM <= raw)
    requires SkipSpaces(raw) == t && StartsWith(t, OPEN) && ReadObject(t, 1, limit) == Some((ms, rest))
             && SkipSpaces(rest) == []
    ensures E.Document(raw, max, limit) == Some(ms)
  {
    hide ReadObject, SkipSpaces, Utf8.Valid;
  }

  lemma NoBom(before: Bytes, t: Bytes)
    requires AllSpaces(before) && StartsWith(t, OPEN)
    ensures !(E.BOM <= before + t)
  {
    if before != [] { assert (before + t)[0] == before[0]; } else { assert before + t == t; }
  }

  // ------------------------------------------------------- what is always accepted

  /** A literal of the number grammar. */
  ghost predicate IsNumber(literal: Bytes) {
    exists n :: ValidNumber(n) && Spell(n) == literal
  }

  /** Distinct names at each level, numbers of the grammar, and no deeper than the limit. */
  ghost predicate Sound(ms: seq<Member>, depth: nat, limit: nat)
    decreases ms, 1
  {
    && depth <= limit
    && (forall i, j :: 0 <= i < j < |ms| ==> ms[i].name != ms[j].name)
    && (forall i :: 0 <= i < |ms| ==> SoundValue(ms[i].value, depth, limit))
  }

  ghost predicate SoundValue(v: Value, depth: nat, limit: nat)
    decreases v, 0
  {
    match v
    case Str(_) => true
    case Num(n) => IsNumber(n)
    case Obj(ms) => Sound(ms, depth + 1, limit)
  }

  lemma {:induction false} DigitsTaken(t: Bytes) returns (d: Bytes)
    ensures t == d + SkipDigits(t) && forall i :: 0 <= i < |d| ==> IsDigit(d[i])
  {
    if t != [] && IsDigit(t[0]) {
      var e := DigitsTaken(t[1..]);
      d := [t[0]] + e;
    } else {
      d := [];
    }
  }

  lemma SomeTaken(t: Bytes) returns (d: Bytes)
    requires SomeDigits(t).Some?
    ensures t == d + SomeDigits(t).value && IsDigits(d)
  {
    d := DigitsTaken(t);
  }

  lemma WholeTaken(t: Bytes) returns (negative: bool, d: Bytes)
    requires AfterInteger(t).Some?
    ensures t == (if negative then [45] else []) + d + AfterInteger(t).value
    ensures IsDigits(d) && (d[0] == 48 ==> |d| == 1)
  {
    hide IsDigits, SomeDigits;
    negative := StartsWith(t, 45);
    var u := if negative then t[1..] else t;
    assert AfterInteger(t) == if StartsWith(u, 48) then Some(u[1..]) else SomeDigits(u);
    hide AfterInteger;
    d := UnsignedTaken(u);
    SignTaken(t, negative, u, d, AfterInteger(t).value);
  }

  lemma SignTaken(t: Bytes, negative: bool, u: Bytes, d: Bytes, rest: Bytes)
    requires negative == StartsWith(t, 45) && u == (if negative then t[1..] else t) && u == d + rest
    ensures t == (if negative then [45] else []) + d + rest
  {
    if negative {
      assert t == [45] + t[1..];
      Associate([45], d, rest);
    } else {
      assert [] + d == d;
    }
  }

  lemma UnsignedTaken(u: Bytes) returns (d: Bytes)
    requires StartsWith(u, 48) || SomeDigits(u).Some?
    ensures u == d + (if StartsWith(u, 48) then u[1..] else SomeDigits(u).value)
    ensures IsDigits(d) && (d[0] == 48 ==> |d| == 1)
  {
    hide SomeDigits;
    if StartsWith(u, 48) {
      d := [48];
    } else {
      d := SomeTaken(u);
      assert d[0] == u[0];
    }
  }

  lemma FractionTaken(t: Bytes) returns (f: Option<Bytes>)
    requires AfterFraction(t).Some?
    ensures t == SpellFraction(f) + AfterFraction(t).value && (f.Some? ==> IsDigits(f.value))
  {
    if StartsWith(t, 46) {
      var d := SomeTaken(t[1..]);
      f := Some(d);
    } else {
      f := None;
    }
  }

  lemma ExponentTaken(t: Bytes) returns (e: Option<Exponent>)
    requires AfterExponent(t).Some?
    ensures t == SpellExponent(e) + AfterExponent(t).value && ValidNumber(Number(false, [48], None, e))
  {
    hide SomeDigits;
    if StartsWith(t, 101) || StartsWith(t, 69) {
      var u := t[1..];
      if StartsWith(u, 43) || StartsWith(u, 45) {
        var d := SomeTaken(u[1..]);
        e := Some(Exponent(t[0], Some(u[0]), d));
        SpellOne(t[0], [u[0]], d, SomeDigits(u[1..]).value, t);
      } else {
        var d := SomeTaken(u);
        e := Some(Exponent(t[0], None, d));
        SpellOne(t[0], [], d, SomeDigits(u).value, t);
      }
    } else {
      e := None;
    }
  }

  lemma SpellOne(mark: byte, sign: Bytes, d: Bytes, rest: Bytes, t: Bytes)
    requires t != [] && t[0] == mark && |sign| <= 1 && t[1..] == sign + (d + rest)
    ensures t == [mark] + sign + d + rest
  {
    assert t == [t[0]] + t[1..];
  }

  lemma NumberSplit(t: Bytes) returns (n: Number)
    requires AfterNumber(t).Some?
    ensures ValidNumber(n) && t == Spell(n) + AfterNumber(t).value
  {
    hide AfterInteger, AfterFraction, AfterExponent, SpellFraction, SpellExponent;
    var u := AfterInteger(t).value;
    var v := AfterFraction(u).value;
    var negative, whole := WholeTaken(t);
    var f := FractionTaken(u);
    var e := ExponentTaken(v);
    n := Number(negative, whole, f, e);
    PartsAreValid(negative, whole, f, e);
    hide ValidNumber;
    Joined(if negative then [45] else [], whole, SpellFraction(f), SpellExponent(e), AfterExponent(v).value, u, v, t);
  }

  /** Only numbers of the grammar are read, and whole. */
  lemma NumberTaken(t: Bytes)
    requires ReadNumber(t).Some?
    ensures IsNumber(ReadNumber(t).value.0) && t == ReadNumber(t).value.0 + ReadNumber(t).value.1
  {
    hide AfterNumber, Spell, ValidNumber;
    var n := NumberSplit(t);
    assert t[..|t| - |AfterNumber(t).value|] == Spell(n);
  }

  lemma Joined(sign: Bytes, whole: Bytes, f: Bytes, e: Bytes, rest: Bytes, u: Bytes, v: Bytes, t: Bytes)
    requires t == sign + whole + u && u == f + v && v == e + rest
    ensures t == (sign + whole + f + e) + rest
  {
  }

  lemma PartsAreValid(negative: bool, whole: Bytes, f: Option<Bytes>, e: Option<Exponent>)
    requires IsDigits(whole) && (whole[0] == 48 ==> |whole| == 1)
    requires f.Some? ==> IsDigits(f.value)
    requires ValidNumber(Number(false, [48], None, e))
    ensures ValidNumber(Number(negative, whole, f, e))
  {
  }

  lemma {:induction false} ValueIsSound(t: Bytes, depth: nat, limit: nat)
    requires ReadValue(t, depth, limit).Some?
    ensures SoundValue(ReadValue(t, depth, limit).value.0, depth, limit)
    decreases |t|, 1
  {
    hide ReadBody, ReadNumber, ReadMembers, IsNumber, SkipSpaces, Sound;
    if t[0] == OPEN {
      ObjectIsSound(t, depth + 1, limit);
    } else if t[0] != QUOTE {
      NumberTaken(t);
    }
  }

  lemma {:induction false} ObjectIsSound(t: Bytes, depth: nat, limit: nat)
    requires StartsWith(t, OPEN) && ReadObject(t, depth, limit).Some?
    ensures Sound(ReadObject(t, depth, limit).value.0, depth, limit)
    decreases |t|, 0
  {
    hide ReadMembers, SkipSpaces, SoundValue;
    var u := SkipSpaces(t[1..]);
    if !StartsWith(u, CLOSE) { MembersAreSound(u, depth, limit, {}); }
  }

  lemma {:induction false} MembersAreSound(t: Bytes, depth: nat, limit: nat, seen: set<Bytes>)
    requires depth <= limit && ReadMembers(t, depth, limit, seen).Some?
    ensures var ms := ReadMembers(t, depth, limit, seen).value.0;
            Sound(ms, depth, limit) && forall i :: 0 <= i < |ms| ==> ms[i].name !in seen
    decreases |t|, 1
  {
    hide ReadMember, SoundValue;
    var (m, u) := ReadMember(t, depth, limit, seen).value;
    MemberIsSound(t, depth, limit, seen);
    if StartsWith(u, COMMA) {
      MembersAreSound(u[1..], depth, limit, seen + {m.name});
      var ms := ReadMembers(u[1..], depth, limit, seen + {m.name}).value.0;
      hide ReadMembers;
      assert forall i :: 0 < i < |[m] + ms| ==> ([m] + ms)[i] == ms[i - 1];
    }
  }

  lemma {:induction false} MemberIsSound(t: Bytes, depth: nat, limit: nat, seen: set<Bytes>)
    requires ReadMember(t, depth, limit, seen).Some?
    ensures var m := ReadMember(t, depth, limit, seen).value.0;
            m.name !in seen && SoundValue(m.value, depth, limit)
    decreases |t|, 0
  {
    hide ReadBody, ReadValue, SoundValue;
    var u := SkipSpaces(t);
    var (name, u1) := ReadBody(u[1..]).value;
    var u2 := SkipSpaces(u1);
    ValueIsSound(SkipSpaces(u2[1..]), depth, limit);
  }

  /** Every accepted document is within the limits, with distinct names at every level. */
  lemma AcceptedIsSound(raw: Bytes, max: nat, limit: nat)
    requires E.Document(raw, max, limit).Some?
    ensures |raw| <= max && Utf8.Valid(raw) && Sound(E.Document(raw, max, limit).value, 1, limit)
  {
    hide ReadObject, Utf8.Valid, Sound;
    ObjectIsSound(SkipSpaces(raw), 1, limit);
  }

  // ------------------------------------------------- every accepted text is a printing

  lemma {:induction false} SpacesTaken(t: Bytes) returns (w: Bytes)
    ensures AllSpaces(w) && t == w + SkipSpaces(t)
  {
    if t != [] && IsSpace(t[0]) {
      var v := SpacesTaken(t[1..]);
      w := [t[0]] + v;
    } else {
      w := [];
    }
  }

  lemma StringTaken(t: Bytes) returns (ps: seq<S.Piece>)
    requires StartsWith(t, QUOTE) && ReadBody(t[1..]).Some?
    ensures S.AllValid(ps) && t == Text(ps) + ReadBody(t[1..]).value.1 && Said(ps) == ReadBody(t[1..]).value.0
  {
    hide ReadBody, S.SpellAll;
    ps := S.PiecesTaken(t[1..]);
    assert t == [QUOTE] + t[1..];
  }

  lemma {:induction false} ValueTaken(t: Bytes, depth: nat, limit: nat) returns (l: Layout)
    requires ReadValue(t, depth, limit).Some?
    ensures Good(l, depth, limit) && t == Print(l) + ReadValue(t, depth, limit).value.1
            && Tree(l) == ReadValue(t, depth, limit).value.0
    decreases |t|, 1
  {
    hide ReadBody, AfterNumber, ReadObject, Text, Said, Spell, ValidNumber, GoodMembers, S.AllValid;
    if t[0] == QUOTE {
      var ps := StringTaken(t);
      l := LStr(ps);
    } else if t[0] == OPEN {
      l := ObjectTaken(t, depth, limit);
    } else {
      var n := NumberSplit(t);
      l := LNum(n);
      assert t[..|t| - |AfterNumber(t).value|] == Spell(n);
    }
  }

  lemma {:induction false} ObjectTaken(t: Bytes, depth: nat, limit: nat) returns (l: Layout)
    requires StartsWith(t, OPEN) && ReadObject(t, depth + 1, limit).Some?
    ensures l.LObj? && Good(l, depth, limit) && t == Print(l) + ReadObject(t, depth + 1, limit).value.1
    ensures Trees(l.members) == ReadObject(t, depth + 1, limit).value.0
    decreases |t|, 0
  {
    hide ReadMembers, SkipSpaces, AllSpaces, GoodMembers, Print, PrintMembers, Trees;
    var w := SpacesTaken(t[1..]);
    var u := SkipSpaces(t[1..]);
    if StartsWith(u, CLOSE) {
      l := LObj(w, Nothing);
      NoMembers(depth + 1, limit);
      assert u == [CLOSE] + u[1..];
      ObjectText(t, w, u, Nothing, u[1..]);
    } else {
      var ms := MembersTaken(u, depth + 1, limit, {});
      l := LObj(w, ms);
      ObjectText(t, w, u, ms, ReadMembers(u, depth + 1, limit, {}).value.1);
    }
  }

  lemma NoMembers(depth: nat, limit: nat)
    ensures PrintMembers(Nothing) == [CLOSE] && Trees(Nothing) == [] && GoodMembers(Nothing, depth, limit, {})
  {
  }

  lemma ObjectText(t: Bytes, w: Bytes, u: Bytes, ms: Laid, rest: Bytes)
    requires StartsWith(t, OPEN) && t[1..] == w + u && u == PrintMembers(ms) + rest
    ensures t == Print(LObj(w, ms)) + rest
  {
    hide PrintMembers;
    assert t == [OPEN] + t[1..];
  }

  lemma {:induction false} MembersTaken(t: Bytes, depth: nat, limit: nat, seen: set<Bytes>) returns (ms: Laid)
    requires ReadMembers(t, depth, limit, seen).Some?
    ensures ms.Laid? && GoodMembers(ms, depth, limit, seen)
            && t == PrintMembers(ms) + ReadMembers(t, depth, limit, seen).value.1
    ensures Trees(ms) == ReadMembers(t, depth, limit, seen).value.0
    decreases |t|, 1
  {
    hide ReadMember, Good, AllSpaces, S.AllValid, Said;
    var (m, u) := ReadMember(t, depth, limit, seen).value;
    var one := MemberTaken(t, depth, limit, seen);
    if StartsWith(u, COMMA) {
      assert u == [COMMA] + u[1..];
      var next := MembersTaken(u[1..], depth, limit, seen + {m.name});
      ms := one.(next := next);
      hide ReadMembers;
      NextText(one, next, u, ReadMembers(u[1..], depth, limit, seen + {m.name}).value.1);
    } else {
      assert u == [CLOSE] + u[1..];
      ms := one;
      NextText(one, Nothing, u, u[1..]);
    }
  }

  /** The text of a member followed by the rest of the object. */
  lemma NextText(one: Laid, next: Laid, u: Bytes, rest: Bytes)
    requires one.Laid? && u == PrintNext(next) + rest
    ensures MemberPart(one) + u == PrintMembers(one.(next := next)) + rest
  {
    hide Print, PrintNext, Text;
  }

  function MemberPart(one: Laid): Bytes
    requires one.Laid?
  {
    one.before
    + (Text(one.name) + (one.afterName + ([COLON] + (one.beforeValue + (Print(one.value) + one.afterValue)))))
  }

  lemma {:induction false} MemberTaken(t: Bytes, depth: nat, limit: nat, seen: set<Bytes>) returns (one: Laid)
    requires ReadMember(t, depth, limit, seen).Some?
    ensures one.Laid? && one.next.Nothing? && GoodMembers(one, depth, limit, seen)
    ensures t == MemberPart(one) + ReadMember(t, depth, limit, seen).value.1
    ensures Member(Said(one.name), Tree(one.value)) == ReadMember(t, depth, limit, seen).value.0
    decreases |t|, 0
  {
    hide ReadBody, ReadValue, SkipSpaces, AllSpaces, Text, Said, Print, Tree, Good, S.AllValid;
    var u0 := SkipSpaces(t);
    var u1 := ReadBody(u0[1..]).value.1;
    var u2 := SkipSpaces(u1);
    var u4 := SkipSpaces(u2[1..]);
    var u5 := ReadValue(u4, depth, limit).value.1;
    var before := SpacesTaken(t);
    var name := StringTaken(u0);
    var afterName := SpacesTaken(u1);
    var beforeValue := SpacesTaken(u2[1..]);
    var value := ValueTaken(u4, depth, limit);
    var afterValue := SpacesTaken(u5);
    one := Laid(before, name, afterName, beforeValue, value, afterValue, Nothing);
    assert u2 == [COLON] + u2[1..];
    PartsJoin(t, u0, u1, u2, u2[1..], u4, u5, SkipSpaces(u5), one);
  }

  lemma PartsJoin(t: Bytes, u0: Bytes, u1: Bytes, u2: Bytes, u3: Bytes, u4: Bytes, u5: Bytes, y: Bytes, one: Laid)
    requires one.Laid? && t == one.before + u0 && u0 == Text(one.name) + u1 && u1 == one.afterName + u2
    requires u2 == [COLON] + u3 && u3 == one.beforeValue + u4 && u4 == Print(one.value) + u5 && u5 == one.afterValue + y
    ensures t == MemberPart(one) + y
  {
    hide Text, Print;
  }

  /** The text is a printing of the members, within the limits. */
  ghost predicate Prints(raw: Bytes, ms: seq<Member>, limit: nat) {
    exists before, l, after :: IsPrinting(raw, ms, limit, before, l, after)
  }

  predicate IsPrinting(raw: Bytes, ms: seq<Member>, limit: nat, before: Bytes, l: Layout, after: Bytes) {
    && AllSpaces(before) && AllSpaces(after) && l.LObj? && Good(l, 0, limit)
    && raw == before + Print(l) + after && Trees(l.members) == ms
  }

  lemma DocumentTaken(raw: Bytes, max: nat, limit: nat) returns (before: Bytes, l: Layout, after: Bytes)
    requires E.Document(raw, max, limit).Some?
    ensures IsPrinting(raw, E.Document(raw, max, limit).value, limit, before, l, after)
  {
    hide ReadObject, SkipSpaces, Utf8.Valid, AllSpaces, Good, Print, Trees;
    var t := SkipSpaces(raw);
    before := SpacesTaken(raw);
    l := ObjectTaken(t, 0, limit);
    var rest := ReadObject(t, 1, limit).value.1;
    after := SpacesTaken(rest);
    assert after + [] == after;
    assert before + (Print(l) + after) == before + Print(l) + after;
  }

  /** A document is accepted exactly when it is within the size, valid UTF-8, and a printing of a
      member tree with distinct names at each level within the depth; and it is read as that tree. */
  lemma DocumentExact(raw: Bytes, max: nat, limit: nat, ms: seq<Member>)
    ensures E.Document(raw, max, limit) == Some(ms) <==> |raw| <= max && Utf8.Valid(raw) && Prints(raw, ms, limit)
  {
    hide Good, Print, Trees, Utf8.Valid, AllSpaces, ReadObject, SkipSpaces;
    if E.Document(raw, max, limit) == Some(ms) {
      var before, l, after := DocumentTaken(raw, max, limit);
    }
    hide E.Document;
    if |raw| <= max && Utf8.Valid(raw) && Prints(raw, ms, limit) {
      var before, l, after :| IsPrinting(raw, ms, limit, before, l, after);
      ReadsDocument(l, before, after, max, limit);
    }
  }
}
