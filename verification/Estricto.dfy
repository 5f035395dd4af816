/** The reader of internal/estricto/estricto.go: one cursor over the document, moved by every
    method. Each method leaves the cursor where the grammar says the rest of the text begins. */
module Estricto {
  import opened Bytes
  import opened EstrictoGrammar
  import Utf8

  /** Whether reading gave `want`, leaving `rest` to be read. */
  ghost predicate Read<T>(want: Option<(T, Bytes)>, got: Option<T>, rest: Bytes) {
    match want
    case None => got.None?
    case Some((v, after)) => got == Some(v) && rest == after
  }

  class Reader {
    const s: Bytes
    const limit: nat
    var i: nat

    constructor (raw: Bytes, depth: nat)
      ensures s == raw && limit == depth && i == 0
    {
      s, limit, i := raw, depth, 0;
    }

    ghost predicate Valid()
      reads this
    {
      i <= |s|
    }

    ghost function Rest(): Bytes
      reads this
      requires Valid()
    {
      s[i..]
    }

    method TakeSpaces()
      requires Valid()
      modifies this
      ensures Valid() && i >= old(i)
      ensures Rest() == SkipSpaces(old(Rest()))
    {
      while i < |s| && IsSpace(s[i])
        invariant Valid() && i >= old(i)
        invariant SkipSpaces(s[i..]) == SkipSpaces(old(s[i..]))
      {
        assert s[i..][1..] == s[i + 1..];
        i := i + 1;
      }
    }

    /** hex4: four digits, as strconv.ParseUint reads them in base 16. */
    method TakeHex4() returns (r: Option<nat>)
      requires Valid()
      modifies this
      ensures Valid() && i >= old(i)
      ensures r == Hex4(old(Rest())) && (r.Some? ==> Rest() == old(Rest())[4..])
    {
      if i + 4 > |s| { return None; }
      r := Hex4(s[i..]);
      if r.None? { return; }
      assert s[i..][4..] == s[i + 4..];
      i := i + 4;
    }

    /** One turn of cadena's loop, between the quotes: None when it refuses. */
    method TakePiece() returns (r: Option<Bytes>)
      requires Valid() && i < |s| && s[i] != QUOTE
      modifies this
      ensures Valid() && i >= old(i) && (r.Some? ==> i > old(i))
      ensures Read(ReadPiece(old(Rest())), r, Rest())
    {
      ghost var t := s[i..];
      var c := s[i];
      if c < 0x20 { return None; }
      if c != BACKSLASH {
        i := i + 1;
        return Some([c]);
      }
      i := i + 1;
      if i >= |s| { return None; }
      var e := s[i];
      i := i + 1;
      assert t[1] == e && t[2..] == s[i..];
      if e == QUOTE || e == BACKSLASH || e == 47 { return Some([e]); }
      if e == 98 { return Some([8]); }
      if e == 102 { return Some([12]); }
      if e == 110 { return Some([10]); }
      if e == 114 { return Some([13]); }
      if e == 116 { return Some([9]); }
      if e != 117 { return None; }
      r := TakeUnicode(t);
    }

    /** The rest of a piece that starts with `\u`: four digits, and the pair of a high surrogate. */
    method TakeUnicode(ghost t: Bytes) returns (r: Option<Bytes>)
      requires Valid() && |t| >= 2 && t[0] == BACKSLASH && t[1] == 117 && t[2..] == Rest()
      modifies this
      ensures Valid() && i >= old(i)
      ensures Read(ReadPiece(t), r, Rest())
    {
      hide Hex4, Utf8Of;
      var u := TakeHex4();
      if u.None? { return None; }
      assert t[2..][4..] == t[6..] && s[i..] == t[6..];
      if 0xD800 <= u.value < 0xDC00 {
        if i + 1 >= |s| || s[i] != BACKSLASH || s[i + 1] != 117 { return None; }
        i := i + 2;
        assert t[6..][2..] == t[8..] && s[i..] == t[8..];
        var low := TakeHex4();
        if low.None? { return None; }
        assert t[8..][4..] == t[12..];
        if low.value < 0xDC00 || low.value > 0xDFFF { return None; }
        return Some(Utf8Of((u.value - 0xD800) * 1024 + (low.value - 0xDC00) + 0x10000));
      }
      if 0xDC00 <= u.value <= 0xDFFF { return None; }
      return Some(Utf8Of(u.value));
    }

    /** cadena, at the opening quote. */
    method TakeString() returns (r: Option<Bytes>)
      requires Valid() && i < |s|
      modifies this
      ensures Valid() && i > old(i)
      ensures Read(ReadBody(old(Rest())[1..]), r, Rest())
    {
      i := i + 1;
      ghost var t := s[i..];
      assert t == old(Rest())[1..];
      var b: Bytes := [];
      NothingBefore(t);
      while true
        invariant Valid() && i > old(i)
        invariant After(b, ReadBody(s[i..])) == ReadBody(t)
        decreases |s| - i
      {
        hide ReadBody, ReadPiece, After;
        BodyTurn(b, s[i..]);
        if i >= |s| { return None; }
        if s[i] == QUOTE {
          i := i + 1;
          return Some(b);
        }
        var piece := TakePiece();
        if piece.None? { return None; }
        b := b + piece.value;
      }
    }

    /** The closure of numero that counts digits. */
    method TakeDigits() returns (n: nat)
      requires Valid()
      modifies this
      ensures Valid() && i == old(i) + n
      ensures Rest() == SkipDigits(old(Rest())) && (n == 0 <==> SomeDigits(old(Rest())).None?)
    {
      n := 0;
      ghost var t := s[i..];
      while i < |s| && IsDigit(s[i])
        invariant Valid() && i == old(i) + n
        invariant SkipDigits(s[i..]) == SkipDigits(t)
      {
        assert s[i..][1..] == s[i + 1..];
        i := i + 1;
        n := n + 1;
      }
    }

    /** numero: the literal as it stands. */
    method TakeNumber() returns (r: Option<Bytes>)
      requires Valid() && i < |s|
      modifies this
      ensures Valid() && i >= old(i) && (r.Some? ==> i > old(i))
      ensures Read(ReadNumber(old(Rest())), r, Rest())
    {
      var start := i;
      var ok := TakeInteger();
      if !ok { return None; }
      ok := TakeFraction();
      if !ok { return None; }
      ok := TakeExponent();
      if !ok { return None; }
      assert s[start..][..|s[start..]| - |s[i..]|] == s[start..i];
      return Some(s[start..i]);
    }

    method TakeInteger() returns (ok: bool)
      requires Valid() && i < |s|
      modifies this
      ensures Valid() && i >= old(i)
      ensures ok == AfterInteger(old(Rest())).Some? && (ok ==> AfterInteger(old(Rest())) == Some(Rest()) && i > old(i))
    {
      ghost var t := s[i..];
      if s[i] == 45 { i := i + 1; }
      assert s[i..] == if StartsWith(t, 45) then t[1..] else t;
      if i < |s| && s[i] == 48 {
        i := i + 1;
        return true;
      }
      var n := TakeDigits();
      return n != 0;
    }

    method TakeFraction() returns (ok: bool)
      requires Valid()
      modifies this
      ensures Valid() && i >= old(i)
      ensures ok == AfterFraction(old(Rest())).Some? && (ok ==> AfterFraction(old(Rest())) == Some(Rest()))
    {
      if i < |s| && s[i] == 46 {
        assert s[i..][1..] == s[i + 1..];
        i := i + 1;
        var n := TakeDigits();
        return n != 0;
      }
      return true;
    }

    method TakeExponent() returns (ok: bool)
      requires Valid()
      modifies this
      ensures Valid() && i >= old(i)
      ensures ok == AfterExponent(old(Rest())).Some? && (ok ==> AfterExponent(old(Rest())) == Some(Rest()))
    {
      if i < |s| && (s[i] == 101 || s[i] == 69) {
        ghost var t := s[i..];
        i := i + 1;
        assert t[1..] == s[i..];
        if i < |s| && (s[i] == 43 || s[i] == 45) {
          assert t[1..][1..] == s[i + 1..];
          i := i + 1;
        }
        var n := TakeDigits();
        return n != 0;
      }
      return true;
    }

    /** valor. */
    method TakeValue(depth: nat) returns (r: Option<Value>)
      requires Valid()
      modifies this
      ensures Valid() && i >= old(i) && (r.Some? ==> i > old(i))
      ensures Read(ReadValue(old(Rest()), depth, limit), r, Rest())
      decreases |s| - i, 1
    {
      hide ReadBody, ReadNumber, ReadObject;
      if i >= |s| { return None; }
      var c := s[i];
      if c == QUOTE {
        var str := TakeString();
        return if str.None? then None else Some(Str(str.value));
      } else if c == OPEN {
        var o := TakeObject(depth + 1);
        return if o.None? then None else Some(Obj(o.value));
      } else if c == 45 || IsDigit(c) {
        var n := TakeNumber();
        return if n.None? then None else Some(Num(n.value));
      } else {
        return None;
      }
    }

    /** The part of objeto's loop up to the comma or the brace. */
    method TakeMember(depth: nat, seen: set<Bytes>) returns (r: Option<Member>)
      requires Valid()
      modifies this
      ensures Valid() && i >= old(i) && (r.Some? ==> i > old(i))
      ensures Read(ReadMember(old(Rest()), depth, limit, seen), r, Rest())
      decreases |s| - i, 2
    {
      hide ReadBody, ReadValue, SkipSpaces;
      TakeSpaces();
      if i >= |s| || s[i] != QUOTE { return None; }
      var name := TakeString();
      if name.None? || name.value in seen { return None; }
      TakeSpaces();
      if i >= |s| || s[i] != COLON { return None; }
      assert s[i..][1..] == s[i + 1..];
      i := i + 1;
      TakeSpaces();
      var v := TakeValue(depth);
      if v.None? { return None; }
      TakeSpaces();
      return Some(Member(name.value, v.value));
    }

    /** objeto, at the opening brace. */
    method TakeObject(depth: nat) returns (r: Option<seq<Member>>)
      requires Valid() && i < |s| && s[i] == OPEN
      modifies this
      ensures Valid() && i >= old(i) && (r.Some? ==> i > old(i))
      ensures Read(ReadObject(old(Rest()), depth, limit), r, Rest())
      decreases |s| - i, 0
    {
      hide SkipSpaces, ReadMembers;
      if depth > limit { return None; }
      assert s[i..][1..] == s[i + 1..];
      i := i + 1;
      TakeSpaces();
      if i < |s| && s[i] == CLOSE {
        assert s[i..][1..] == s[i + 1..];
        i := i + 1;
        return Some([]);
      }
      r := TakeMembers(depth);
    }

    /** The loop of objeto, from the first name to the closing brace. */
    method TakeMembers(depth: nat) returns (r: Option<seq<Member>>)
      requires Valid()
      modifies this
      ensures Valid() && i >= old(i) && (r.Some? ==> i > old(i))
      ensures Read(ReadMembers(old(Rest()), depth, limit, {}), r, Rest())
      decreases |s| - i, 3
    {
      hide ReadMembers, ReadMember, AfterMembers;
      ghost var t := s[i..];
      var out: seq<Member>, seen: set<Bytes> := [], {};
      NoMembersBefore(ReadMembers(t, depth, limit, {}));
      while true
        invariant Valid() && i >= old(i)
        invariant AfterMembers(out, ReadMembers(s[i..], depth, limit, seen))
                  == ReadMembers(t, depth, limit, {})
        decreases |s| - i
      {
        MembersTurn(out, s[i..], depth, limit, seen);
        var m := TakeMember(depth, seen);
        if m.None? { return None; }
        out := out + [m.value];
        seen := seen + {m.value.name};
        if i >= |s| { return None; }
        assert s[i..][1..] == s[i + 1..];
        if s[i] == COMMA {
          i := i + 1;
        } else if s[i] == CLOSE {
          i := i + 1;
          return Some(out);
        } else {
          return None;
        }
      }
    }
  }

  // ------------------------------------------------------------ turns of the loops

  function After(b: Bytes, r: Option<(Bytes, Bytes)>): Option<(Bytes, Bytes)> {
    match r
    case None => None
    case Some((s, rest)) => Some((b + s, rest))
  }

  lemma NothingBefore(t: Bytes)
    ensures After([], ReadBody(t)) == ReadBody(t)
  {
    hide ReadBody;
    if ReadBody(t).Some? { assert [] + ReadBody(t).value.0 == ReadBody(t).value.0; }
  }

  lemma BodyTurn(b: Bytes, t: Bytes)
    ensures t == [] ==> After(b, ReadBody(t)) == None
    ensures t != [] && t[0] == QUOTE ==> After(b, ReadBody(t)) == Some((b, t[1..]))
    ensures t != [] && t[0] != QUOTE ==>
              match ReadPiece(t)
              case None => After(b, ReadBody(t)) == None
              case Some((piece, rest)) => After(b, ReadBody(t)) == After(b + piece, ReadBody(rest))
  {
    hide ReadPiece;
    if t != [] && t[0] == QUOTE { assert b + [] == b; }
    if t != [] && t[0] != QUOTE && ReadPiece(t).Some? {
      var (piece, rest) := ReadPiece(t).value;
      if ReadBody(rest).Some? { assert b + (piece + ReadBody(rest).value.0) == b + piece + ReadBody(rest).value.0; }
    }
  }

  function AfterMembers(out: seq<Member>, r: Option<(seq<Member>, Bytes)>): Option<(seq<Member>, Bytes)> {
    match r
    case None => None
    case Some((ms, rest)) => Some((out + ms, rest))
  }

  lemma NoMembersBefore(r: Option<(seq<Member>, Bytes)>)
    ensures AfterMembers([], r) == r
  {
    if r.Some? { assert [] + r.value.0 == r.value.0; }
  }

  lemma MembersTurn(out: seq<Member>, t: Bytes, depth: nat, limit: nat, seen: set<Bytes>)
    ensures match ReadMember(t, depth, limit, seen)
            case None => AfterMembers(out, ReadMembers(t, depth, limit, seen)) == None
            case Some((m, u)) =>
              AfterMembers(out, ReadMembers(t, depth, limit, seen))
              == if StartsWith(u, COMMA)
                 then AfterMembers(out + [m], ReadMembers(u[1..], depth, limit, seen + {m.name}))
                 else if StartsWith(u, CLOSE) then Some((out + [m], u[1..]))
                 else None
  {
    hide ReadMember;
    if ReadMember(t, depth, limit, seen).Some? {
      var (m, u) := ReadMember(t, depth, limit, seen).value;
      if StartsWith(u, COMMA) {
        var r := ReadMembers(u[1..], depth, limit, seen + {m.name});
        if r.Some? { assert out + ([m] + r.value.0) == out + [m] + r.value.0; }
      }
    }
  }

  // ------------------------------------------------------------------ the document

  const BOM: Bytes := [0xEF, 0xBB, 0xBF]

  /** What Leer accepts, and what it reads. */
  function Document(raw: Bytes, max: nat, limit: nat): Option<seq<Member>> {
    if |raw| > max || !Utf8.Valid(raw) || BOM <= raw then None
    else
      var t := SkipSpaces(raw);
      if !StartsWith(t, OPEN) then None
      else match ReadObject(t, 1, limit)
        case None => None
        case Some((ms, rest)) => if SkipSpaces(rest) == [] then Some(ms) else None
  }

  /** What is checked before and after the object. */
  lemma DocumentIs(raw: Bytes, max: nat, limit: nat)
    ensures var t := SkipSpaces(raw);
            Document(raw, max, limit)
            == if |raw| > max || !Utf8.Valid(raw) || BOM <= raw || t == [] || t[0] != OPEN then None
               else match ReadObject(t, 1, limit)
                 case None => None
                 case Some((ms, rest)) => if SkipSpaces(rest) == [] then Some(ms) else None
  {
    hide ReadObject, SkipSpaces, Utf8.Valid;
  }

  /** Leer. */
  method ReadDocument(raw: Bytes, max: nat, limit: nat) returns (r: Option<seq<Member>>)
    ensures r == Document(raw, max, limit)
  {
    hide Document, ReadObject, SkipSpaces, Utf8.Valid;
    DocumentIs(raw, max, limit);
    if |raw| > max { return None; }
    if !Utf8.Valid(raw) { return None; }
    if BOM <= raw { return None; }
    var p := new Reader(raw, limit);
    assert raw[0..] == raw;
    p.TakeSpaces();
    if p.i >= |p.s| || p.s[p.i] != OPEN { return None; }
    r := p.TakeObject(1);
    if r.None? { return; }
    p.TakeSpaces();
    if p.i != |p.s| { return None; }
  }
}
