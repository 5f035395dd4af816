/** The strict JSON grammar of internal/estricto/estricto.go, as functions of the text still to be
    read. None stands for every refusal; the reader that moves a cursor is in Estricto. */
module EstrictoGrammar {
  import opened Bytes

  datatype Value = Str(s: Bytes) | Num(literal: Bytes) | Obj(members: seq<Member>)

  datatype Member = Member(name: Bytes, value: Value)

  const QUOTE: byte := 34
  const BACKSLASH: byte := 92
  const COLON: byte := 58
  const COMMA: byte := 44
  const OPEN: byte := 123
  const CLOSE: byte := 125

  // ----------------------------------------------------------------- whitespace

  predicate IsSpace(c: byte) {
    c == 32 || c == 9 || c == 10 || c == 13
  }

  function SkipSpaces(t: Bytes): (r: Bytes)
    ensures |r| <= |t|
    ensures r != [] ==> !IsSpace(r[0])
  {
    if t != [] && IsSpace(t[0]) then SkipSpaces(t[1..]) else t
  }

  // -------------------------------------------------------------------- strings

  function HexValue(c: byte): (v: Option<nat>)
    ensures v.Some? ==> v.value < 16
  {
    if 48 <= c <= 57 then Some(c as int - 48)
    else if 97 <= c <= 102 then Some(c as int - 87)
    else if 65 <= c <= 70 then Some(c as int - 55)
    else None
  }

  /** hex4: four hexadecimal digits. */
  function Hex4(t: Bytes): (r: Option<nat>)
    ensures r.Some? ==> r.value < 0x10000 && |t| >= 4
  {
    if |t| < 4 then None
    else
      match (HexValue(t[0]), HexValue(t[1]), HexValue(t[2]), HexValue(t[3]))
      case (Some(a), Some(b), Some(c), Some(d)) =>
        Some(((a * 16 + b) * 16 + c) * 16 + d)
      case _ => None
  }

  /** utf8.AppendRune of a scalar value. */
  function Utf8Of(r: nat): Bytes
    requires r < 0x110000
  {
    if r < 0x80 then [r as byte]
    else if r < 0x800 then [(0xC0 + r / 64) as byte, (0x80 + r % 64) as byte]
    else if r < 0x10000 then [(0xE0 + r / 4096) as byte, (0x80 + r / 64 % 64) as byte, (0x80 + r % 64) as byte]
    else [(0xF0 + r / 262144) as byte, (0x80 + r / 4096 % 64) as byte, (0x80 + r / 64 % 64) as byte,
          (0x80 + r % 64) as byte]
  }

  /** One piece of a string: its decoded bytes and what follows it; a surrogate needs its pair. */
  function ReadPiece(t: Bytes): (r: Option<(Bytes, Bytes)>)
    ensures r.Some? ==> |r.value.1| < |t|
  {
    if t == [] || t[0] == QUOTE || t[0] < 0x20 then None
    else if t[0] != BACKSLASH then Some(([t[0]], t[1..]))
    else if |t| < 2 then None
    else
      var e := t[1];
      if e == QUOTE || e == BACKSLASH || e == 47 then Some(([e], t[2..]))
      else if e == 98 then Some(([8], t[2..]))
      else if e == 102 then Some(([12], t[2..]))
      else if e == 110 then Some(([10], t[2..]))
      else if e == 114 then Some(([13], t[2..]))
      else if e == 116 then Some(([9], t[2..]))
      else if e == 117 then
        match Hex4(t[2..])
        case None => None
        case Some(u) =>
          if 0xD800 <= u < 0xDC00 then
            if |t| < 8 || t[6] != BACKSLASH || t[7] != 117 then None
            else
              match Hex4(t[8..])
              case None => None
              case Some(low) =>
                if low < 0xDC00 || low > 0xDFFF then None
                else Some((Utf8Of((u - 0xD800) * 1024 + (low - 0xDC00) + 0x10000), t[12..]))
          else if 0xDC00 <= u <= 0xDFFF then None
          else Some((Utf8Of(u), t[6..]))
      else None
  }

  /** cadena after the opening quote: the decoded string and what follows the closing quote. */
  function ReadBody(t: Bytes): (r: Option<(Bytes, Bytes)>)
    ensures r.Some? ==> |r.value.1| < |t|
    decreases |t|
  {
    if t == [] then None
    else if t[0] == QUOTE then Some(([], t[1..]))
    else match ReadPiece(t)
      case None => None
      case Some((piece, rest)) =>
        match ReadBody(rest)
        case None => None
        case Some((s, after)) => Some((piece + s, after))
  }

  // -------------------------------------------------------------------- numbers

  predicate IsDigit(c: byte) {
    48 <= c <= 57
  }

  predicate StartsWith(t: Bytes, c: byte) {
    t != [] && t[0] == c
  }

  function SkipDigits(t: Bytes): (r: Bytes)
    ensures |r| <= |t|
    ensures r != [] ==> !IsDigit(r[0])
  {
    if t != [] && IsDigit(t[0]) then SkipDigits(t[1..]) else t
  }

  /** At least one digit, and what follows the digits. */
  function SomeDigits(t: Bytes): (r: Option<Bytes>)
    ensures r.Some? ==> |r.value| < |t|
  {
    var r := SkipDigits(t);
    if |r| == |t| then None else Some(r)
  }

  function AfterInteger(t: Bytes): (r: Option<Bytes>)
    ensures r.Some? ==> |r.value| < |t|
  {
    var u := if StartsWith(t, 45) then t[1..] else t;
    if StartsWith(u, 48) then Some(u[1..]) else SomeDigits(u)
  }

  function AfterFraction(t: Bytes): (r: Option<Bytes>)
    ensures r.Some? ==> |r.value| <= |t|
  {
    if StartsWith(t, 46) then SomeDigits(t[1..]) else Some(t)
  }

  function AfterExponent(t: Bytes): (r: Option<Bytes>)
    ensures r.Some? ==> |r.value| <= |t|
  {
    if StartsWith(t, 101) || StartsWith(t, 69) then
      var u := t[1..];
      SomeDigits(if StartsWith(u, 43) || StartsWith(u, 45) then u[1..] else u)
    else Some(t)
  }

  /** numero: what follows the literal. */
  function AfterNumber(t: Bytes): (r: Option<Bytes>)
    ensures r.Some? ==> |r.value| < |t|
  {
    match AfterInteger(t)
    case None => None
    case Some(u) =>
      match AfterFraction(u)
      case None => None
      case Some(v) => AfterExponent(v)
  }

  function ReadNumber(t: Bytes): (r: Option<(Bytes, Bytes)>)
    ensures r.Some? ==> |r.value.1| < |t|
  {
    match AfterNumber(t)
    case None => None
    case Some(rest) => Some((t[..|t| - |rest|], rest))
  }

  // ---------------------------------------------------------------------- values

  /** valor. */
  function ReadValue(t: Bytes, depth: nat, limit: nat): (r: Option<(Value, Bytes)>)
    ensures r.Some? ==> |r.value.1| < |t|
    decreases |t|, 1
  {
    if t == [] then None
    else if t[0] == QUOTE then
      match ReadBody(t[1..])
      case None => None
      case Some((s, rest)) => Some((Str(s), rest))
    else if t[0] == OPEN then
      match ReadObject(t, depth + 1, limit)
      case None => None
      case Some((ms, rest)) => Some((Obj(ms), rest))
    else if t[0] == 45 || IsDigit(t[0]) then
      match ReadNumber(t)
      case None => None
      case Some((n, rest)) => Some((Num(n), rest))
    else None
  }

  /** objeto, at the opening brace. */
  function ReadObject(t: Bytes, depth: nat, limit: nat): (r: Option<(seq<Member>, Bytes)>)
    requires StartsWith(t, OPEN)
    ensures r.Some? ==> |r.value.1| < |t|
    decreases |t|, 0
  {
    if depth > limit then None
    else
      var u := SkipSpaces(t[1..]);
      if StartsWith(u, CLOSE) then Some(([], u[1..])) else ReadMembers(u, depth, limit, {})
  }

  /** The name, the colon and the value of one member, and the text from the comma or the brace on. */
  function ReadMember(t: Bytes, depth: nat, limit: nat, seen: set<Bytes>): (r: Option<(Member, Bytes)>)
    ensures r.Some? ==> |r.value.1| < |t|
    decreases |t|, 0
  {
    var u := SkipSpaces(t);
    if !StartsWith(u, QUOTE) then None
    else match ReadBody(u[1..])
      case None => None
      case Some((name, u1)) =>
        if name in seen then None
        else
          var u2 := SkipSpaces(u1);
          if !StartsWith(u2, COLON) then None
          else match ReadValue(SkipSpaces(u2[1..]), depth, limit)
            case None => None
            case Some((v, u3)) => Some((Member(name, v), SkipSpaces(u3)))
  }

  /** The members of an object, until its closing brace. */
  function ReadMembers(t: Bytes, depth: nat, limit: nat, seen: set<Bytes>): (r: Option<(seq<Member>, Bytes)>)
    ensures r.Some? ==> |r.value.1| < |t|
    decreases |t|, 1
  {
    match ReadMember(t, depth, limit, seen)
    case None => None
    case Some((m, u)) =>
      if StartsWith(u, COMMA) then
        match ReadMembers(u[1..], depth, limit, seen + {m.name})
        case None => None
        case Some((ms, rest)) => Some(([m] + ms, rest))
      else if StartsWith(u, CLOSE) then Some(([m], u[1..]))
      else None
  }
}
