/** The three-line checkpoint body of internal/checkpoint/checkpoint.go, byte for byte. */
module CheckpointFormat {
  import opened Bytes
  import opened Hashing
  import opened Text
  import Decimal
  import Base64

  datatype Checkpoint = Checkpoint(origin: Bytes, size: uint64, root: Bytes)

  datatype FormatError = BadFormat | BadRootSize | BadOrigin

  datatype Parsed<+T> = Ok(value: T) | Err(error: FormatError)

  // ------------------------------------------------------------------- origin

  /** The UTF-8 encodings of the white space that strings.TrimSpace removes. */
  const SPACES: seq<Bytes> := [
    [9], [10], [11], [12], [13], [32],
    [0xC2, 0x85], [0xC2, 0xA0], [0xE1, 0x9A, 0x80],
    [0xE2, 0x80, 0x80], [0xE2, 0x80, 0x81], [0xE2, 0x80, 0x82], [0xE2, 0x80, 0x83],
    [0xE2, 0x80, 0x84], [0xE2, 0x80, 0x85], [0xE2, 0x80, 0x86], [0xE2, 0x80, 0x87],
    [0xE2, 0x80, 0x88], [0xE2, 0x80, 0x89], [0xE2, 0x80, 0x8A],
    [0xE2, 0x80, 0xA8], [0xE2, 0x80, 0xA9], [0xE2, 0x80, 0xAF],
    [0xE2, 0x81, 0x9F], [0xE3, 0x80, 0x80]]

  /** strings.TrimSpace leaves `s` as it is. */
  predicate Trimmed(s: Bytes) {
    forall i :: 0 <= i < |SPACES| ==> !(SPACES[i] <= s) && !EndsWith(s, SPACES[i])
  }

  predicate EndsWith(s: Bytes, p: Bytes) {
    |p| <= |s| && s[|s| - |p|..] == p
  }

  /** validOrigin: not empty, one line, no white space at either end. */
  predicate ValidOrigin(origin: Bytes) {
    origin != [] && OneLine(origin) && 13 !in origin && Trimmed(origin)
  }

  // --------------------------------------------------------- format and parse

  function Format(c: Checkpoint): Parsed<Bytes> {
    if !ValidOrigin(c.origin) then Err(BadOrigin)
    else if |c.root| != 32 then Err(BadRootSize)
    else Ok(c.origin + [LF] + Decimal.Format(c.size) + [LF] + Base64.Encode(c.root) + [LF])
  }

  function Parse(text: Bytes): Parsed<Checkpoint> {
    if text == [] || Last(text) != LF then Err(BadFormat)
    else
      var lines := Split(Init(text));
      if |lines| != 3 then Err(BadFormat)
      else if !ValidOrigin(lines[0]) then Err(BadOrigin)
      else match Decimal.Parse(lines[1])
        case None => Err(BadFormat)
        case Some(size) =>
          match Base64.DecodeStrict(lines[2])
          case None => Err(BadFormat)
          case Some(root) =>
            if |root| != 32 then Err(BadRootSize)
            else if Base64.Encode(root) != lines[2] then Err(BadFormat)
            else Ok(Checkpoint(lines[0], size, root))
  }

  // ----------------------------------------------------------------- theorems

  lemma DecimalIsOneLine(n: nat)
    ensures OneLine(Decimal.Format(n))
  {
    hide Decimal.Format;
    var s := Decimal.Format(n);
    assert forall i :: 0 <= i < |s| ==> Decimal.IsDigit(s[i]);
  }

  lemma Base64IsOneLine(b: Bytes)
    ensures OneLine(Base64.Encode(b))
  {
    Base64.EncodeSymbols(b);
  }

  lemma ThreeLines(a: Bytes, b: Bytes, c: Bytes)
    ensures Unlines([a, b, c]) == a + [LF] + b + [LF] + c + [LF]
  {
    assert [a, b, c][1..] == [b, c] && [b, c][1..] == [c] && [c][1..] == [];
    assert Unlines([c]) == c + [LF] + [];
    assert Unlines([b, c]) == b + [LF] + Unlines([c]);
  }

  /** One checkpoint, one body: parsing accepts exactly the bytes formatting produces, for
      every size a 64-bit field can hold. */
  lemma FormatExact(text: Bytes, c: Checkpoint)
    ensures Parse(text) == Ok(c) <==> Format(c) == Ok(text)
  {
    hide Base64.Encode, Decimal.Format, ValidOrigin, Split, Base64.DecodeStrict, Decimal.Parse, Unlines;
    if Parse(text) == Ok(c) {
      var lines := Split(Init(text));
      Decimal.ParseExact(lines[1], c.size);
      ThreeLines(lines[0], lines[1], lines[2]);
      assert lines == [lines[0], lines[1], lines[2]];
      assert text == Init(text) + [LF];
    }
    if Format(c) == Ok(text) {
      var lines := [c.origin, Decimal.Format(c.size), Base64.Encode(c.root)];
      ThreeLines(lines[0], lines[1], lines[2]);
      DecimalIsOneLine(c.size);
      Base64IsOneLine(c.root);
      OriginIsOneLine(c.origin);
      assert text == Init(text) + [LF];
      SplitOfUnlines(lines, Init(text));
      Decimal.ParseExact(lines[1], c.size);
      Base64.ParseLineExact(lines[2], c.root);
    }
  }

  lemma OriginIsOneLine(origin: Bytes)
    requires ValidOrigin(origin)
    ensures OneLine(origin)
  {
  }
}
