/** The spellings that the standards fix: hexadecimal and base64 digits, decimal numbers, the escapes of
    RFC 8785, and the canonical bytes of a header as they stand in the file. */
module Encodings {
  import opened Bytes
  import opened Text
  import Decimal
  import Base64
  import Hex
  import J = Jcs
  import O = JcsOrder
  import S = JcsSearch
  import Utf8
  import opened Blocks

  // -------------------------------------------------------------------- digits

  const HEX_DIGITS: string := "0123456789abcdef"

  lemma HexDigit(v: nat)
    requires v < 16
    ensures Hex.Digit(v) as int == HEX_DIGITS[v] as int
  {
  }

  /** Byte `i` is written as two digits, the high one first. */
  lemma {:induction false} HexAt(b: Bytes, i: nat)
    requires i < |b|
    ensures Hex.Encode(b)[2 * i] as int == HEX_DIGITS[b[i] as int / 16] as int
    ensures Hex.Encode(b)[2 * i + 1] as int == HEX_DIGITS[b[i] as int % 16] as int
  {
    HexDigit(b[i] as int / 16);
    HexDigit(b[i] as int % 16);
    if i > 0 {
      HexAt(b[1..], i - 1);
      assert Hex.Encode(b)[2..] == Hex.Encode(b[1..]);
    }
  }

  const DECIMAL_DIGITS: string := "0123456789"

  /** The last digit of a number, and the digits before it. */
  lemma DecimalAt(n: nat)
    ensures var s := Decimal.Format(n);
            && Last(s) as int == DECIMAL_DIGITS[n % 10] as int
            && (n < 10 ==> |s| == 1) && (n >= 10 ==> Init(s) == Decimal.Format(n / 10))
  {
  }

  const UPPER: string := "ABCDEFGHIJKLMNOPQRSTUVWXYZ"
  const LOWER: string := "abcdefghijklmnopqrstuvwxyz"

  /** Table 1 of RFC 4648. */
  lemma Base64Digit(v: nat)
    requires v < 64
    ensures v < 26 ==> Base64.Symbol(v) as int == UPPER[v] as int
    ensures 26 <= v < 52 ==> Base64.Symbol(v) as int == LOWER[v - 26] as int
    ensures 52 <= v < 62 ==> Base64.Symbol(v) as int == DECIMAL_DIGITS[v - 52] as int
    ensures v == 62 ==> Base64.Symbol(v) as int == '+' as int
    ensures v == 63 ==> Base64.Symbol(v) as int == '/' as int
  {
  }

  /** Section 10 of RFC 4648: "f", "fo", "foo" and "foobar" give "Zg==", "Zm8=", "Zm9v" and "Zm9vYmFy". */
  lemma Base64Vectors()
    ensures Base64.Encode([]) == []
    ensures Base64.Encode([102]) == [90, 103, 61, 61]
    ensures Base64.Encode([102, 111]) == [90, 109, 56, 61]
    ensures Base64.Encode([102, 111, 111]) == [90, 109, 57, 118]
  {
    assert [102, 111, 111][3..] == [];
  }

  lemma Base64Longer()
    ensures Base64.Encode([102, 111, 111, 98, 97, 114]) == [90, 109, 57, 118] + [89, 109, 70, 121]
  {
    assert Base64.Quad(98, 97, 114) == [89, 109, 70, 121] && Base64.Quad(102, 111, 111) == [90, 109, 57, 118];
    hide Base64.Quad, Base64.Symbol;
    assert [98, 97, 114][3..] == [] && Base64.Quad(98, 97, 114) + [] == Base64.Quad(98, 97, 114);
    assert [102, 111, 111, 98, 97, 114][3..] == [98, 97, 114];
  }

  // ------------------------------------------------------------------- escapes

  /** Section 3.2.2.2 of RFC 8785: five controls have a letter, the others four lower-case digits; the
      quote and the backslash are escaped; every other byte stands for itself. */
  lemma Escapes(b: byte)
    ensures J.Token(8) == Ascii("\\b") && J.Token(9) == Ascii("\\t") && J.Token(10) == Ascii("\\n")
    ensures J.Token(12) == Ascii("\\f") && J.Token(13) == Ascii("\\r")
    ensures J.Token(34) == Ascii("\\\"") && J.Token(92) == Ascii("\\\\")
    ensures b < 32 && b !in {8, 9, 10, 12, 13} ==> J.Token(b) == Ascii("\\u00") + Hex.Encode([b])
    ensures b >= 32 && b != 34 && b != 92 ==> J.Token(b) == [b]
  {
    assert [b][1..] == [];
    assert Hex.Encode([b]) == [Hex.Digit(b as int / 16), Hex.Digit(b as int % 16)] + [];
  }

  /** Section 3.2.3 of RFC 8785 orders names by UTF-16 code units, not by code points: U+10000, whose
      first unit is a surrogate, comes before U+E000. */
  lemma SurrogatesSortLow()
    ensures O.Less([0xF0, 0x90, 0x80, 0x80], [0xEE, 0x80, 0x80])
    ensures !O.Less([0xEE, 0x80, 0x80], [0xF0, 0x90, 0x80, 0x80])
  {
    PairUnits();
    OneUnit();
    hide O.Units;
    O.DecidedAt([0xD800, 0xDC00], [0xE000], 0);
    O.DecidedAt([0xE000], [0xD800, 0xDC00], 0);
  }

  lemma PairUnits()
    ensures O.Units([0xF0, 0x90, 0x80, 0x80]) == [0xD800, 0xDC00]
  {
    var s: Bytes := [0xF0, 0x90, 0x80, 0x80];
    assert s[..4] == s && s[4..] == [];
    assert O.UnitsOf(0x10000) == [0xD800, 0xDC00];
  }

  lemma OneUnit()
    ensures O.Units([0xEE, 0x80, 0x80]) == [0xE000]
  {
    var s: Bytes := [0xEE, 0x80, 0x80];
    assert s[..3] == s && s[3..] == [];
    assert O.UnitsOf(0xE000) == [0xE000];
  }

  // ------------------------------------------------------------------- headers

  /** A name of the header, quoted and followed by its colon, after a comma or not. */
  function Lead(comma: bool, name: Bytes): Bytes {
    (if comma then [44] else []) + [34] + name + [34, 58]
  }

  /** What is still to be written before the members `ms`. */
  function Rest(ms: seq<J.Member>): Bytes {
    if ms == [] then [125] else [44] + J.EncodeMembers(ms)
  }

  predicate PlainName(name: Bytes) {
    forall i :: 0 <= i < |name| ==> J.Token(name[i]) == [name[i]]
  }

  lemma MembersAre(ms: seq<J.Member>)
    requires ms != []
    ensures J.EncodeMembers(ms) == J.EncodeMember(ms[0]) + Rest(ms[1..]) && Rest(ms) == [44] + J.EncodeMembers(ms)
  {
    hide J.EncodeMember;
    if |ms| == 1 {
      assert ms[1..] == [];
    } else {
      Associate(J.EncodeMember(ms[0]), [44], J.EncodeMembers(ms[1..]));
    }
  }

  lemma MemberIs(m: J.Member)
    requires PlainName(m.name)
    ensures J.EncodeMember(m) == Lead(false, m.name) + J.EncodeValue(m.value)
  {
    J.BodyOfPlain(m.name);
    hide J.Token, J.Body, J.EncodeValue;
    Associate([34] + m.name, [34], [58]);
    assert [34] + [58] == [34, 58] && [] + [34] == [34];
  }

  lemma LeadIs(name: Bytes)
    ensures Lead(true, name) == [44] + Lead(false, name)
  {
  }

  lemma MembersStep(ms: seq<J.Member>)
    requires ms != [] && PlainName(ms[0].name)
    ensures var v := J.EncodeValue(ms[0].value) + Rest(ms[1..]);
            J.EncodeMembers(ms) == Lead(false, ms[0].name) + v && Rest(ms) == Lead(true, ms[0].name) + v
  {
    hide *;
    var name, value, more := ms[0].name, J.EncodeValue(ms[0].value), Rest(ms[1..]);
    MembersAre(ms);
    MemberIs(ms[0]);
    LeadIs(name);
    Associate(Lead(false, name), value, more);
    Associate([44], Lead(false, name), value + more);
  }

  // What stands before each value.
  const BEFORE_INDEX := Ascii("\"index\":")
  const BEFORE_PAYLOAD_CID := Ascii(",\"payload_cid\":")
  const BEFORE_PAYLOAD_HASH := Ascii(",\"payload_hash\":")
  const BEFORE_PREV_HASH := Ascii(",\"prev_hash\":")
  const BEFORE_SIGNER := Ascii(",\"signer_pubkey\":")
  const BEFORE_TENANT := Ascii(",\"tenant\":")
  const BEFORE_TIMESTAMP := Ascii(",\"timestamp\":")
  const BEFORE_TYPE := Ascii(",\"type\":")

  lemma NamesFirst()
    ensures Lead(false, INDEX) == BEFORE_INDEX
    ensures Lead(true, PAYLOAD_CID) == BEFORE_PAYLOAD_CID
  {
  }

  lemma NamesSecond()
    ensures Lead(true, PAYLOAD_HASH) == BEFORE_PAYLOAD_HASH
    ensures Lead(true, PREV_HASH) == BEFORE_PREV_HASH
  {
  }

  lemma NamesThird()
    ensures Lead(true, SIGNER) == BEFORE_SIGNER
    ensures Lead(true, TENANT) == BEFORE_TENANT
  {
  }

  lemma NamesFourth()
    ensures Lead(true, TIMESTAMP) == BEFORE_TIMESTAMP
    ensures Lead(true, TYPE) == BEFORE_TYPE
  {
  }

  lemma PlainIdentifier(name: Bytes)
    requires S.Identifier(name)
    ensures PlainName(name)
  {
  }

  lemma NamesArePlain()
    ensures PlainName(INDEX) && PlainName(PAYLOAD_CID) && PlainName(PAYLOAD_HASH) && PlainName(PREV_HASH)
    ensures PlainName(SIGNER) && PlainName(TENANT) && PlainName(TIMESTAMP) && PlainName(TYPE)
  {
    hide *;
    NamesAreIdentifiers();
    PlainIdentifier(INDEX);
    PlainIdentifier(PAYLOAD_CID);
    PlainIdentifier(PAYLOAD_HASH);
    PlainIdentifier(PREV_HASH);
    PlainIdentifier(SIGNER);
    PlainIdentifier(TENANT);
    PlainIdentifier(TIMESTAMP);
    PlainIdentifier(TYPE);
  }

  /** A text field of the header, as it is written. */
  function Written(s: Bytes): Bytes {
    [34] + J.Body(Utf8.Coerce(s)) + [34]
  }

  /** The bytes that are hashed, signed and stored for a header, from the brace that opens them to the one
      that closes them. */
  lemma HeaderLayout(h: Header)
    requires h.index <= MAX_SAFE_INDEX
    ensures Canonical(h)
            == [123] + (BEFORE_INDEX + (Decimal.Format(h.index)
                     + (BEFORE_PAYLOAD_CID + (Written(h.payloadCID)
                     + (BEFORE_PAYLOAD_HASH + (Written(h.payloadHash)
                     + (BEFORE_PREV_HASH + (Written(h.prevHash)
                     + (BEFORE_SIGNER + (Written(h.signer)
                     + (BEFORE_TENANT + (Written(h.tenant)
                     + (BEFORE_TIMESTAMP + (Written(h.timestamp)
                     + (BEFORE_TYPE + (Written(h.typ) + [125]))))))))))))))))
  {
    hide *;
    var ms := Members(h);
    CanonicalIs(h);
    NamesFirst();
    NamesSecond();
    NamesThird();
    NamesFourth();
    NamesArePlain();
    MembersAt(h);
    TailsOf(ms);
    MembersStep(ms);
    MembersStep(ms[1..]);
    MembersStep(ms[2..]);
    MembersStep(ms[3..]);
    MembersStep(ms[4..]);
    MembersStep(ms[5..]);
    MembersStep(ms[6..]);
    MembersStep(ms[7..]);
    NothingLeft();
  }

  lemma CanonicalIs(h: Header)
    requires h.index <= MAX_SAFE_INDEX
    ensures Canonical(h) == [123] + J.EncodeMembers(Members(h))
  {
    hide J.EncodeMembers, Members;
  }

  lemma NothingLeft()
    ensures Rest([]) == [125]
  {
  }

  lemma TailsOf(ms: seq<J.Member>)
    requires |ms| == 8
    ensures forall i, j :: 0 <= i && 0 <= j && i + j < 8 ==> ms[i..][j] == ms[i + j]
    ensures forall i :: 0 <= i < 8 ==> ms[i..][1..] == ms[i + 1..]
    ensures ms[8..] == []
  {
  }

  lemma MembersAt(h: Header)
    ensures var ms := Members(h);
            && |ms| == 8
            && ms[0].name == INDEX && J.EncodeValue(ms[0].value) == Decimal.Format(h.index)
            && ms[1].name == PAYLOAD_CID && J.EncodeValue(ms[1].value) == Written(h.payloadCID)
            && ms[2].name == PAYLOAD_HASH && J.EncodeValue(ms[2].value) == Written(h.payloadHash)
            && ms[3].name == PREV_HASH && J.EncodeValue(ms[3].value) == Written(h.prevHash)
            && ms[4].name == SIGNER && J.EncodeValue(ms[4].value) == Written(h.signer)
            && ms[5].name == TENANT && J.EncodeValue(ms[5].value) == Written(h.tenant)
            && ms[6].name == TIMESTAMP && J.EncodeValue(ms[6].value) == Written(h.timestamp)
            && ms[7].name == TYPE && J.EncodeValue(ms[7].value) == Written(h.typ)
  {
    hide J.Body, Utf8.Coerce, Decimal.Format, Ascii;
  }
}
