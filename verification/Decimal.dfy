/** Decimal numbers as strconv.FormatUint writes them and the strict parsers read them. */
module Decimal {
  import opened Bytes

  predicate IsDigit(c: byte) {
    48 <= c <= 57
  }

  predicate AllDigits(s: Bytes) {
    forall i :: 0 <= i < |s| ==> IsDigit(s[i])
  }

  /** Digits without a superfluous leading zero. */
  predicate Canonical(s: Bytes) {
    s != [] && AllDigits(s) && (|s| > 1 ==> s[0] != 48)
  }

  /** FormatUint(n, 10). */
  function Format(n: nat): (s: Bytes)
    ensures Canonical(s) && Value(s) == n
    ensures n > 0 ==> s[0] != 48
  {
    if n < 10 then
      var s := [(48 + n) as byte];
      assert Init(s) == [];
      s
    else
      var s := Format(n / 10) + [(48 + n % 10) as byte];
      assert Init(s) == Format(n / 10);
      s
  }

  /** The number a string of digits stands for. */
  function Value(s: Bytes): nat
    requires AllDigits(s)
  {
    if s == [] then 0 else 10 * Value(Init(s)) + (Last(s) as int - 48)
  }

  /** parseDecimal, and the size line of a checkpoint: canonical digits within 64 bits. */
  function Parse(s: Bytes): Option<uint64> {
    if s == [] || (|s| > 1 && s[0] == 48) || !AllDigits(s) then None
    else if Value(s) >= 0x1_0000_0000_0000_0000 then None
    else Some(Value(s))
  }

  lemma {:induction false} FormatOfValue(s: Bytes)
    requires Canonical(s)
    ensures Format(Value(s)) == s
  {
    if |s| == 1 {
      assert Init(s) == [] && s == [s[0]];
    } else {
      FormatOfValue(Init(s));
      ValuePositive(Init(s));
      FormatStep(Value(Init(s)), Last(s) as int - 48);
      assert s == Init(s) + [Last(s)];
      hide Format;
    }
  }

  lemma FormatStep(v: nat, c: nat)
    requires v > 0 && c < 10
    ensures Format(10 * v + c) == Format(v) + [(48 + c) as byte]
  {
    assert (10 * v + c) / 10 == v && (10 * v + c) % 10 == c;
  }

  lemma {:induction false} ValuePositive(s: Bytes)
    requires s != [] && AllDigits(s) && s[0] != 48
    ensures Value(s) > 0
  {
    if |s| > 1 { ValuePositive(Init(s)); }
  }

  /** One number, one spelling: parsing accepts exactly what formatting writes. */
  lemma ParseExact(s: Bytes, n: uint64)
    ensures Parse(s) == Some(n) <==> s == Format(n)
  {
    if Parse(s) == Some(n) { FormatOfValue(s); }
  }
}
