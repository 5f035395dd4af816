/** The access key of Ecuador's tax authority and its modulo-11 digit: profiles/ecuador/clave.go. */
module ClaveAcceso {
  import opened Bytes
  import Decimal

  const KEY_LENGTH: nat := 49

  // ------------------------------------------------------------- the check digit

  predicate IsDigit(c: byte) {
    48 <= c <= 57
  }

  predicate AllDigits(s: Bytes) {
    forall i :: 0 <= i < |s| ==> IsDigit(s[i])
  }

  /** int(c - '0'), which wraps around below '0'. */
  function Value(c: byte): nat {
    if c >= 48 then c as int - 48 else c as int + 208
  }

  /** The weight of the j-th digit from the right: 2, 3, 4, 5, 6, 7 and again. */
  function Weight(j: nat): (w: nat)
    ensures 2 <= w <= 7
  {
    2 + j % 6
  }

  function WeightedSum(s: Bytes): nat {
    if s == [] then 0 else Value(s[0]) * Weight(|s| - 1) + WeightedSum(s[1..])
  }

  /** Eleven minus the residue, with 11 written 0 and 10 written 1: the one digit that brings the sum
      to a multiple of 11, and 1 where that would take a ten. */
  function DigitOf(sum: nat): (d: nat)
    ensures d <= 9
    ensures (sum + d) % 11 == 0 || (sum % 11 == 1 && d == 1)
  {
    var d := 11 - sum % 11;
    if d == 11 then 0 else if d == 10 then 1 else d
  }

  lemma NextWeight(j: nat)
    ensures Weight(j + 1) == if Weight(j) == 7 then 2 else Weight(j) + 1
  {
  }

  lemma SumStep(s: Bytes, i: nat)
    requires i < |s|
    ensures WeightedSum(s[i..]) == WeightedSum(s[i + 1..]) + Value(s[i]) * Weight(|s| - 1 - i)
  {
    assert s[i..][1..] == s[i + 1..];
  }

  /** The weights of the source, from the right. */
  lemma Weights(j: nat)
    ensures Weight(0) == 2 && Weight(1) == 3 && Weight(2) == 4 && Weight(3) == 5 && Weight(4) == 6 && Weight(5) == 7
    ensures Weight(j + 6) == Weight(j)
  {
  }

  /** No other digit does what DigitOf says. */
  lemma OneDigit(sum: nat, d: nat)
    requires d <= 9 && ((sum + d) % 11 == 0 || (sum % 11 == 1 && d == 1))
    ensures d == DigitOf(sum)
  {
    var e := DigitOf(sum);
    if (sum + d) % 11 == 0 && (sum + e) % 11 == 0 {
      var q := (sum + d) / 11 - (sum + e) / 11;
      assert d - e == 11 * q;
    }
  }

  /** DigitoVerificador. */
  method DigitoVerificador(base: Bytes) returns (d: nat)
    ensures d == DigitOf(WeightedSum(base))
  {
    var suma, peso := 0, 2;
    var i := |base| - 1;
    assert base[i + 1..] == [] && Weight(0) == 2 && WeightedSum([]) == 0;
    while i >= 0
      invariant -1 <= i < |base|
      invariant peso == Weight(|base| - 1 - i)
      invariant suma == WeightedSum(base[i + 1..])
    {
      hide Weight, WeightedSum, Value;
      SumStep(base, i);
      NextWeight(|base| - 1 - i);
      suma := suma + Value(base[i]) * peso;
      if peso == 7 { peso := 2; } else { peso := peso + 1; }
      i := i - 1;
    }
    assert base[0..] == base;
    hide WeightedSum;
    d := 11 - suma % 11;
    if d == 11 { d := 0; } else if d == 10 { d := 1; }
  }

  // ------------------------------------------------------- what the digit detects

  /** The residues the digit cannot tell apart. */
  predicate Confused(a: nat, b: nat) {
    (a % 11 == 1 && b % 11 == 10) || (a % 11 == 10 && b % 11 == 1)
  }

  lemma SameDigit(a: nat, b: nat)
    ensures DigitOf(a) == DigitOf(b) <==> a % 11 == b % 11 || Confused(a, b)
  {
  }

  lemma {:induction false} SumSplit(s: Bytes, k: nat)
    requires k < |s|
    ensures WeightedSum(s) == WeightedSum(s[..k] + Zeros(|s| - k)) + WeightedSum(s[k..])
  {
    hide WeightedSum, Value, Weight;
    var u := s[..k] + Zeros(|s| - k);
    assert s[0..] == s && u[0..] == u;
    if k == 0 {
      assert u == Zeros(|s|);
      SumOfZeros(|s|);
    } else {
      SumSplit(s[1..], k - 1);
      SumStep(s, 0);
      SumStep(u, 0);
      assert s[1..][k - 1..] == s[k..];
      assert u[1..] == s[1..][..k - 1] + Zeros(|s| - k);
    }
  }

  function Zeros(n: nat): (z: Bytes)
    ensures |z| == n && forall i :: 0 <= i < n ==> z[i] == 48
  {
    if n == 0 then [] else [48] + Zeros(n - 1)
  }

  lemma {:induction false} SumOfZeros(n: nat)
    ensures WeightedSum(Zeros(n)) == 0
  {
    if n > 0 { SumOfZeros(n - 1); }
  }

  /** What one digit and the rest contribute. */
  lemma SumAt(s: Bytes, k: nat)
    requires k < |s|
    ensures WeightedSum(s) == WeightedSum(s[..k] + Zeros(|s| - k)) + Value(s[k]) * Weight(|s| - 1 - k)
            + WeightedSum(s[k + 1..])
  {
    SumSplit(s, k);
    SumStep(s, k);
    hide *;
  }

  lemma NotAMultiple(x: int, w: int, a: nat, b: nat)
    requires -9 <= x <= 9 && x != 0 && -7 <= w <= 7 && w != 0
    requires a == b + x * w
    ensures a % 11 != b % 11
  {
    if a % 11 == b % 11 {
      var q := a / 11 - b / 11;
      assert x * w == 11 * q;
      Products(x, w, q);
    }
  }

  lemma Products(x: int, w: int, q: int)
    requires -9 <= x <= 9 && -7 <= w <= 7 && x * w == 11 * q
    ensures x == 0 || w == 0
  {
    if w == 1 || w == -1 {} else if w == 2 || w == -2 {} else if w == 3 || w == -3 {} else if w == 4 || w == -4 {}
    else if w == 5 || w == -5 {} else if w == 6 || w == -6 {} else if w == 7 || w == -7 {}
  }

  /** One digit written wrong goes unnoticed exactly when the sums before and after have residues 1
      and 10 modulo 11, in either order. */
  lemma SubstitutionExact(s: Bytes, k: nat, c: byte)
    requires AllDigits(s) && k < |s| && IsDigit(c) && c != s[k]
    ensures DigitOf(WeightedSum(s)) == DigitOf(WeightedSum(s[k := c]))
            <==> Confused(WeightedSum(s), WeightedSum(s[k := c]))
  {
    var t := s[k := c];
    SumAt(s, k);
    SumAt(t, k);
    assert t[..k] == s[..k] && t[k + 1..] == s[k + 1..];
    hide WeightedSum;
    var w := Weight(|s| - 1 - k);
    Distribute(Value(s[k]), Value(c), w);
    NotAMultiple(Value(s[k]) - Value(c), w, WeightedSum(s), WeightedSum(t));
    SameDigit(WeightedSum(s), WeightedSum(t));
  }

  lemma Distribute(a: int, b: int, w: int)
    ensures a * w == b * w + (a - b) * w
  {
  }

  /** Two neighbouring digits exchanged go unnoticed exactly in the same case. */
  lemma TranspositionExact(s: Bytes, k: nat)
    requires AllDigits(s) && k + 1 < |s| && s[k] != s[k + 1]
    ensures var t := s[k := s[k + 1]][k + 1 := s[k]];
            DigitOf(WeightedSum(s)) == DigitOf(WeightedSum(t)) <==> Confused(WeightedSum(s), WeightedSum(t))
  {
    var t := s[k := s[k + 1]][k + 1 := s[k]];
    TwoDigits(s, k);
    TwoDigits(t, k);
    assert t[..k] == s[..k] && t[k + 2..] == s[k + 2..];
    DigitValues(s[k], s[k + 1]);
    NeighbourWeights(|s| - 2 - k);
    hide WeightedSum, Weight, Value, DigitOf;
    var v, w := Weight(|s| - 1 - k), Weight(|s| - 2 - k);
    var p, q := WeightedSum(s[..k] + Zeros(|s| - k)), WeightedSum(s[k + 2..]);
    SwapChanges(p, Value(s[k]), Value(s[k + 1]), v, w, q, WeightedSum(s), WeightedSum(t));
    SameDigit(WeightedSum(s), WeightedSum(t));
  }

  lemma SwapChanges(p: nat, x: nat, y: nat, v: nat, w: nat, q: nat, a: nat, b: nat)
    requires a == p + x * v + y * w + q && b == p + y * v + x * w + q
    requires x <= 9 && y <= 9 && x != y && v != w && -7 <= v - w <= 7
    ensures a % 11 != b % 11
  {
    Exchange(x, y, v, w);
    NotAMultiple(x - y, v - w, a, b);
  }

  lemma DigitValues(a: byte, b: byte)
    requires IsDigit(a) && IsDigit(b) && a != b
    ensures Value(a) <= 9 && Value(b) <= 9 && Value(a) != Value(b)
  {
  }

  lemma NeighbourWeights(j: nat)
    ensures Weight(j + 1) != Weight(j) && -7 <= Weight(j + 1) - Weight(j) <= 7
  {
  }

  lemma TwoDigits(s: Bytes, k: nat)
    requires k + 1 < |s|
    ensures WeightedSum(s) == WeightedSum(s[..k] + Zeros(|s| - k)) + Value(s[k]) * Weight(|s| - 1 - k)
                              + Value(s[k + 1]) * Weight(|s| - 2 - k) + WeightedSum(s[k + 2..])
  {
    SumAt(s, k);
    assert s[k + 1..][1..] == s[k + 2..];
  }

  lemma Exchange(a: int, b: int, v: int, w: int)
    ensures a * v + b * w == b * v + a * w + (a - b) * (v - w)
  {
  }

  // --------------------------------------------------------------------- the key

  datatype Clave = Clave(
    dia: nat, mes: nat, anio: nat,
    tipo: Bytes,
    ruc: Bytes,
    ambiente: Bytes,
    establecimiento: Bytes,
    puntoEmision: Bytes,
    secuencial: Bytes,
    codigo: Bytes,
    tipoEmision: Bytes,
    digito: nat)

  datatype Problem = BadLength | NotDigit | WrongCheckDigit | BadDate

  datatype Parsed = Ok(clave: Clave) | Err(problem: Problem)

  predicate Leap(y: nat) {
    y % 4 == 0 && (y % 100 != 0 || y % 400 == 0)
  }

  function DaysIn(m: nat, y: nat): nat {
    if m == 2 then (if Leap(y) then 29 else 28) else if m == 4 || m == 6 || m == 9 || m == 11 then 30 else 31
  }

  predicate ValidDate(d: nat, m: nat, y: nat) {
    1 <= m <= 12 && 1 <= d <= DaysIn(m, y)
  }

  function Number(s: Bytes): nat
    requires AllDigits(s)
  {
    if s == [] then 0 else 10 * Number(Init(s)) + Value(Last(s))
  }

  function Digits(n: nat, width: nat): (s: Bytes)
    ensures |s| == width && AllDigits(s)
  {
    if width == 0 then [] else Digits(n / 10, width - 1) + [(48 + n % 10) as byte]
  }

  function Pow10(width: nat): nat {
    if width == 0 then 1 else 10 * Pow10(width - 1)
  }

  lemma {:induction false} DigitsExact(s: Bytes, n: nat)
    requires AllDigits(s)
    ensures Number(s) == n && n < Pow10(|s|) <==> s == Digits(n, |s|) && n < Pow10(|s|)
    ensures Number(s) < Pow10(|s|)
  {
    if s != [] {
      DigitsExact(Init(s), n / 10);
      DigitsExact(Init(s), Number(Init(s)));
      assert s == Init(s) + [Last(s)];
      var e := Digits(n, |s|);
      assert Init(e) == Digits(n / 10, |s| - 1) && Last(e) == (48 + n % 10) as byte;
    }
  }

  /** ParseClaveAcceso. */
  function Parse(clave: Bytes): Parsed {
    if |clave| != KEY_LENGTH then Err(BadLength)
    else if !AllDigits(clave) then Err(NotDigit)
    else if Value(clave[48]) != DigitOf(WeightedSum(clave[..48])) then Err(WrongCheckDigit)
    else
      var d, m, y := Number(clave[0..2]), Number(clave[2..4]), Number(clave[4..8]);
      if !ValidDate(d, m, y) then Err(BadDate)
      else Ok(Clave(d, m, y, clave[8..10], clave[10..23], clave[23..24], clave[24..27], clave[27..30],
                    clave[30..39], clave[39..47], clave[47..48], Value(clave[48])))
  }

  /** The 48 digits the fields stand for. */
  function Base(k: Clave): Bytes {
    Digits(k.dia, 2) + Digits(k.mes, 2) + Digits(k.anio, 4) + k.tipo + k.ruc + k.ambiente + k.establecimiento
    + k.puntoEmision + k.secuencial + k.codigo + k.tipoEmision
  }

  predicate WellFormed(k: Clave) {
    && ValidDate(k.dia, k.mes, k.anio) && k.anio < 10000
    && |k.tipo| == 2 && |k.ruc| == 13 && |k.ambiente| == 1 && |k.establecimiento| == 3 && |k.puntoEmision| == 3
    && |k.secuencial| == 9 && |k.codigo| == 8 && |k.tipoEmision| == 1
    && AllDigits(k.tipo) && AllDigits(k.ruc) && AllDigits(k.ambiente) && AllDigits(k.establecimiento)
    && AllDigits(k.puntoEmision) && AllDigits(k.secuencial) && AllDigits(k.codigo) && AllDigits(k.tipoEmision)
  }

  /** Print: the key whose fields these are. */
  function Print(k: Clave): Bytes {
    Base(k) + [(48 + DigitOf(WeightedSum(Base(k)))) as byte]
  }

  lemma BaseCut(clave: Bytes, k: Clave)
    requires |clave| == KEY_LENGTH && WellFormed(k)
    ensures clave[..48] == Base(k)
            <==> && clave[0..2] == Digits(k.dia, 2) && clave[2..4] == Digits(k.mes, 2)
                 && clave[4..8] == Digits(k.anio, 4)
                 && clave[8..10] == k.tipo && clave[10..23] == k.ruc && clave[23..24] == k.ambiente
                 && clave[24..27] == k.establecimiento && clave[27..30] == k.puntoEmision
                 && clave[30..39] == k.secuencial
                 && clave[39..47] == k.codigo && clave[47..48] == k.tipoEmision
  {
    hide ValidDate, AllDigits;
    BaseHalves(k);
    FrontCut(clave, k);
    BackCut(clave, k);
    hide *;
    SplitAt24(clave[..48], Front(k), Back(k));
    assert clave[..48][..24] == clave[..24] && clave[..48][24..] == clave[24..48];
  }

  /** Date, kind, holder and environment: the first 24 digits. */
  function Front(k: Clave): Bytes {
    Digits(k.dia, 2) + Digits(k.mes, 2) + Digits(k.anio, 4) + k.tipo + k.ruc + k.ambiente
  }

  function Back(k: Clave): Bytes {
    k.establecimiento + k.puntoEmision + k.secuencial + k.codigo + k.tipoEmision
  }

  lemma BaseHalves(k: Clave)
    ensures Base(k) == Front(k) + Back(k)
  {
    hide Digits;
    var f, a, b, c, d := Front(k), k.establecimiento, k.puntoEmision, k.secuencial, k.codigo;
    Associate(f, a, b);
    Associate(f, a + b, c);
    Associate(f, a + b + c, d);
    Associate(f, a + b + c + d, k.tipoEmision);
  }

  lemma SplitAt24(s: Bytes, a: Bytes, b: Bytes)
    requires |s| == 48 && |a| == 24 && |b| == 24
    ensures s == a + b <==> s[..24] == a && s[24..] == b
  {
    assert s == s[..24] + s[24..];
    assert (a + b)[..24] == a && (a + b)[24..] == b;
  }

  lemma FrontCut(clave: Bytes, k: Clave)
    requires |clave| == KEY_LENGTH && |k.tipo| == 2 && |k.ruc| == 13 && |k.ambiente| == 1
    ensures |Front(k)| == 24
    ensures clave[..24] == Front(k)
            <==> && clave[0..2] == Digits(k.dia, 2) && clave[2..4] == Digits(k.mes, 2)
                 && clave[4..8] == Digits(k.anio, 4)
                 && clave[8..10] == k.tipo && clave[10..23] == k.ruc && clave[23..24] == k.ambiente
  {
    hide Digits;
    var b := Front(k);
    assert clave[..24] == clave[0..2] + clave[2..4] + clave[4..8] + clave[8..10] + clave[10..23] + clave[23..24];
    assert b[0..2] == Digits(k.dia, 2) && b[2..4] == Digits(k.mes, 2) && b[4..8] == Digits(k.anio, 4);
    assert b[8..10] == k.tipo && b[10..23] == k.ruc && b[23..24] == k.ambiente;
    if clave[..24] == b {
      CutSame(clave, 0, b, 0, 2);
      CutSame(clave, 0, b, 2, 4);
      CutSame(clave, 0, b, 4, 8);
      CutSame(clave, 0, b, 8, 10);
      CutSame(clave, 0, b, 10, 23);
      CutSame(clave, 0, b, 23, 24);
    }
  }

  lemma BackCut(clave: Bytes, k: Clave)
    requires |clave| == KEY_LENGTH && |k.establecimiento| == 3 && |k.puntoEmision| == 3
    requires |k.secuencial| == 9 && |k.codigo| == 8 && |k.tipoEmision| == 1
    ensures |Back(k)| == 24
    ensures clave[24..48] == Back(k)
            <==> && clave[24..27] == k.establecimiento && clave[27..30] == k.puntoEmision
                 && clave[30..39] == k.secuencial
                 && clave[39..47] == k.codigo && clave[47..48] == k.tipoEmision
  {
    var b := Back(k);
    assert clave[24..48] == clave[24..27] + clave[27..30] + clave[30..39] + clave[39..47] + clave[47..48];
    assert b[0..3] == k.establecimiento && b[3..6] == k.puntoEmision && b[6..15] == k.secuencial;
    assert b[15..23] == k.codigo && b[23..24] == k.tipoEmision;
    if clave[24..48] == b {
      CutSame(clave, 24, b, 0, 3);
      CutSame(clave, 24, b, 3, 6);
      CutSame(clave, 24, b, 6, 15);
      CutSame(clave, 24, b, 15, 23);
      CutSame(clave, 24, b, 23, 24);
    }
  }

  lemma CutSame(s: Bytes, o: nat, b: Bytes, i: nat, j: nat)
    requires o + 24 <= |s| && s[o..o + 24] == b && i <= j <= 24
    ensures s[o + i..o + j] == b[i..j]
  {
    forall n | 0 <= n < j - i ensures s[o + i..o + j][n] == b[i..j][n] { assert b[i + n] == s[o + i + n]; }
  }

  lemma TwoFour()
    ensures Pow10(2) == 100 && Pow10(4) == 10000
  {
    assert Pow10(0) == 1 && Pow10(1) == 10 && Pow10(2) == 100 && Pow10(3) == 1000;
  }

  /** A key has one reading and a reading one key: parsing accepts exactly the printed keys of
      well-formed fields, the check digit being the one of the other 48. */
  lemma ParseExact(clave: Bytes, k: Clave)
    ensures Parse(clave) == Ok(k)
            <==> WellFormed(k) && k.digito == DigitOf(WeightedSum(Base(k))) && clave == Print(k)
  {
    if |clave| == KEY_LENGTH && AllDigits(clave) {
      LastIsDigit(clave, k);
      FieldsExact(clave, k);
      hide WeightedSum, DigitOf, Base, WellFormed, ValidDate, Number, AllDigits, Value;
    } else if WellFormed(k) {
      PrintIsDigits(k);
    }
  }

  lemma PrintIsDigits(k: Clave)
    requires WellFormed(k)
    ensures |Print(k)| == KEY_LENGTH && AllDigits(Print(k))
  {
    hide WeightedSum, DigitOf, ValidDate, Digits;
  }

  lemma LastIsDigit(clave: Bytes, k: Clave)
    requires |clave| == KEY_LENGTH && AllDigits(clave)
    ensures WellFormed(k) ==>
              (clave == Print(k) <==> clave[..48] == Base(k) && Value(clave[48]) == DigitOf(WeightedSum(Base(k))))
  {
    if WellFormed(k) {
      PrintIsDigits(k);
      hide WeightedSum, DigitOf, Base, WellFormed;
      assert clave == clave[..48] + [clave[48]];
      assert Print(k)[..48] == Base(k) && Print(k)[48] == Last(Print(k));
    }
  }

  /** The fields read are the fields printed. */
  lemma FieldsExact(clave: Bytes, k: Clave)
    requires |clave| == KEY_LENGTH && AllDigits(clave)
    ensures (&& ValidDate(Number(clave[0..2]), Number(clave[2..4]), Number(clave[4..8]))
             && k == Clave(Number(clave[0..2]), Number(clave[2..4]), Number(clave[4..8]), clave[8..10],
                           clave[10..23], clave[23..24],
                           clave[24..27], clave[27..30], clave[30..39], clave[39..47], clave[47..48], k.digito))
            <==> WellFormed(k) && clave[..48] == Base(k)
  {
    hide Digits, Number, ValidDate, Base;
    DateRead(clave, k);
    if WellFormed(k) {
      hide AllDigits;
      BaseCut(clave, k);
    }
  }

  /** The date is read as it was printed. */
  lemma DateRead(clave: Bytes, k: Clave)
    requires |clave| == KEY_LENGTH && AllDigits(clave)
    ensures ValidDate(k.dia, k.mes, k.anio) ==>
              && (Number(clave[0..2]) == k.dia <==> clave[0..2] == Digits(k.dia, 2))
              && (Number(clave[2..4]) == k.mes <==> clave[2..4] == Digits(k.mes, 2))
    ensures Number(clave[4..8]) == k.anio <==> k.anio < 10000 && clave[4..8] == Digits(k.anio, 4)
  {
    TwoFour();
    DatesAreShort(k.dia, k.mes, k.anio);
    hide Digits, Number, Pow10, ValidDate;
    DigitsExact(clave[0..2], k.dia);
    DigitsExact(clave[2..4], k.mes);
    DigitsExact(clave[4..8], k.anio);
  }

  lemma DatesAreShort(d: nat, m: nat, y: nat)
    ensures ValidDate(d, m, y) ==> d < 100 && m < 100
  {
  }

  /** A key is read only if the weighted sum of its first 48 digits and its last digit come to a
      multiple of 11, except where that digit would be a ten and 1 stands for it. */
  lemma ReadKeyAddsUp(clave: Bytes)
    requires Parse(clave).Ok?
    ensures |clave| == KEY_LENGTH && AllDigits(clave) && Parse(clave).clave.digito == Value(clave[48])
    ensures var sum := WeightedSum(clave[..48]);
            (sum + Value(clave[48])) % 11 == 0 || (sum % 11 == 1 && clave[48] == 49)
  {
    hide WeightedSum, Number, ValidDate;
  }

  /** The last days of the months, and of February in the Gregorian calendar. */
  lemma LastDays(m: nat, y: nat)
    ensures ValidDate(31, m, y) <==> m in {1, 3, 5, 7, 8, 10, 12}
    ensures ValidDate(30, m, y) <==> 1 <= m <= 12 && m != 2
    ensures ValidDate(29, 2, y) <==> y % 4 == 0 && !(y % 100 == 0 && y % 400 != 0)
    ensures ValidDate(28, 2, y) && !ValidDate(0, m, y) && !ValidDate(32, m, y)
  {
    assert Leap(y) <==> y % 4 == 0 && !(y % 100 == 0 && y % 400 != 0);
    hide Leap;
  }

  /** A number in a key is decimal, the greatest digit first. */
  lemma {:induction false} NumberIsDecimal(s: Bytes)
    requires AllDigits(s)
    ensures Decimal.AllDigits(s) && Number(s) == Decimal.Value(s)
  {
    if s != [] { NumberIsDecimal(Init(s)); }
  }

  /** A good key with one of its first 48 digits written wrong is refused for its check digit, except
      exactly when the two sums have residues 1 and 10. */
  lemma WrongDigitCaught(clave: Bytes, k: nat, c: byte)
    requires Parse(clave).Ok? && k < 48 && IsDigit(c) && c != clave[k]
    ensures Parse(clave[k := c]) == Err(WrongCheckDigit)
            <==> !Confused(WeightedSum(clave[..48]), WeightedSum(clave[..48][k := c]))
  {
    hide WeightedSum, DigitOf, Number, ValidDate;
    assert clave[k := c][..48] == clave[..48][k := c];
    SubstitutionExact(clave[..48], k, c);
  }
}
