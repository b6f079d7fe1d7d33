/** Decimal numerals: what sprintf prints for integers and what strtod reads back. */
module Decimal {
  import opened Bytes

  const MINUS: byte := 45
  const PLUS: byte := 43
  const POINT: byte := 46

  predicate IsDigit(b: byte) {
    48 <= b <= 57
  }

  predicate AllDigits(s: Text) {
    forall i :: 0 <= i < |s| ==> IsDigit(s[i])
  }

  /** Decimal digits of n, most significant first. */
  function Digits(n: nat): (s: Text)
    ensures AllDigits(s) && s != []
    ensures n < 10 ==> |s| == 1
    ensures s[0] == 48 ==> n == 0
  {
    if n < 10 then [48 + n] else Digits(n / 10) + [48 + n % 10]
  }

  function IntText(n: int): Text {
    if n < 0 then [MINUS] + Digits(-n) else Digits(n)
  }

  /** The number a digit string denotes. */
  function NatValue(s: Text): nat
    requires AllDigits(s)
  {
    if s == [] then 0 else 10 * NatValue(s[..|s| - 1]) + (s[|s| - 1] - 48)
  }

  /** Length of the longest prefix made of digits. */
  function DigitRun(s: Text): (n: nat)
    ensures n <= |s| && AllDigits(s[..n])
    ensures n < |s| ==> !IsDigit(s[n])
  {
    if s == [] || !IsDigit(s[0]) then 0 else 1 + DigitRun(s[1..])
  }

  lemma {:induction false} DigitRunExact(s: Text, rest: Text)
    requires AllDigits(s)
    requires rest == [] || !IsDigit(rest[0])
    ensures DigitRun(s + rest) == |s|
  {
    if s == [] {
      assert s + rest == rest;
    } else {
      assert (s + rest)[1..] == s[1..] + rest;
      DigitRunExact(s[1..], rest);
    }
  }

  lemma {:induction false} DigitsRoundTrip(n: nat)
    ensures NatValue(Digits(n)) == n
  {
    if n >= 10 {
      var s := Digits(n);
      assert s[..|s| - 1] == Digits(n / 10);
      DigitsRoundTrip(n / 10);
    } else {
      assert Digits(n)[..0] == [];
    }
  }

  function Pow10(n: nat): (p: nat)
    ensures p > 0
  {
    if n == 0 then 1 else 10 * Pow10(n - 1)
  }

  lemma {:induction false} DigitsLength(n: nat, k: nat)
    requires n < Pow10(k) && 0 < k
    ensures |Digits(n)| <= k
  {
    if n >= 10 {
      DigitsLength(n / 10, k - 1);
    }
  }

  // ---- strtod ---------------------------------------------------------------

  /** 10 to the power e, for any integer e. */
  function Scale(e: int): real {
    if e >= 0 then Pow10(e) as real else 1.0 / (Pow10(-e) as real)
  }

  predicate IsSign(s: Text, i: nat) {
    i < |s| && (s[i] == PLUS || s[i] == MINUS)
  }

  /** The digits as an integer, times a power of ten. */
  function Magnitude(digits: Text, e: int): real
    requires AllDigits(digits)
  {
    NatValue(digits) as real * Scale(e)
  }

  datatype Scanned = Scanned(length: nat, value: real)

  /** The exponent part at position m: its length (0 when there is none) and its value. */
  function Exponent(s: Text, m: nat): (r: (nat, int))
    requires m <= |s|
    ensures m + r.0 <= |s|
  {
    if m < |s| && (s[m] == 101 || s[m] == 69) then
      var signed := if IsSign(s, m + 1) then 1 else 0;
      var run := DigitRun(s[m + 1 + signed..]);
      if run == 0 then (0, 0)
      else
        var e: int := NatValue(s[m + 1 + signed..][..run]);
        (1 + signed + run, if signed == 1 && s[m + 1] == MINUS then -e else e)
    else (0, 0)
  }

  /** strtod behind the sign. */
  function Unsigned(a: Text): (r: Scanned)
    ensures r.length <= |a|
  {
    var whole := DigitRun(a);
    var dotted := whole < |a| && a[whole] == POINT;
    var fraction := if dotted then DigitRun(a[whole + 1..]) else 0;
    if whole + fraction == 0 then Scanned(0, 0.0)
    else
      var mantissa := a[..whole] + (if dotted then a[whole + 1..][..fraction] else []);
      assert AllDigits(mantissa);
      var m := whole + (if dotted then 1 + fraction else 0);
      var (elen, e) := Exponent(a, m);
      Scanned(m + elen, Magnitude(mantissa, e - fraction))
  }

  /** strtod on a text over the digits, signs, point and exponent letters: the length of
      the numeral it consumes (0 when there is none) and the exact decimal value. */
  function Strtod(s: Text): (r: Scanned)
    ensures r.length <= |s|
  {
    var signed := if IsSign(s, 0) then 1 else 0;
    var u := Unsigned(s[signed..]);
    if u.length == 0 then u
    else Scanned(signed + u.length, if signed == 1 && s[0] == MINUS then -u.value else u.value)
  }
}
