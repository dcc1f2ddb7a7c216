/** Decimal numerals: the digit class of `\d`, `std::stoi` on digit strings, and
    `std::setw(w) << std::setfill('0') << n` on an `int`. */
module Decimal {
  import opened DatetimeErrors

  predicate IsDigit(c: char) {
    '0' <= c <= '9'
  }

  predicate AllDigits(s: string) {
    forall i :: 0 <= i < |s| ==> IsDigit(s[i])
  }

  predicate NoDigits(s: string) {
    forall i :: 0 <= i < |s| ==> !IsDigit(s[i])
  }

  function DigitChar(d: int): (c: char)
    requires 0 <= d < 10
    ensures IsDigit(c)
  {
    ('0' as int + d) as char
  }

  function DigitValue(c: char): nat
    requires IsDigit(c)
  {
    c as int - '0' as int
  }

  /** The value of a decimal numeral, most significant digit first. */
  function DigitsToNat(s: string): nat
    requires AllDigits(s)
    decreases |s|
  {
    if |s| == 0 then 0 else 10 * DigitsToNat(s[..|s| - 1]) + DigitValue(s[|s| - 1])
  }

  /** The shortest numeral of `n`, as an output stream writes it: it reads back as
      `n` and has no leading zero. */
  function NatToString(n: nat): (s: string)
    ensures |s| > 0 && AllDigits(s)
    ensures DigitsToNat(s) == n
    ensures |s| > 1 ==> s[0] != '0'
    decreases n
  {
    if n < 10 then
      [DigitChar(n)]
    else
      var prefix := NatToString(n / 10);
      var s := prefix + [DigitChar(n % 10)];
      assert s[..|s| - 1] == prefix;
      s
  }

  /** An `int` written to a stream: a minus sign, then the magnitude. */
  function IntToString(n: int): string {
    if n < 0 then "-" + NatToString(-n) else NatToString(n)
  }

  function Zeros(n: nat): (z: string)
    ensures |z| == n && AllDigits(z)
    ensures forall i :: 0 <= i < n ==> z[i] == '0'
  {
    if n == 0 then "" else "0" + Zeros(n - 1)
  }

  /** `std::setw(width) << std::right << std::setfill('0') << n`: zeros are put in
      front of the whole numeral, sign included, until it is `width` long; a
      longer numeral is never cut. */
  function ZeroPadded(n: int, width: nat): (s: string)
    ensures |s| >= width && |s| >= |IntToString(n)|
    ensures |s| == width || s == IntToString(n)
    ensures n >= 0 ==> |s| > 0 && AllDigits(s) && DigitsToNat(s) == n
  {
    var text := IntToString(n);
    if |text| < width then
      var s := Zeros(width - |text|) + text;
      if n >= 0 then LeadingZeros(width - |text|, text); s else s
    else
      text
  }

  /** The padded text is exactly as long as the wider of the numeral and the
      width, and is the numeral behind zeros (before a minus sign, too). */
  lemma ZeroPaddedShape(n: int, width: nat)
    ensures var s, text := ZeroPadded(n, width), IntToString(n);
      && |s| == (if |text| < width then width else |text|)
      && s == Zeros(|s| - |text|) + text
  {
    var text := IntToString(n);
    if |text| >= width {
      assert text == Zeros(0) + text;
    }
  }

  /** A four-digit numeral is its first two digits in hundreds plus its last two. */
  lemma FourDigitSplit(s: string)
    requires |s| == 4 && AllDigits(s)
    ensures DigitsToNat(s) == 100 * DigitsToNat(s[..2]) + DigitsToNat(s[2..])
    ensures DigitsToNat(s[2..]) < 100
  {
    var t := s[2..];
    assert s[..3][..2] == s[..2] && s[..3][2] == s[2];
    assert DigitsToNat(s) == 10 * DigitsToNat(s[..3]) + DigitValue(s[3]);
    assert DigitsToNat(s[..3]) == 10 * DigitsToNat(s[..2]) + DigitValue(s[2]);
    assert t[..1][..0] == [] && t[..1][0] == s[2] && t[1] == s[3];
    assert DigitsToNat(t[..1]) == DigitValue(s[2]);
    assert DigitsToNat(t) == 10 * DigitValue(s[2]) + DigitValue(s[3]);
  }

  /** A number of at most four digits, padded to four, is a four-digit numeral. */
  lemma PaddedToFour(n: int)
    requires 0 <= n <= 9999
    ensures |ZeroPadded(n, 4)| == 4 && AllDigits(ZeroPadded(n, 4))
  {
    ZeroPaddedShape(n, 4);
    assert Pow10(4) == 10000;
    NatToStringLength(n, 4);
    assert IntToString(n) == NatToString(n);
  }

  /** A year of at most four digits, padded to four, ends in two digits that
      read as the year modulo 100. */
  lemma PaddedYearSuffix(year: int)
    requires 0 <= year <= 9999
    ensures |ZeroPadded(year, 4)| == 4
    ensures AllDigits(ZeroPadded(year, 4)[2..]) && DigitsToNat(ZeroPadded(year, 4)[2..]) == year % 100
  {
    var s := ZeroPadded(year, 4);
    PaddedToFour(year);
    FourDigitSplit(s);
    ModOfSplit(year, DigitsToNat(s[..2]), DigitsToNat(s[2..]));
  }

  lemma ModOfSplit(n: int, a: int, b: int)
    requires n == 100 * a + b && 0 <= b < 100
    ensures n % 100 == b
  {
  }

  /** Helper: ten to the power `k`, used to bound the length of numerals. */
  function Pow10(k: nat): (p: nat)
    ensures p >= 1
  {
    if k == 0 then 1 else 10 * Pow10(k - 1)
  }

  /** A number below 10^k is written with at most k digits. */
  lemma {:induction false} NatToStringLength(n: nat, k: nat)
    requires 1 <= k && n < Pow10(k)
    ensures |NatToString(n)| <= k
    decreases n
  {
    if n >= 10 {
      assert Pow10(1) == 10;
      NatToStringLength(n / 10, k - 1);
    }
  }

  /** Zeros in front of a numeral do not change its value. */
  lemma {:induction false} LeadingZeros(k: nat, s: string)
    requires AllDigits(s)
    ensures AllDigits(Zeros(k) + s)
    ensures DigitsToNat(Zeros(k) + s) == DigitsToNat(s)
    decreases k + |s|
  {
    var t := Zeros(k) + s;
    if |s| == 0 {
      assert t == Zeros(k);
      AllZerosIsZero(k);
    } else {
      LeadingZeros(k, s[..|s| - 1]);
      assert t[..|t| - 1] == Zeros(k) + s[..|s| - 1];
      assert t[|t| - 1] == s[|s| - 1];
    }
  }

  lemma {:induction false} AllZerosIsZero(k: nat)
    ensures DigitsToNat(Zeros(k)) == 0
  {
    if k > 0 {
      var z := Zeros(k);
      assert z[..k - 1] == Zeros(k - 1);
      AllZerosIsZero(k - 1);
    }
  }

  /** `my_stoi`: a token holding any non-digit is rejected; otherwise its decimal
      value. The empty token is rejected too (`std::stoi` throws on it). */
  function StringToInt(s: string): (r: Result<nat>)
    ensures r.Success? <==> |s| > 0 && AllDigits(s)
    ensures r.Success? ==> r.value == DigitsToNat(s)
    ensures r.Failure? && !AllDigits(s) ==> r.error == InvalidCharacters(s)
  {
    if !AllDigits(s) then Failure(InvalidCharacters(s))
    else if |s| == 0 then Failure(EmptyNumber)
    else Success(DigitsToNat(s))
  }
}
