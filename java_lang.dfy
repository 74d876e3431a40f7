/**
 * The few pieces of the Java platform that the duck client's core leans on:
 * 32-bit `int`, `null` (as Option), exceptions (as Result), decimal
 * formatting of an `int` with `%d`, and `String.hashCode`.
 */
module JavaLang {

  /** Java's `int`. */
  newtype int32 = x: int | -0x8000_0000 <= x < 0x8000_0000

  /** A Java reference that may be `null`. */
  datatype Option<+T> = None | Some(value: T)

  /** The normal result of a call, or the exception it throws. */
  datatype Result<+T, +E> = Success(value: T) | Failure(error: E)

  predicate IsDigit(c: char) {
    '0' <= c <= '9'
  }

  predicate AllDigits(s: string) {
    forall i :: 0 <= i < |s| ==> IsDigit(s[i])
  }

  function DigitChar(d: nat): (c: char)
    requires d < 10
    ensures IsDigit(c) && c as int - '0' as int == d
  {
    ('0' as int + d) as char
  }

  function DigitValue(c: char): (d: nat)
    requires IsDigit(c)
    ensures d < 10 && DigitChar(d) == c
  {
    c as int - '0' as int
  }

  /** The digits of `n` in base ten, most significant first, no leading zero. */
  function NaturalText(n: nat): (s: string)
    ensures |s| > 0 && AllDigits(s)
    ensures s[0] == '0' ==> n == 0 && |s| == 1
    decreases n
  {
    if n < 10 then [DigitChar(n)] else NaturalText(n / 10) + [DigitChar(n % 10)]
  }

  /** `String.format("%d", n)` (and `Integer.toString(n)`): a minus sign for negatives, then the digits. */
  function DecimalText(n: int): (s: string)
    ensures |s| > 0
    ensures s[0] == '-' <==> n < 0
    ensures forall i :: 0 <= i < |s| ==> IsDigit(s[i]) || (i == 0 && s[i] == '-')
    ensures n >= 0 ==> (s[0] == '0' ==> n == 0 && |s| == 1)
    ensures n < 0 ==> |s| > 1 && s[1] != '0'
  {
    if n < 0 then ['-'] + NaturalText(-n) else NaturalText(n)
  }

  /** The value of a string of decimal digits (`Integer.parseInt` without a sign). */
  function ParseNatural(s: string): nat
    requires AllDigits(s)
  {
    if s == [] then 0 else 10 * ParseNatural(s[..|s| - 1]) + DigitValue(s[|s| - 1])
  }

  /** `Integer.parseInt` on unbounded integers: an optional minus sign and at least one digit. */
  function ParseDecimal(s: string): Option<int> {
    if |s| > 1 && s[0] == '-' && AllDigits(s[1..]) then Some(-(ParseNatural(s[1..]) as int))
    else if |s| > 0 && AllDigits(s) then Some(ParseNatural(s))
    else None
  }

  lemma {:induction false} NaturalTextRoundTrip(n: nat)
    ensures ParseNatural(NaturalText(n)) == n
    decreases n
  {
    var s := NaturalText(n);
    if n >= 10 {
      NaturalTextRoundTrip(n / 10);
      assert s[..|s| - 1] == NaturalText(n / 10);
    }
  }

  /** Reading back the text written by `%d` gives the number that was written. */
  lemma DecimalTextRoundTrip(n: int)
    ensures ParseDecimal(DecimalText(n)) == Some(n)
  {
    var s := DecimalText(n);
    if n < 0 {
      assert s[1..] == NaturalText(-n);
      NaturalTextRoundTrip(-n);
    } else {
      NaturalTextRoundTrip(n);
    }
  }

  /** Different numbers are written as different texts. */
  lemma DecimalTextInjective(m: int, n: int)
    requires DecimalText(m) == DecimalText(n)
    ensures m == n
  {
    DecimalTextRoundTrip(m);
    DecimalTextRoundTrip(n);
  }

  /** Java's two's-complement narrowing of an integer to `int`. */
  function WrapInt32(x: int): (r: int32)
    ensures (r as int - x) % TwoTo32 == 0
    ensures -0x8000_0000 <= x < 0x8000_0000 ==> r as int == x
  {
    ((x + 0x8000_0000) % 0x1_0000_0000 - 0x8000_0000) as int32
  }

  const TwoTo32 := 0x1_0000_0000

  function Pow31(k: nat): int {
    if k == 0 then 1 else 31 * Pow31(k - 1)
  }

  /** The documented value of `String.hashCode`: `s[0]*31^(n-1) + s[1]*31^(n-2) + ... + s[n-1]`, without overflow. */
  function HashPolynomial(s: string): int {
    if s == [] then 0 else s[0] as int * Pow31(|s| - 1) + HashPolynomial(s[1..])
  }

  lemma {:induction false} HashPolynomialAppend(s: string, c: char)
    ensures HashPolynomial(s + [c]) == 31 * HashPolynomial(s) + c as int
    decreases |s|
  {
    if s == [] {
      assert [c][1..] == [];
    } else {
      assert (s + [c])[1..] == s[1..] + [c];
      HashPolynomialAppend(s[1..], c);
      var x, p := s[0] as int, Pow31(|s| - 1);
      assert Pow31(|s|) == 31 * p;
      assert x * (31 * p) == 31 * (x * p);
    }
  }

  lemma CongruenceStep(r: int, h: int, p: int, c: int)
    requires (r - (31 * h + c)) % TwoTo32 == 0
    requires (h - p) % TwoTo32 == 0
    ensures (r - (31 * p + c)) % TwoTo32 == 0
  {
    var k1, k2 := (r - (31 * h + c)) / TwoTo32, (h - p) / TwoTo32;
    assert r - (31 * p + c) == (r - (31 * h + c)) + 31 * (h - p);
    assert r - (31 * p + c) == TwoTo32 * (k1 + 31 * k2);
  }

  /**
   * `String.hashCode`: `h = 31 * h + c` over the characters, in `int`
   * arithmetic; it agrees with the documented polynomial up to 32-bit
   * wrap-around. (Characters here are Unicode scalar values, not UTF-16
   * units.)
   */
  function StringHashCode(s: string): (h: int32)
    ensures (h as int - HashPolynomial(s)) % TwoTo32 == 0
  {
    if s == [] then 0
    else
      var prefix, c := s[..|s| - 1], s[|s| - 1];
      var h := StringHashCode(prefix);
      var r := WrapInt32(31 * h as int + c as int);
      assert s == prefix + [c];
      HashPolynomialAppend(prefix, c);
      CongruenceStep(r as int, h as int, HashPolynomial(prefix), c as int);
      r
  }
}
