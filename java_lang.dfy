/**
 * The few pieces of Java semantics that the library's code relies on:
 * exceptions as values, integer division and remainder that truncate toward
 * zero, 32-bit wrap-around, strings as UTF-16 code units, and the decimal rendering that string
 * concatenation uses for an int or a long (`"" + n`).
 */
module JavaLang {

  /**
   * A Java string is a sequence of 16-bit UTF-16 code units, any value
   * allowed (a lone surrogate included); `length()`, `charAt` and
   * `substring` count and cut code units.
   */
  newtype CodeUnit = x: int | 0 <= x < 0x1_0000
  type JString = seq<CodeUnit>

  /** The unchecked exceptions the modelled code can raise. */
  datatype Exception = NullPointer | IndexOutOfBounds | Arithmetic | ClassCast

  /** The outcome of a Java expression: a value, or an exception thrown to the caller. */
  datatype Outcome<+T> = Value(value: T) | Thrown(exception: Exception)

  /** Java's `a / b`: the quotient truncated toward zero. */
  function JDiv(a: int, b: int): (q: int)
    requires b != 0
    ensures a >= 0 && b > 0 ==> q == a / b
    ensures (a >= 0) == (b > 0) || a == 0 ==> q >= 0
    ensures (q < 0 ==> (a < 0) != (b < 0))
  {
    if a >= 0 && b > 0 then DivNonNegative(a, b); a / b
    else if a >= 0 then DivNonNegative(a, -b); -(a / -b)
    else if b > 0 then DivNonNegative(-a, b); -((-a) / b)
    else DivNonNegative(-a, -b); (-a) / (-b)
  }

  lemma DivNonNegative(x: int, y: int)
    requires x >= 0 && y > 0
    ensures x / y >= 0 && (x == 0 ==> x / y == 0)
  {
  }

  /** Java's `a % b`: the remainder has the sign of the dividend. */
  function JRem(a: int, b: int): (r: int)
    requires b != 0
    ensures a == b * JDiv(a, b) + r
    ensures a >= 0 ==> 0 <= r < (if b > 0 then b else -b)
    ensures a < 0 ==> -(if b > 0 then b else -b) < r <= 0
  {
    a - b * JDiv(a, b)
  }

  /** Math.abs on an int, ignoring the overflow at Integer.MIN_VALUE. */
  function Abs(x: int): (r: nat)
    ensures r == x || r == -x
  {
    if x < 0 then -x else x
  }

  const TWO_TO_31: int := 0x8000_0000
  const TWO_TO_32: int := 0x1_0000_0000

  predicate IsInt32(x: int) { -TWO_TO_31 <= x < TWO_TO_31 }

  /** The value a Java `int` holds after an arithmetic result `x` wraps around. */
  function Wrap32(x: int): (r: int)
    ensures IsInt32(r)
    ensures (x - r) % TWO_TO_32 == 0
    ensures IsInt32(x) ==> r == x
  {
    (x + TWO_TO_31) % TWO_TO_32 - TWO_TO_31
  }

  // ---------------------------------------------------------------------
  // Decimal rendering of integers
  // ---------------------------------------------------------------------

  predicate IsDigit(c: char) { '0' <= c <= '9' }

  function DigitChar(d: int): (c: char)
    requires 0 <= d < 10
    ensures IsDigit(c) && (c as int) - ('0' as int) == d
  {
    (('0' as int) + d) as char
  }

  /** The digits of `n`, most significant first, without leading zeros. */
  function NatDigits(n: nat): (s: string)
    decreases n
  {
    if n < 10 then [DigitChar(n)] else NatDigits(n / 10) + [DigitChar(n % 10)]
  }

  /** `"" + n` in Java for an int or long `n`. */
  function Decimal(n: int): string
  {
    if n < 0 then "-" + NatDigits(-n) else NatDigits(n)
  }

  predicate AllDigits(s: string) { forall i :: 0 <= i < |s| ==> IsDigit(s[i]) }

  /** The value of a string of decimal digits: the inverse of NatDigits. */
  function DigitsValue(s: string): (v: nat)
    requires AllDigits(s)
    decreases |s|
  {
    if s == [] then 0
    else DigitsValue(s[..|s| - 1]) * 10 + ((s[|s| - 1] as int) - ('0' as int))
  }

  /** Reads back what Decimal prints; None for text Decimal never produces. */
  function ParseDecimal(s: string): (r: Option<int>)
  {
    if |s| > 1 && s[0] == '-' && AllDigits(s[1..]) && s[1] != '0' then Some(-(DigitsValue(s[1..]) as int))
    else if |s| > 0 && AllDigits(s) && (s[0] != '0' || |s| == 1) then Some(DigitsValue(s) as int)
    else None
  }

  datatype Option<+T> = None | Some(value: T)

  lemma {:induction false} NatDigitsShape(n: nat)
    ensures |NatDigits(n)| >= 1 && AllDigits(NatDigits(n))
    ensures DigitsValue(NatDigits(n)) == n
    ensures NatDigits(n)[0] == '0' <==> n == 0
    ensures n < 10 <==> |NatDigits(n)| == 1
    decreases n
  {
    if n >= 10 {
      NatDigitsShape(n / 10);
      var s := NatDigits(n);
      assert s[..|s| - 1] == NatDigits(n / 10);
    }
  }

  /** Decimal rendering round-trips through ParseDecimal. */
  lemma DecimalRoundTrip(n: int)
    ensures ParseDecimal(Decimal(n)) == Some(n)
  {
    if n < 0 {
      NatDigitsShape(-n);
      assert Decimal(n)[1..] == NatDigits(-n);
    } else {
      NatDigitsShape(n);
    }
  }

  /** Distinct integers print differently. */
  lemma DecimalInjective(m: int, n: int)
    requires Decimal(m) == Decimal(n)
    ensures m == n
  {
    DecimalRoundTrip(m);
    DecimalRoundTrip(n);
  }

  /** A non-negative number prints as digits only; a negative one as '-' and digits. */
  lemma DecimalShape(n: int)
    ensures |Decimal(n)| >= 1
    ensures n >= 0 <==> AllDigits(Decimal(n))
    ensures n < 0 ==> Decimal(n)[0] == '-' && AllDigits(Decimal(n)[1..])
  {
    if n < 0 {
      NatDigitsShape(-n);
      assert Decimal(n)[1..] == NatDigits(-n);
      assert !IsDigit(Decimal(n)[0]);
    } else {
      NatDigitsShape(n);
    }
  }
}
