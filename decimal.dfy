/** The text `printf("%d", n)` produces, and the reading that recovers `n` from it. */
module Decimal {
  import opened Common

  const MINUS: byte := 45
  const ZERO: byte := 48

  predicate IsDigit(b: byte)
  {
    ZERO <= b <= ZERO + 9
  }

  predicate AllDigits(s: seq<byte>)
  {
    forall i :: 0 <= i < |s| ==> IsDigit(s[i])
  }

  /** The decimal digits of `n`, most significant first, without leading zeros. */
  function Digits(n: nat): (r: seq<byte>)
    ensures |r| >= 1 && AllDigits(r)
    ensures |r| > 1 ==> r[0] != ZERO
    decreases n
  {
    if n < 10 then [ZERO + n as byte]
    else Digits(n / 10) + [ZERO + (n % 10) as byte]
  }

  /** `%d`: a minus sign for negative values, then the digits of the magnitude. */
  function DecimalText(n: int): (r: seq<byte>)
    ensures |r| >= 1
    ensures (r[0] == MINUS) == (n < 0)
  {
    if n < 0 then [MINUS] + Digits(-n) else Digits(n)
  }

  /** The value of a digit string read left to right. */
  function DigitsValue(s: seq<byte>): nat
    requires AllDigits(s)
  {
    if s == [] then 0
    else DigitsValue(s[..|s| - 1]) * 10 + (s[|s| - 1] - ZERO) as nat
  }

  /** Text of the shape `%d` prints: an optional minus sign and at least one digit. */
  predicate WellFormed(s: seq<byte>)
  {
    if |s| >= 1 && s[0] == MINUS then |s| >= 2 && AllDigits(s[1..])
    else |s| >= 1 && AllDigits(s)
  }

  function ParseDecimal(s: seq<byte>): int
    requires WellFormed(s)
  {
    if s[0] == MINUS then -(DigitsValue(s[1..]) as int) else DigitsValue(s)
  }

  lemma {:induction false} DigitsRoundTrip(n: nat)
    ensures DigitsValue(Digits(n)) == n
    decreases n
  {
    if n >= 10 {
      var d := Digits(n);
      assert d[..|d| - 1] == Digits(n / 10);
      DigitsRoundTrip(n / 10);
    }
  }

  /** Reading back what `%d` printed gives the printed value. */
  lemma DecimalRoundTrip(n: int)
    ensures WellFormed(DecimalText(n))
    ensures ParseDecimal(DecimalText(n)) == n
  {
    if n < 0 {
      assert DecimalText(n)[1..] == Digits(-n);
      DigitsRoundTrip(-n);
    } else {
      DigitsRoundTrip(n);
    }
  }

  /** Different values print differently. */
  lemma DecimalInjective(a: int, b: int)
    requires DecimalText(a) == DecimalText(b)
    ensures a == b
  {
    DecimalRoundTrip(a);
    DecimalRoundTrip(b);
  }
}
