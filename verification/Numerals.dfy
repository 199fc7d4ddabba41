/** Numerals in a base up to sixteen, as `fmt` prints and `strconv` reads them. */
module Numerals {
  import opened Words

  type Base = b: nat | 2 <= b <= 16 witness 2

  /** A digit below sixteen, lower case. */
  function Digit(d: nat): char
    requires d < 16
  {
    if d < 10 then '0' + d as char else 'a' + (d - 10) as char
  }

  /** The value of a digit of either case. */
  function DigitValue(c: char): Option<nat> {
    if '0' <= c <= '9' then Some((c - '0') as nat)
    else if 'a' <= c <= 'z' then Some((c - 'a') as nat + 10)
    else if 'A' <= c <= 'Z' then Some((c - 'A') as nat + 10)
    else None
  }

  function Numeral(n: nat, base: Base): string {
    if n < base then [Digit(n)] else Numeral(n / base, base) + [Digit(n % base)]
  }

  function Decimal(n: nat): string {
    Numeral(n, 10)
  }

  /** The number a non-empty digit string denotes. */
  function Value(s: string, base: Base): Option<nat> {
    if s == [] then None
    else
      match DigitValue(s[|s| - 1])
      case None => None
      case Some(d) =>
        if d >= base then None
        else if |s| == 1 then Some(d)
        else
          match Value(s[..|s| - 1], base)
          case None => None
          case Some(n) => Some(n * base + d)
  }

  lemma DigitRoundTrip(d: nat)
    requires d < 16
    ensures DigitValue(Digit(d)) == Some(d)
  {
  }

  lemma ValueExtend(s: string, d: nat, base: Base)
    requires s != [] && Value(s, base).Some? && d < base
    ensures Value(s + [Digit(d)], base) == Some(Value(s, base).value * base + d)
  {
    DigitRoundTrip(d);
    var t := s + [Digit(d)];
    assert t[..|t| - 1] == s;
  }

  lemma QuotientRemainder(n: nat, base: Base)
    ensures n / base * base + n % base == n
  {
  }

  /** Reading what was printed gives the number back. */
  lemma {:induction false} NumeralRoundTrip(n: nat, base: Base)
    ensures Numeral(n, base) != [] && Value(Numeral(n, base), base) == Some(n)
  {
    if n < base {
      DigitRoundTrip(n);
    } else {
      NumeralRoundTrip(n / base, base);
      ValueExtend(Numeral(n / base, base), n % base, base);
      QuotientRemainder(n, base);
    }
  }

  predicate IsDigit(c: char, base: Base) {
    DigitValue(c).Some? && DigitValue(c).value < base
  }

  predicate AllDigits(s: string, base: Base) {
    forall i :: 0 <= i < |s| ==> IsDigit(s[i], base)
  }

  /** Only digits have a value. */
  lemma {:induction false} ValueDigits(s: string, base: Base)
    requires Value(s, base).Some?
    ensures s != [] && AllDigits(s, base)
  {
    if |s| > 1 {
      ValueDigits(s[..|s| - 1], base);
    }
  }

  lemma DigitsExtend(s: string, d: nat, base: Base)
    requires AllDigits(s, base) && d < base
    ensures AllDigits(s + [Digit(d)], base)
  {
    DigitRoundTrip(d);
  }

  lemma {:induction false} NumeralDigits(n: nat, base: Base)
    ensures AllDigits(Numeral(n, base), base)
  {
    if n < base {
      DigitRoundTrip(n);
    } else {
      NumeralDigits(n / base, base);
      DigitsExtend(Numeral(n / base, base), n % base, base);
    }
  }

  lemma DecimalInjective(a: nat, b: nat)
    requires Decimal(a) == Decimal(b)
    ensures a == b
  {
    NumeralRoundTrip(a, 10);
    NumeralRoundTrip(b, 10);
  }

  lemma DigitsStopAt(x: string, a: nat, y: string, b: nat)
    requires y != [] && !IsDigit(y[|y| - 1], 10) && x + Decimal(a) == y + Decimal(b)
    ensures |y| <= |x|
  {
    NumeralDigits(a, 10);
    var s := x + Decimal(a);
    assert forall i :: |x| <= i < |s| ==> s[i] == Decimal(a)[i - |x|];
    assert s[|y| - 1] == y[|y| - 1];
  }

  /** Two texts that end in a decimal after a non-digit end in the same decimal. */
  lemma DecimalSuffix(x: string, a: nat, y: string, b: nat)
    requires x != [] && y != [] && !IsDigit(x[|x| - 1], 10) && !IsDigit(y[|y| - 1], 10)
    requires x + Decimal(a) == y + Decimal(b)
    ensures x == y && a == b
  {
    DigitsStopAt(x, a, y, b);
    DigitsStopAt(y, b, x, a);
    var s, t := x + Decimal(a), y + Decimal(b);
    assert s[..|x|] == x && t[..|y|] == y && s[|x|..] == Decimal(a) && t[|y|..] == Decimal(b);
    DecimalInjective(a, b);
  }
}
