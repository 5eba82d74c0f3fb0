/** Decimal numerals: printing without leading zeros, parsing, and how the two undo each other. */
module DecimalText {
  predicate IsDigit(c: char) {
    '0' <= c <= '9'
  }

  predicate IsDigits(s: string) {
    forall i :: 0 <= i < |s| ==> IsDigit(s[i])
  }

  function DigitValue(c: char): (v: int)
    requires IsDigit(c)
    ensures 0 <= v < 10
  {
    c as int - '0' as int
  }

  function DigitChar(v: int): (c: char)
    requires 0 <= v < 10
    ensures IsDigit(c) && DigitValue(c) == v
  {
    ('0' as int + v) as char
  }

  /** The number a digit string denotes; "" denotes 0. */
  function Value(s: string): nat
    requires IsDigits(s)
  {
    if |s| == 0 then 0 else 10 * Value(s[..|s| - 1]) + DigitValue(s[|s| - 1])
  }

  function NatText(n: nat): (s: string)
    ensures |s| > 0 && IsDigits(s)
    ensures n > 0 ==> s[0] != '0'
    ensures n == 0 ==> s == "0"
    decreases n
  {
    if n < 10 then [DigitChar(n)] else NatText(n / 10) + [DigitChar(n % 10)]
  }

  function IntText(n: int): string {
    if n < 0 then "-" + NatText(-n) else NatText(n)
  }

  lemma {:induction false} NatTextDenotes(n: nat)
    ensures Value(NatText(n)) == n
    decreases n
  {
    var s := NatText(n);
    if n < 10 {
      assert s[..0] == "";
    } else {
      NatTextDenotes(n / 10);
      assert s[..|s| - 1] == NatText(n / 10);
    }
  }

  /** Numerals are decimal: the ten digits, each place worth ten of the next. */
  lemma DigitsAreDecimal(s: string, v: nat)
    requires IsDigits(s) && v < 10
    ensures DigitChar(v) == "0123456789"[v]
    ensures Value(s + [DigitChar(v)]) == 10 * Value(s) + v && Value("") == 0
  {
    assert (s + [DigitChar(v)])[..|s|] == s;
  }

  /** A numeral without a leading zero is exactly what printing its value gives. */
  lemma {:induction false} NumeralIsPrinted(s: string)
    requires |s| > 0 && IsDigits(s) && s[0] != '0'
    ensures Value(s) > 0 && NatText(Value(s)) == s
    decreases |s|
  {
    var init, last := s[..|s| - 1], DigitValue(s[|s| - 1]);
    if |s| == 1 {
      assert init == "";
    } else {
      NumeralIsPrinted(init);
      assert Value(s) / 10 == Value(init) && Value(s) % 10 == last;
    }
  }

  lemma IntTextIsInjective(m: int, n: int)
    requires IntText(m) == IntText(n)
    ensures m == n
  {
    NatTextDenotes(if m < 0 then -m else m);
    NatTextDenotes(if n < 0 then -n else n);
    if m < 0 {
      assert IntText(m)[1..] == NatText(-m);
      assert IntText(n)[0] == '-';
      assert IntText(n)[1..] == NatText(-n);
    } else {
      assert IntText(m)[0] != '-';
    }
  }
}
