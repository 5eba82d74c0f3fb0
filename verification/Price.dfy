/**
 * Decimal amounts: canonicalPrice of src/types/settle.ts and the scaled comparison of
 * src/lib/tank-lock-evidence.ts.  `None` stands for a thrown error.
 */
module Price {
  import opened ByteStrings
  import opened DecimalText
  import opened TextSearch

  datatype PriceTerm = PriceTerm(amount: string, asset: string, decimals: Option<int>)

  // ------------------------------------------------------------------- numerals

  /** A sign, integer digits and fraction digits; "" for no fraction. */
  datatype Numeral = Numeral(negative: bool, whole: string, fraction: string)

  predicate WellFormed(n: Numeral) {
    |n.whole| > 0 && IsDigits(n.whole) && IsDigits(n.fraction)
  }

  function Pow10(n: nat): (p: nat)
    ensures p > 0
  {
    if n == 0 then 1 else 10 * Pow10(n - 1)
  }

  function Magnitude(n: Numeral): nat
    requires WellFormed(n)
  {
    Value(n.whole + n.fraction)
  }

  function Signed(negative: bool, v: int): int {
    if negative then -v else v
  }

  /** The rational a numeral denotes. */
  function Rational(n: Numeral): real
    requires WellFormed(n)
  {
    Signed(n.negative, Magnitude(n)) as real / Pow10(|n.fraction|) as real
  }

  function PrintUnsigned(n: Numeral): string {
    if |n.fraction| > 0 then n.whole + "." + n.fraction else n.whole
  }

  function Print(n: Numeral): string {
    if n.negative then "-" + PrintUnsigned(n) else PrintUnsigned(n)
  }

  // -------------------------------------------------------------------- parsing

  /** digits, or digits "." digits */
  function ParseUnsigned(negative: bool, body: string): Option<Numeral> {
    var dot := IndexOf(body, '.');
    if dot == |body| then
      if |body| > 0 && IsDigits(body) then Some(Numeral(negative, body, "")) else None
    else
      var whole, fraction := body[..dot], body[dot + 1..];
      if |whole| > 0 && IsDigits(whole) && |fraction| > 0 && IsDigits(fraction) then
        Some(Numeral(negative, whole, fraction))
      else None
  }

  /** /^[+-]?\d+(\.\d+)?$/ */
  function Parse(raw: string): (n: Option<Numeral>)
    ensures n.Some? ==> WellFormed(n.value)
  {
    if |raw| > 0 && raw[0] == '+' then ParseUnsigned(false, raw[1..])
    else if |raw| > 0 && raw[0] == '-' then ParseUnsigned(true, raw[1..])
    else ParseUnsigned(false, raw)
  }

  lemma DigitsHaveNoDot(s: string)
    requires IsDigits(s)
    ensures '.' !in s
  {
  }

  lemma ParseUndoesUnsignedPrint(n: Numeral)
    requires WellFormed(n)
    ensures ParseUnsigned(n.negative, PrintUnsigned(n)) == Some(n)
    ensures |PrintUnsigned(n)| > 0 && PrintUnsigned(n)[0] == n.whole[0]
  {
    var body := PrintUnsigned(n);
    DigitsHaveNoDot(n.whole);
    assert body[..|n.whole|] == n.whole;
    IndexOfIsFirst(body, '.', |n.whole|);
    if |n.fraction| > 0 {
      assert body[|n.whole| + 1..] == n.fraction;
    }
  }

  lemma ParseUndoesPrint(n: Numeral)
    requires WellFormed(n)
    ensures Parse(Print(n)) == Some(n)
    ensures |Print(n)| > 0 && Print(n)[0] == if n.negative then '-' else n.whole[0]
  {
    var body := PrintUnsigned(n);
    ParseUndoesUnsignedPrint(n);
    assert IsDigit(body[0]);
    assert ("-" + body)[1..] == body;
  }

  // ------------------------------------------------------------ canonicalisation

  function StripLeadingZeros(s: string): (r: string)
    requires |s| > 0 && IsDigits(s)
    ensures |r| > 0 && IsDigits(r)
    ensures |r| == 1 || r[0] != '0'
  {
    if |s| > 1 && s[0] == '0' then StripLeadingZeros(s[1..]) else s
  }

  function StripTrailingZeros(s: string): (r: string)
    requires IsDigits(s)
    ensures IsDigits(r) && |r| <= |s|
    ensures |r| > 0 ==> r[|r| - 1] != '0'
  {
    if |s| > 0 && s[|s| - 1] == '0' then StripTrailingZeros(s[..|s| - 1]) else s
  }

  function Zeros(n: nat): (r: string)
    ensures |r| == n && IsDigits(r)
  {
    seq(n, _ => '0')
  }

  function PadEnd(s: string, length: nat): string {
    if |s| >= length then s else s + Zeros(length - |s|)
  }

  /** JavaScript white space, as String.prototype.trim removes it. */
  predicate IsSpace(c: char) {
    c in {'\t', '\n', '\U{0b}', '\U{0c}', '\r', ' ', '\U{a0}', '\U{1680}', '\U{2028}', '\U{2029}', '\U{202f}',
          '\U{205f}', '\U{3000}', '\U{feff}'} || '\U{2000}' <= c <= '\U{200a}'
  }

  function Trim(s: string): string {
    if |s| > 0 && IsSpace(s[0]) then Trim(s[1..])
    else if |s| > 0 && IsSpace(s[|s| - 1]) then Trim(s[..|s| - 1])
    else s
  }

  predicate AllZeros(s: string) {
    forall i :: 0 <= i < |s| ==> s[i] == '0'
  }

  /** /^0(\.0*)?$/ on an unsigned result */
  predicate IsZeroText(n: Numeral) {
    n.whole == "0" && AllZeros(n.fraction)
  }

  function Canonical(n: Numeral, decimals: Option<int>): Option<Numeral>
    requires WellFormed(n)
  {
    var whole := StripLeadingZeros(n.whole);
    match decimals
    case Some(d) =>
      if d < 0 || |n.fraction| > d then None
      else
        var padded := Numeral(false, whole, PadEnd(n.fraction, d));
        Some(padded.(negative := n.negative && !IsZeroText(padded)))
    case None =>
      var stripped := Numeral(false, whole, StripTrailingZeros(n.fraction));
      Some(stripped.(negative := n.negative && !IsZeroText(stripped)))
  }

  function CanonicalNumeral(term: PriceTerm): Option<Numeral> {
    match Parse(Trim(term.amount))
    case None => None
    case Some(n) => Canonical(n, term.decimals)
  }

  function CanonicalPrice(term: PriceTerm): Option<string> {
    match CanonicalNumeral(term)
    case None => None
    case Some(n) => Some(Print(n))
  }

  lemma Regroup(x: int, p: int, y: int, d: int)
    ensures 10 * (x * p + y) + d == x * (10 * p) + (10 * y + d)
  {
  }

  lemma ValueSnoc(s: string, c: char)
    requires IsDigits(s) && IsDigit(c)
    ensures IsDigits(s + [c]) && Value(s + [c]) == 10 * Value(s) + DigitValue(c)
  {
    assert (s + [c])[..|s|] == s;
  }

  lemma {:induction false} ValueOfConcat(a: string, b: string)
    requires IsDigits(a) && IsDigits(b)
    ensures IsDigits(a + b) && Value(a + b) == Value(a) * Pow10(|b|) + Value(b)
    decreases |b|
  {
    if |b| == 0 {
      assert a + b == a;
    } else {
      var init, last := b[..|b| - 1], b[|b| - 1];
      ValueOfConcat(a, init);
      ValueSnoc(a + init, last);
      ValueSnoc(init, last);
      assert init + [last] == b && a + init + [last] == a + b;
      Regroup(Value(a), Pow10(|init|), Value(init), DigitValue(last));
    }
  }

  lemma {:induction false} ValueOfZeros(n: nat)
    ensures Value(Zeros(n)) == 0
  {
    if n > 0 {
      ValueOfZeros(n - 1);
      assert Zeros(n)[..n - 1] == Zeros(n - 1);
    }
  }

  lemma {:induction false} LeadingZerosDoNotCount(s: string)
    requires |s| > 0 && IsDigits(s)
    ensures Value(StripLeadingZeros(s)) == Value(s)
  {
    if |s| > 1 && s[0] == '0' {
      LeadingZerosDoNotCount(s[1..]);
      ValueOfConcat(s[..1], s[1..]);
      assert s == s[..1] + s[1..];
      assert s[..1][..0] == "";
      assert Value(s[..1]) == 0;
    }
  }

  lemma {:induction false} TrailingZerosSplit(s: string)
    requires IsDigits(s)
    ensures s == StripTrailingZeros(s) + Zeros(|s| - |StripTrailingZeros(s)|)
  {
    if |s| > 0 && s[|s| - 1] == '0' {
      TrailingZerosSplit(s[..|s| - 1]);
    }
  }

  lemma {:induction false} Pow10Adds(m: nat, n: nat)
    ensures Pow10(m + n) == Pow10(m) * Pow10(n)
  {
    if n > 0 {
      Pow10Adds(m, n - 1);
      assert Pow10(m + n) == 10 * (Pow10(m) * Pow10(n - 1));
    }
  }

  lemma QuotientCancels(v: real, p: real, q: real)
    requires p > 0.0 && q > 0.0
    ensures p * q > 0.0 && (v * q) / (p * q) == v / p
  {
    var x := v / p;
    assert x * p == v;
    assert x * (p * q) == (x * p) * q;
  }

  lemma ProductAsReal(a: int, b: int)
    ensures (a * b) as real == a as real * b as real
  {
  }

  lemma IntQuotientCancels(v: int, p: nat, q: nat)
    requires p > 0 && q > 0
    ensures p * q > 0 && (v * q) as real / (p * q) as real == v as real / p as real
  {
    ProductAsReal(v, q);
    ProductAsReal(p, q);
    QuotientCancels(v as real, p as real, q as real);
  }

  /** Scaling numerator and denominator by one power of ten. */
  lemma ScaledQuotient(v: int, k: nat, f: nat)
    ensures (v * Pow10(k)) as real / Pow10(f + k) as real == v as real / Pow10(f) as real
  {
    Pow10Adds(f, k);
    IntQuotientCancels(v, Pow10(f), Pow10(k));
  }

  lemma PaddedMagnitude(n: Numeral, k: nat)
    requires WellFormed(n)
    ensures WellFormed(n.(fraction := n.fraction + Zeros(k)))
    ensures Magnitude(n.(fraction := n.fraction + Zeros(k))) == Magnitude(n) * Pow10(k)
  {
    ValueOfConcat(n.whole + n.fraction, Zeros(k));
    ValueOfZeros(k);
    assert n.whole + (n.fraction + Zeros(k)) == n.whole + n.fraction + Zeros(k);
  }

  lemma SignedScales(negative: bool, v: int, p: int)
    ensures Signed(negative, v * p) == Signed(negative, v) * p
  {
  }

  /** Padding the fraction with zeros does not change what a numeral denotes. */
  lemma PaddingKeepsRational(n: Numeral, k: nat)
    requires WellFormed(n)
    ensures WellFormed(n.(fraction := n.fraction + Zeros(k)))
    ensures Rational(n.(fraction := n.fraction + Zeros(k))) == Rational(n)
  {
    PaddedMagnitude(n, k);
    SignedScales(n.negative, Magnitude(n), Pow10(k));
    ScaledQuotient(Signed(n.negative, Magnitude(n)), k, |n.fraction|);
  }

  lemma LeadingZerosKeepRational(n: Numeral)
    requires WellFormed(n)
    ensures Rational(n.(whole := StripLeadingZeros(n.whole))) == Rational(n)
  {
    LeadingZerosDoNotCount(n.whole);
    ValueOfConcat(n.whole, n.fraction);
    ValueOfConcat(StripLeadingZeros(n.whole), n.fraction);
  }

  lemma {:induction false} AllZerosHaveNoValue(s: string)
    requires IsDigits(s)
    ensures AllZeros(s) <==> Value(s) == 0
  {
    if |s| > 0 {
      AllZerosHaveNoValue(s[..|s| - 1]);
      assert AllZeros(s) <==> AllZeros(s[..|s| - 1]) && s[|s| - 1] == '0';
    }
  }

  /** A canonical whole part is zero only as "0". */
  lemma ZeroTextIsZero(n: Numeral)
    requires WellFormed(n) && (|n.whole| == 1 || n.whole[0] != '0')
    ensures IsZeroText(n) <==> Magnitude(n) == 0
  {
    AllZerosHaveNoValue(n.whole + n.fraction);
    if AllZeros(n.whole + n.fraction) {
      assert (n.whole + n.fraction)[0] == '0' == n.whole[0];
      assert n.whole == "0";
      assert forall i :: 0 <= i < |n.fraction| ==> (n.whole + n.fraction)[|n.whole| + i] == n.fraction[i];
    }
  }

  lemma SignOfZero(n: Numeral, negative: bool)
    requires WellFormed(n) && (|n.whole| == 1 || n.whole[0] != '0')
    ensures Rational(n.(negative := negative && !IsZeroText(n))) == Rational(n.(negative := negative))
  {
    ZeroTextIsZero(n);
  }

  /** Canonicalising a numeral never changes what it denotes. */
  lemma CanonicalKeepsRational(n: Numeral, decimals: Option<int>)
    requires WellFormed(n) && Canonical(n, decimals).Some?
    ensures WellFormed(Canonical(n, decimals).value)
    ensures Rational(Canonical(n, decimals).value) == Rational(n)
  {
    var bare := n.(whole := StripLeadingZeros(n.whole));
    LeadingZerosKeepRational(n);
    match decimals
    case Some(d) =>
      var padded := Numeral(false, bare.whole, PadEnd(n.fraction, d));
      if |n.fraction| < d {
        PaddingKeepsRational(bare, d - |n.fraction|);
      }
      SignOfZero(padded, n.negative);
      assert padded.(negative := n.negative).fraction == PadEnd(n.fraction, d);
    case None =>
      var fraction := StripTrailingZeros(n.fraction);
      TrailingZerosSplit(n.fraction);
      PaddingKeepsRational(bare.(fraction := fraction), |n.fraction| - |fraction|);
      SignOfZero(Numeral(false, bare.whole, fraction), n.negative);
  }

  // ------------------------------------------------------------------ comparison

  /** A decimal string with an optional minus, as canonicalPrice returns it. */
  predicate IsDecimal(s: string) {
    Parse(s).Some? && s[0] != '+'
  }

  function FractionLength(s: string): nat {
    var i := IndexOf(s, '.');
    if i == |s| then 0 else |s| - i - 1
  }

  /** Integer and fraction digits, the fraction padded with zeros to the scale. */
  function ScaledDigits(body: string, scale: nat): string {
    var dot := IndexOf(body, '.');
    var whole := if dot == |body| then body else body[..dot];
    var fraction := if dot == |body| then "" else body[dot + 1..];
    whole + PadEnd(fraction, scale)
  }

  function ToScaled(s: string, scale: nat): Option<int> {
    var negative := |s| > 0 && s[0] == '-';
    var digits := ScaledDigits(if negative then s[1..] else s, scale);
    if IsDigits(digits) then Some(Signed(negative, Value(digits))) else None
  }

  function ScaledBigInts(a: string, b: string): Option<(int, int)> {
    var scale := if FractionLength(a) >= FractionLength(b) then FractionLength(a) else FractionLength(b);
    match (ToScaled(a, scale), ToScaled(b, scale))
    case (Some(x), Some(y)) => Some((x, y))
    case _ => None
  }

  lemma {:induction false} IndexOfSkipsFirst(s: string, c: char)
    requires |s| > 0 && s[0] != c
    ensures IndexOf(s, c) == IndexOf(s[1..], c) + 1
  {
  }

  /** The same rational with exactly `scale` fraction digits. */
  function Padded(n: Numeral, scale: nat): (p: Numeral)
    requires WellFormed(n) && |n.fraction| <= scale
    ensures WellFormed(p) && |p.fraction| == scale && p.negative == n.negative
  {
    n.(fraction := n.fraction + Zeros(scale - |n.fraction|))
  }

  lemma UnsignedShape(negative: bool, body: string, scale: nat)
    requires ParseUnsigned(negative, body).Some? && scale >= FractionLength(body)
    ensures var n := ParseUnsigned(negative, body).value;
      && WellFormed(n) && FractionLength(body) == |n.fraction| && n.negative == negative
      && ScaledDigits(body, scale) == Padded(n, scale).whole + Padded(n, scale).fraction
      && IsDigits(ScaledDigits(body, scale))
  {
    var n := ParseUnsigned(negative, body).value;
    assert PadEnd(n.fraction, scale) == n.fraction + Zeros(scale - |n.fraction|);
  }

  lemma SignedFractionLength(s: string)
    requires |s| > 0 && s[0] == '-'
    ensures FractionLength(s) == FractionLength(s[1..])
  {
    IndexOfSkipsFirst(s, '.');
  }

  lemma DecimalFractionLength(s: string)
    requires IsDecimal(s)
    ensures FractionLength(s) == |Parse(s).value.fraction|
  {
    if s[0] == '-' {
      SignedFractionLength(s);
      UnsignedShape(true, s[1..], FractionLength(s));
    } else {
      UnsignedShape(false, s, FractionLength(s));
    }
  }

  /** Both readings of a decimal agree: the scaled integer is the parsed numeral padded to the scale. */
  lemma ScaledIsPadded(s: string, scale: nat)
    requires IsDecimal(s) && scale >= |Parse(s).value.fraction|
    ensures var n := Parse(s).value; ToScaled(s, scale) == Some(Signed(n.negative, Magnitude(Padded(n, scale))))
  {
    DecimalFractionLength(s);
    if s[0] == '-' {
      SignedFractionLength(s);
      UnsignedShape(true, s[1..], scale);
    } else {
      UnsignedShape(false, s, scale);
    }
  }

  lemma QuotientTimes(x: real, p: real)
    requires p > 0.0
    ensures x / p * p == x
  {
  }

  /** A rational times its denominator is its numerator. */
  lemma RationalTimesScale(n: Numeral, numerator: int, rational: real, p: real)
    requires WellFormed(n) && p == Pow10(|n.fraction|) as real
    requires numerator == Signed(n.negative, Magnitude(n)) && rational == Rational(n)
    ensures numerator as real == rational * p
  {
    QuotientTimes(numerator as real, p);
  }

  lemma PaddedTimesScale(n: Numeral, scale: nat, numerator: int, rational: real, p: real)
    requires WellFormed(n) && |n.fraction| <= scale
    requires numerator == Signed(n.negative, Magnitude(Padded(n, scale))) && rational == Rational(n)
    requires p == Pow10(scale) as real
    ensures numerator as real == rational * p
  {
    PaddingKeepsRational(n, scale - |n.fraction|);
    RationalTimesScale(Padded(n, scale), numerator, rational, p);
  }

  lemma OrderScales(x: real, y: real, p: real)
    requires p > 0.0
    ensures x * p <= y * p <==> x <= y
  {
    if x <= y {
      assert (y - x) * p >= 0.0;
    } else {
      assert (x - y) * p > 0.0;
    }
  }

  lemma CompareScaled(x: real, y: real, p: real, i: int, j: int)
    requires p > 0.0 && i as real == x * p && j as real == y * p
    ensures i <= j <==> x <= y
    ensures i == j <==> x == y
  {
    OrderScales(x, y, p);
    OrderScales(y, x, p);
  }

  lemma PaddedOrder(m: Numeral, n: Numeral, scale: nat, i: int, j: int, x: real, y: real)
    requires WellFormed(m) && WellFormed(n) && |m.fraction| <= scale && |n.fraction| <= scale
    requires i == Signed(m.negative, Magnitude(Padded(m, scale))) && x == Rational(m)
    requires j == Signed(n.negative, Magnitude(Padded(n, scale))) && y == Rational(n)
    ensures (i <= j <==> x <= y) && (i == j <==> x == y)
  {
    var p := Pow10(scale) as real;
    PaddedTimesScale(m, scale, i, x, p);
    PaddedTimesScale(n, scale, j, y, p);
    CompareScaled(x, y, p, i, j);
  }

  lemma ScaledOrderAt(a: string, b: string, scale: nat)
    requires IsDecimal(a) && IsDecimal(b)
    requires |Parse(a).value.fraction| <= scale && |Parse(b).value.fraction| <= scale
    ensures ToScaled(a, scale).Some? && ToScaled(b, scale).Some?
    ensures ToScaled(a, scale).value <= ToScaled(b, scale).value <==>
      Rational(Parse(a).value) <= Rational(Parse(b).value)
    ensures ToScaled(a, scale).value == ToScaled(b, scale).value <==>
      Rational(Parse(a).value) == Rational(Parse(b).value)
  {
    var m, n := Parse(a).value, Parse(b).value;
    ScaledIsPadded(a, scale);
    ScaledIsPadded(b, scale);
    PaddedOrder(m, n, scale, ToScaled(a, scale).value, ToScaled(b, scale).value, Rational(m), Rational(n));
  }

  /** The scaled integers order two decimals exactly as the rationals they denote, whatever their fraction lengths. */
  lemma ScaledOrderIsRationalOrder(a: string, b: string)
    requires IsDecimal(a) && IsDecimal(b)
    ensures ScaledBigInts(a, b).Some?
    ensures ScaledBigInts(a, b).value.0 <= ScaledBigInts(a, b).value.1
        <==> Rational(Parse(a).value) <= Rational(Parse(b).value)
    ensures ScaledBigInts(a, b).value.0 == ScaledBigInts(a, b).value.1
        <==> Rational(Parse(a).value) == Rational(Parse(b).value)
  {
    DecimalFractionLength(a);
    DecimalFractionLength(b);
    ScaledOrderAt(a, b, if FractionLength(a) >= FractionLength(b) then FractionLength(a) else FractionLength(b));
  }

  // ------------------------------------------------------- amounts as verifiers see them

  /** The rational a price denotes, when it is a plain decimal its asset's precision can carry. */
  function Amount(term: PriceTerm): real
    requires CanonicalNumeral(term).Some?
  {
    Rational(Parse(Trim(term.amount)).value)
  }

  /** canonicalPrice returns a decimal that denotes what was written. */
  lemma CanonicalPriceDenotesAmount(term: PriceTerm)
    requires CanonicalPrice(term).Some?
    ensures IsDecimal(CanonicalPrice(term).value)
    ensures Parse(CanonicalPrice(term).value) == CanonicalNumeral(term)
    ensures Rational(CanonicalNumeral(term).value) == Amount(term)
  {
    var n := Parse(Trim(term.amount)).value;
    CanonicalKeepsRational(n, term.decimals);
    ParseUndoesPrint(CanonicalNumeral(term).value);
  }

  /** /^0(\.0*)?$/ */
  predicate IsZeroString(c: string) {
    |c| > 0 && c[0] == '0' && (|c| == 1 || (c[1] == '.' && AllZeros(c[2..])))
  }

  predicate StartsNegative(c: string) {
    |c| > 0 && c[0] == '-'
  }

  predicate IsPositiveAmount(term: PriceTerm) {
    match CanonicalPrice(term)
    case None => false
    case Some(c) => !StartsNegative(c) && !IsZeroString(c)
  }

  predicate IsNonNegativeAmount(term: PriceTerm) {
    match CanonicalPrice(term)
    case None => false
    case Some(c) => !StartsNegative(c)
  }

  predicate PriceEqual(a: PriceTerm, b: PriceTerm) {
    a.asset == b.asset && CanonicalPrice(a).Some? && CanonicalPrice(a) == CanonicalPrice(b)
  }

  predicate PriceLessOrEqual(a: PriceTerm, b: PriceTerm) {
    && a.asset == b.asset
    && match (CanonicalPrice(a), CanonicalPrice(b))
       case (Some(x), Some(y)) =>
         ScaledBigInts(x, y).Some? && ScaledBigInts(x, y).value.0 <= ScaledBigInts(x, y).value.1
       case _ => false
  }

  lemma RationalSign(n: Numeral)
    requires WellFormed(n)
    ensures Rational(n) == 0.0 <==> Magnitude(n) == 0
    ensures Magnitude(n) > 0 ==> (Rational(n) < 0.0 <==> n.negative)
  {
    var v, p := Signed(n.negative, Magnitude(n)) as real, Pow10(|n.fraction|) as real;
    QuotientTimes(v, p);
    if Magnitude(n) > 0 {
      QuotientSign(v, p);
    }
  }

  lemma QuotientSign(v: real, p: real)
    requires p > 0.0 && v != 0.0
    ensures v / p != 0.0 && (v / p < 0.0 <==> v < 0.0)
  {
    var x := v / p;
    assert x * p == v;
    if x >= 0.0 { assert x * p >= 0.0; } else { assert x * p < 0.0; }
  }

  lemma CanonicalShape(n: Numeral, decimals: Option<int>)
    requires WellFormed(n) && Canonical(n, decimals).Some?
    ensures var c := Canonical(n, decimals).value;
      && WellFormed(c) && (|c.whole| == 1 || c.whole[0] != '0')
      && (c.negative ==> !IsZeroText(c))
  {
  }

  lemma ZeroStringIsZeroText(n: Numeral)
    requires WellFormed(n) && !n.negative
    ensures IsZeroString(Print(n)) <==> IsZeroText(n)
  {
    var c := Print(n);
    assert c[..|n.whole|] == n.whole;
    if |n.whole| > 1 {
      assert c[1] == n.whole[1];
    } else if |n.fraction| > 0 {
      assert c[1] == '.' && c[2..] == n.fraction;
    }
  }

  /** The textual guards decide the sign of the rational exactly. */
  lemma GuardsDecideSign(term: PriceTerm)
    requires CanonicalPrice(term).Some?
    ensures IsPositiveAmount(term) <==> Amount(term) > 0.0
    ensures IsNonNegativeAmount(term) <==> Amount(term) >= 0.0
  {
    var n, c := Parse(Trim(term.amount)).value, CanonicalNumeral(term).value;
    CanonicalPriceDenotesAmount(term);
    CanonicalShape(n, term.decimals);
    ParseUndoesPrint(c);
    ZeroTextIsZero(c);
    RationalSign(c);
    if !c.negative {
      ZeroStringIsZeroText(c);
    }
  }

  /** Comparing is exact: the order of one asset's prices is the order of the rationals. */
  lemma ComparisonIsExact(a: PriceTerm, b: PriceTerm)
    requires CanonicalPrice(a).Some? && CanonicalPrice(b).Some?
    ensures PriceLessOrEqual(a, b) <==> a.asset == b.asset && Amount(a) <= Amount(b)
  {
    CanonicalPriceDenotesAmount(a);
    CanonicalPriceDenotesAmount(b);
    ScaledOrderIsRationalOrder(CanonicalPrice(a).value, CanonicalPrice(b).value);
  }

  // ------------------------------------------------------------ when equality is exact

  /** No leading zero but a lone one. */
  predicate IsCanonicalWhole(s: string) {
    |s| > 0 && IsDigits(s) && (|s| == 1 || s[0] != '0')
  }

  lemma CanonicalWholeIsPrinted(s: string)
    requires IsCanonicalWhole(s)
    ensures s == NatText(Value(s))
  {
    if s[0] == '0' {
      assert s[..0] == "" && s == "0";
    } else {
      NumeralIsPrinted(s);
    }
  }

  lemma SplitLastDigit(whole: string, fraction: string)
    requires IsDigits(whole) && IsDigits(fraction) && |fraction| > 0
    ensures var init, last := fraction[..|fraction| - 1], DigitValue(fraction[|fraction| - 1]);
      Value(whole + fraction) / 10 == Value(whole + init) && Value(whole + fraction) % 10 == last
  {
    var init := fraction[..|fraction| - 1];
    assert whole + fraction == whole + init + [fraction[|fraction| - 1]];
    ValueSnoc(whole + init, fraction[|fraction| - 1]);
  }

  /** With equally long fractions, equal magnitudes are equal digits. */
  lemma {:induction false} DigitsOfMagnitude(w1: string, f1: string, w2: string, f2: string)
    requires IsCanonicalWhole(w1) && IsDigits(f1) && IsCanonicalWhole(w2) && IsDigits(f2)
    requires |f1| == |f2| && Value(w1 + f1) == Value(w2 + f2)
    ensures w1 == w2 && f1 == f2
    decreases |f1|
  {
    if |f1| == 0 {
      assert w1 + f1 == w1 && w2 + f2 == w2;
      CanonicalWholeIsPrinted(w1);
      CanonicalWholeIsPrinted(w2);
    } else {
      SplitLastDigit(w1, f1);
      SplitLastDigit(w2, f2);
      DigitsOfMagnitude(w1, f1[..|f1| - 1], w2, f2[..|f2| - 1]);
      assert f1 == f1[..|f1| - 1] + [f1[|f1| - 1]] && f2 == f2[..|f2| - 1] + [f2[|f2| - 1]];
    }
  }

  /** canonicalPrice's result as a numeral: no leading zero, no negative zero. */
  predicate IsCanonical(n: Numeral) {
    WellFormed(n) && IsCanonicalWhole(n.whole) && (n.negative ==> Magnitude(n) > 0)
  }

  lemma CanonicalIsCanonical(n: Numeral, decimals: Option<int>)
    requires WellFormed(n) && Canonical(n, decimals).Some?
    ensures IsCanonical(Canonical(n, decimals).value)
  {
    CanonicalShape(n, decimals);
    ZeroTextIsZero(Canonical(n, decimals).value);
  }

  lemma RationalOfSameScale(m: Numeral, n: Numeral, i: int, j: int)
    requires WellFormed(m) && WellFormed(n) && |m.fraction| == |n.fraction| && Rational(m) == Rational(n)
    requires i == Signed(m.negative, Magnitude(m)) && j == Signed(n.negative, Magnitude(n))
    ensures i == j
  {
    var p := Pow10(|m.fraction|) as real;
    RationalTimesScale(m, i, Rational(m), p);
    RationalTimesScale(n, j, Rational(n), p);
  }

  /** At one scale a rational has one canonical numeral. */
  lemma CanonicalIsUnique(m: Numeral, n: Numeral)
    requires IsCanonical(m) && IsCanonical(n) && |m.fraction| == |n.fraction| && Rational(m) == Rational(n)
    ensures m == n
  {
    RationalOfSameScale(m, n, Signed(m.negative, Magnitude(m)), Signed(n.negative, Magnitude(n)));
    DigitsOfMagnitude(m.whole, m.fraction, n.whole, n.fraction);
  }

  /** How many fraction digits canonicalPrice writes: the declared precision, else the significant ones. */
  function Places(term: PriceTerm): nat
    requires CanonicalPrice(term).Some?
  {
    match term.decimals
    case Some(d) => d
    case None => |StripTrailingZeros(Parse(Trim(term.amount)).value.fraction)|
  }

  lemma CanonicalNumeralOfTerm(term: PriceTerm)
    requires CanonicalPrice(term).Some?
    ensures IsCanonical(CanonicalNumeral(term).value) && |CanonicalNumeral(term).value.fraction| == Places(term)
  {
    CanonicalIsCanonical(Parse(Trim(term.amount)).value, term.decimals);
  }

  /** Exactly: priceEqual holds for equal amounts of one asset that are written with equally many fraction digits. */
  lemma PriceEqualExactlyWhen(a: PriceTerm, b: PriceTerm)
    requires CanonicalPrice(a).Some? && CanonicalPrice(b).Some?
    ensures PriceEqual(a, b) <==> a.asset == b.asset && Amount(a) == Amount(b) && Places(a) == Places(b)
  {
    CanonicalPriceDenotesAmount(a);
    CanonicalPriceDenotesAmount(b);
    CanonicalNumeralOfTerm(a);
    CanonicalNumeralOfTerm(b);
    var m, n := CanonicalNumeral(a).value, CanonicalNumeral(b).value;
    if Amount(a) == Amount(b) && Places(a) == Places(b) {
      CanonicalIsUnique(m, n);
    }
    if PriceEqual(a, b) {
      ParseUndoesPrint(m);
      ParseUndoesPrint(n);
    }
  }

  lemma LastDigitOfProduct(v: int, p: int)
    requires p > 0
    ensures (v * (10 * p)) % 10 == 0
  {
    assert v * (10 * p) == 10 * (v * p);
  }

  /** A fraction without a trailing zero cannot be written shorter. */
  lemma ShorterFractionDiffers(m: Numeral, n: Numeral)
    requires IsCanonical(m) && IsCanonical(n) && |m.fraction| < |n.fraction|
    requires n.fraction[|n.fraction| - 1] != '0'
    ensures Rational(m) != Rational(n)
  {
    var k := |n.fraction| - |m.fraction|;
    if Rational(m) == Rational(n) {
      var padded := m.(fraction := m.fraction + Zeros(k));
      PaddingKeepsRational(m, k);
      PaddedMagnitude(m, k);
      RationalOfSameScale(padded, n, Signed(m.negative, Magnitude(padded)), Signed(n.negative, Magnitude(n)));
      assert Magnitude(n) == Magnitude(m) * (10 * Pow10(k - 1));
      LastDigitOfProduct(Magnitude(m), Pow10(k - 1));
      SplitLastDigit(n.whole, n.fraction);
    }
  }

  predicate NoTrailingZero(n: Numeral) {
    |n.fraction| > 0 ==> n.fraction[|n.fraction| - 1] != '0'
  }

  lemma SameRationalSamePlaces(m: Numeral, n: Numeral)
    requires IsCanonical(m) && IsCanonical(n) && NoTrailingZero(m) && NoTrailingZero(n) && Rational(m) == Rational(n)
    ensures |m.fraction| == |n.fraction|
  {
    if |m.fraction| < |n.fraction| {
      ShorterFractionDiffers(m, n);
    } else if |n.fraction| < |m.fraction| {
      ShorterFractionDiffers(n, m);
    }
  }

  lemma UndeclaredHasNoTrailingZero(term: PriceTerm)
    requires CanonicalPrice(term).Some? && term.decimals == None
    ensures NoTrailingZero(CanonicalNumeral(term).value)
  {
  }

  /** Without a declared precision the significant digits are those of the amount. */
  lemma UndeclaredPlacesFollowAmount(a: PriceTerm, b: PriceTerm, m: Numeral, n: Numeral)
    requires CanonicalPrice(a).Some? && CanonicalPrice(b).Some? && a.decimals == None && b.decimals == None
    requires CanonicalNumeral(a) == Some(m) && CanonicalNumeral(b) == Some(n)
    requires WellFormed(m) && WellFormed(n) && Rational(m) == Rational(n)
    ensures |m.fraction| == |n.fraction|
  {
    CanonicalNumeralOfTerm(a);
    CanonicalNumeralOfTerm(b);
    UndeclaredHasNoTrailingZero(a);
    UndeclaredHasNoTrailingZero(b);
    SameRationalSamePlaces(m, n);
  }

  /** A caller that declares one precision for both prices, or none for either, gets exact equality. */
  lemma EqualityIsExactAtOnePrecision(a: PriceTerm, b: PriceTerm)
    requires CanonicalPrice(a).Some? && CanonicalPrice(b).Some? && a.decimals == b.decimals
    ensures PriceEqual(a, b) <==> a.asset == b.asset && Amount(a) == Amount(b)
  {
    PriceEqualExactlyWhen(a, b);
    if a.decimals == None && Amount(a) == Amount(b) {
      CanonicalPriceDenotesAmount(a);
      CanonicalPriceDenotesAmount(b);
      CanonicalNumeralOfTerm(a);
      CanonicalNumeralOfTerm(b);
      UndeclaredPlacesFollowAmount(a, b, CanonicalNumeral(a).value, CanonicalNumeral(b).value);
    }
  }

  /** Otherwise the same digits, read with more decimals than they have and with none declared, are told apart. */
  lemma DeclaredPrecisionSeparatesEqualAmounts(amount: string, asset: string, d: int)
    requires Parse(Trim(amount)).Some? && |Parse(Trim(amount)).value.fraction| < d
    ensures var a, b := PriceTerm(amount, asset, Some(d)), PriceTerm(amount, asset, None);
      && CanonicalPrice(a).Some? && CanonicalPrice(b).Some? && Amount(a) == Amount(b)
      && !PriceEqual(a, b) && PriceLessOrEqual(a, b) && PriceLessOrEqual(b, a)
  {
    var a, b := PriceTerm(amount, asset, Some(d)), PriceTerm(amount, asset, None);
    PriceEqualExactlyWhen(a, b);
    ComparisonIsExact(a, b);
    ComparisonIsExact(b, a);
  }

  // ------------------------------------------------------------- the texts, spelled out

  /** Code units that trimming removes. */
  predicate IsWhiteSpace(c: char) {
    var unit := c as int;
    || 9 <= unit <= 13 || unit == 32 || unit == 160 || unit == 0x1680 || 0x2000 <= unit <= 0x200a
    || unit == 0x2028 || unit == 0x2029 || unit == 0x202f || unit == 0x205f || unit == 0x3000 || unit == 0xfeff
  }

  lemma SpacesSpelled(c: char)
    ensures IsSpace(c) <==> IsWhiteSpace(c)
  {
  }

  /** Trimming cuts white space off both ends, and all of it. */
  lemma {:induction false} TrimSpelled(s: string) returns (before: string, after: string)
    ensures s == before + (Trim(s) + after)
    ensures forall i :: 0 <= i < |before| ==> IsWhiteSpace(before[i])
    ensures forall i :: 0 <= i < |after| ==> IsWhiteSpace(after[i])
    ensures Trim(s) != "" ==> !IsWhiteSpace(Trim(s)[0]) && !IsWhiteSpace(Trim(s)[|Trim(s)| - 1])
    decreases |s|
  {
    before, after := "", "";
    if |s| > 0 {
      SpacesSpelled(s[0]);
      SpacesSpelled(s[|s| - 1]);
      if IsSpace(s[0]) {
        var rest, end := TrimSpelled(s[1..]);
        CutFront(s, rest, Trim(s[1..]), end);
        before, after := [s[0]] + rest, end;
      } else if IsSpace(s[|s| - 1]) {
        var start, rest := TrimSpelled(s[..|s| - 1]);
        CutBack(s, start, Trim(s[..|s| - 1]), rest);
        before, after := start, rest + [s[|s| - 1]];
      }
    }
  }

  lemma CutFront(s: string, a: string, m: string, b: string)
    requires |s| > 0 && s[1..] == a + (m + b)
    ensures s == ([s[0]] + a) + (m + b)
  {
  }

  lemma CutBack(s: string, a: string, m: string, b: string)
    requires |s| > 0 && s[..|s| - 1] == a + (m + b)
    ensures s == a + (m + (b + [s[|s| - 1]]))
  {
    assert s == s[..|s| - 1] + [s[|s| - 1]];
  }

  /** Digits, and a point with digits when there is a fraction. */
  function Decimal(whole: string, fraction: string): string {
    if fraction == "" then whole else whole + ("." + fraction)
  }

  lemma UnsignedParseIsPrinted(negative: bool, body: string)
    ensures ParseUnsigned(negative, body).Some? ==>
      var n := ParseUnsigned(negative, body).value;
      WellFormed(n) && n.negative == negative && Decimal(n.whole, n.fraction) == body
  {
    var dot := IndexOf(body, '.');
    if dot < |body| {
      assert body == body[..dot] + ("." + body[dot + 1..]);
    }
  }

  lemma UnsignedPrintParses(n: Numeral)
    requires WellFormed(n)
    ensures ParseUnsigned(n.negative, Decimal(n.whole, n.fraction)) == Some(n)
    ensures Decimal(n.whole, n.fraction) != "" && IsDigit(Decimal(n.whole, n.fraction)[0])
  {
    ParseUndoesUnsignedPrint(n);
    assert n.whole + "." + n.fraction == n.whole + ("." + n.fraction);
    assert PrintUnsigned(n) == Decimal(n.whole, n.fraction);
  }

  /** A numeral is read from its decimal, alone or after a plus, or after a minus, which makes it negative. */
  lemma ParseSpelled(raw: string, n: Numeral)
    ensures Parse(raw) == Some(n) <==>
      && WellFormed(n)
      && ((n.negative && raw == "-" + Decimal(n.whole, n.fraction))
          || (!n.negative && (raw == Decimal(n.whole, n.fraction) || raw == "+" + Decimal(n.whole, n.fraction))))
  {
    if Parse(raw) == Some(n) {
      if raw[0] == '+' || raw[0] == '-' {
        UnsignedParseIsPrinted(raw[0] == '-', raw[1..]);
        assert raw == [raw[0]] + raw[1..];
      } else {
        UnsignedParseIsPrinted(false, raw);
      }
    }
    if WellFormed(n) {
      UnsignedPrintParses(n);
      assert raw == "-" + Decimal(n.whole, n.fraction) ==> raw[1..] == Decimal(n.whole, n.fraction);
      assert raw == "+" + Decimal(n.whole, n.fraction) ==> raw[1..] == Decimal(n.whole, n.fraction);
    }
  }

  /** What a numeral denotes: its digits as one number, with its sign ... */
  lemma WholeSpelled(n: Numeral)
    requires WellFormed(n) && n.fraction == ""
    ensures Rational(n) == if n.negative then -(Value(n.whole) as real) else Value(n.whole) as real
  {
    assert n.whole + "" == n.whole;
    var v := Signed(n.negative, Magnitude(n)) as real;
    assert Pow10(0) == 1 && v / 1.0 == v;
  }

  /** ... and one more digit of the fraction counts ten times less. */
  lemma FractionSpelled(n: Numeral, last: char)
    requires WellFormed(n) && IsDigit(last)
    ensures
      var longer := n.(fraction := n.fraction + [last]);
      && WellFormed(longer) && Magnitude(longer) == 10 * Magnitude(n) + DigitValue(last)
      && Pow10(|longer.fraction|) == 10 * Pow10(|n.fraction|)
      && Rational(longer) == Signed(n.negative, Magnitude(longer)) as real / Pow10(|longer.fraction|) as real
  {
    assert n.whole + (n.fraction + [last]) == (n.whole + n.fraction) + [last];
    ValueSnoc(n.whole + n.fraction, last);
  }

  /** A price has a canonical text exactly when its amount is a decimal that a declared precision can carry. */
  lemma ReadablePriceSpelled(term: PriceTerm)
    ensures CanonicalPrice(term).Some? <==>
      && Parse(Trim(term.amount)).Some?
      && (term.decimals.Some? ==>
            term.decimals.value >= 0 && |Parse(Trim(term.amount)).value.fraction| <= term.decimals.value)
  {
  }

  lemma CanonicalSign(n: Numeral)
    requires IsCanonical(n)
    ensures n.negative <==> Rational(n) < 0.0
  {
    RationalSign(n);
  }

  lemma PrintSpelled(n: Numeral)
    ensures Print(n) == (if n.negative then "-" else "") + Decimal(n.whole, n.fraction)
  {
    assert n.whole + "." + n.fraction == n.whole + ("." + n.fraction);
  }

  /**
   * The text is the decimal of the same value without needless leading zeros, filled to the declared precision or else
   * without trailing zeros, and with a minus exactly when the value is negative.
   */
  lemma CanonicalPriceSpelled(term: PriceTerm) returns (n: Numeral)
    requires CanonicalPrice(term).Some?
    ensures WellFormed(n)
    ensures CanonicalPrice(term).value == (if n.negative then "-" else "") + Decimal(n.whole, n.fraction)
    ensures Rational(n) == Amount(term) && (n.negative <==> Amount(term) < 0.0)
    ensures |n.whole| > 1 ==> n.whole[0] != '0'
    ensures term.decimals.Some? ==> |n.fraction| == term.decimals.value
    ensures term.decimals.None? && n.fraction != "" ==> n.fraction[|n.fraction| - 1] != '0'
  {
    n := CanonicalNumeral(term).value;
    CanonicalPriceDenotesAmount(term);
    CanonicalNumeralOfTerm(term);
    CanonicalSign(n);
    PrintSpelled(n);
    if term.decimals.None? {
      UndeclaredHasNoTrailingZero(term);
    }
  }
}
