/** Finite decimals as the General Decimal Arithmetic Specification has them: a
    sign, a coefficient and an exponent; with `to-scientific-string` and
    `to-number` from its Conversions section, and numeric equality. */
module Decimals {
  import opened Wrappers
  import opened Text

  datatype Decimal = Decimal(negative: bool, coefficient: nat, exponent: int)

  function Pow10(k: nat): (p: nat)
    ensures p >= 1
  {
    if k == 0 then 1 else 10 * Pow10(k - 1)
  }

  lemma UnitPower()
    ensures Pow10(0) == 1
  {
  }

  lemma {:induction false} Pow10Sum(i: nat, j: nat)
    ensures Pow10(i + j) == Pow10(i) * Pow10(j)
  {
    if i != 0 {
      Pow10Sum(i - 1, j);
      Reassociate(10, Pow10(i - 1), Pow10(j));
    }
  }

  // ------------------------------------------------------------------- digits

  predicate IsDigit(c: char) {
    '0' <= c <= '9'
  }

  predicate AllDigits(t: string) {
    forall i | 0 <= i < |t| :: IsDigit(t[i])
  }

  function DigitChar(n: nat): char
    requires n < 10
  {
    (48 + n) as char
  }

  function DigitValue(c: char): (n: nat)
    requires IsDigit(c)
    ensures n < 10 && DigitChar(n) == c
  {
    c as int - 48
  }

  /** Shortest decimal digits of `n`, most significant first. */
  function Digits(n: nat): (t: string)
    ensures |t| >= 1 && AllDigits(t)
    ensures t[0] == '0' ==> n == 0
    ensures n == 0 ==> t == "0"
  {
    if n < 10 then [DigitChar(n)] else Digits(n / 10) + [DigitChar(n % 10)]
  }

  function ValueOf(t: string): nat
    requires AllDigits(t)
  {
    if t == [] then 0 else 10 * ValueOf(t[..|t| - 1]) + DigitValue(t[|t| - 1])
  }

  function Zeros(k: nat): (t: string)
    ensures |t| == k && AllDigits(t) && forall i | 0 <= i < k :: t[i] == '0'
  {
    seq(k, _ => '0')
  }

  lemma {:induction false} ValueOfDigits(n: nat)
    ensures ValueOf(Digits(n)) == n
  {
    if n >= 10 {
      ValueOfDigits(n / 10);
      assert Digits(n)[..|Digits(n)| - 1] == Digits(n / 10);
    }
  }

  lemma Shift(v: int, p: int, r: int, d: int)
    ensures 10 * (v * p + r) + d == v * (10 * p) + (10 * r + d)
  {
  }

  lemma {:induction false} ValueOfConcat(a: string, b: string)
    requires AllDigits(a) && AllDigits(b)
    ensures AllDigits(a + b) && ValueOf(a + b) == ValueOf(a) * Pow10(|b|) + ValueOf(b)
  {
    if b == [] {
      assert a + b == a;
    } else {
      var b' := b[..|b| - 1];
      ValueOfConcat(a, b');
      assert (a + b)[..|a + b| - 1] == a + b';
      Shift(ValueOf(a), Pow10(|b'|), ValueOf(b'), DigitValue(b[|b| - 1]));
    }
  }

  lemma {:induction false} ValueOfZeros(k: nat)
    ensures ValueOf(Zeros(k)) == 0
  {
    if k != 0 {
      ValueOfZeros(k - 1);
      assert Zeros(k)[..k - 1] == Zeros(k - 1);
    }
  }

  lemma {:induction false} DigitCount(n: nat, p: nat)
    requires p >= 1
    ensures |Digits(n)| <= p <==> n < Pow10(p)
  {
    if n >= 10 && p > 1 {
      DigitCount(n / 10, p - 1);
    } else {
      assert Pow10(1) == 10 * Pow10(0);
      if p > 1 { assert Pow10(p) == 10 * (10 * Pow10(p - 2)); }
    }
  }

  // ---------------------------------------------------------------- to-number

  /** Digits with an optional point: the coefficient and the exponent. */
  function ParseMantissa(t: string): Option<(nat, int)> {
    var p := IndexOf(t, {'.'});
    var whole, fraction := t[..p], if p < |t| then t[p + 1..] else "";
    if AllDigits(whole) && AllDigits(fraction) && whole + fraction != [] then
      Some((ValueOf(whole + fraction), -|fraction|))
    else None
  }

  /** An optional sign and at least one digit. */
  function ParseInteger(t: string): Option<int> {
    var digits := if t != [] && t[0] in {'+', '-'} then t[1..] else t;
    if digits != [] && AllDigits(digits) then
      var n: int := ValueOf(digits);
      Some(if t[0] == '-' then -n else n)
    else None
  }

  function ParseUnsigned(t: string): Option<(nat, int)> {
    var e := IndexOf(t, {'e', 'E'});
    match (ParseMantissa(t[..e]), if e < |t| then ParseInteger(t[e + 1..]) else Some(0))
    case (Some((c, x)), Some(y)) => Some((c, x + y))
    case _ => None
  }

  function ToNumber(t: string): Option<Decimal> {
    var body := if t != [] && t[0] in {'+', '-'} then t[1..] else t;
    match ParseUnsigned(body)
    case Some((c, x)) => Some(Decimal(t[0] == '-', c, x))
    case None => None
  }

  // ----------------------------------------------------- to-scientific-string

  /** Coefficient digits with the point placed for a non-positive exponent. */
  function Pointed(digits: string, places: nat): string {
    if places == 0 then digits
    else if |digits| > places then digits[..|digits| - places] + "." + digits[|digits| - places..]
    else "0." + Zeros(places - |digits|) + digits
  }

  function SignedInteger(n: int): string {
    if n < 0 then "-" + Digits(-n) else "+" + Digits(n)
  }

  function SignText(negative: bool): string {
    if negative then "-" else ""
  }

  function Exponential(digits: string, adjusted: int): string
    requires digits != []
  {
    digits[..1] + (if |digits| > 1 then "." + digits[1..] else "") + ("E" + SignedInteger(adjusted))
  }

  function UnsignedText(c: nat, x: int): string {
    var digits := Digits(c);
    var adjusted := x + |digits| - 1;
    if x <= 0 && adjusted >= -6 then Pointed(digits, -x) else Exponential(digits, adjusted)
  }

  /** `str(d)`. */
  function ToScientific(d: Decimal): string {
    SignText(d.negative) + UnsignedText(d.coefficient, d.exponent)
  }

  lemma {:induction false} Gap(x: int, y: int, p: int)
    requires x > y && p >= 0
    ensures x * p >= y * p + p
    decreases x - y
  {
    if x > y + 1 { Gap(x - 1, y, p); }
    assert x * p == (x - 1) * p + p;
  }

  /** A mantissa followed by nothing, or by an exponent that reads as `y`. */
  lemma ParseParts(mantissa: string, exponent: string, y: int)
    requires forall i | 0 <= i < |mantissa| :: mantissa[i] !in {'e', 'E'}
    requires ParseMantissa(mantissa).Some?
    requires if exponent == "" then y == 0 else exponent[0] == 'E' && ParseInteger(exponent[1..]) == Some(y)
    ensures var (c, x) := ParseMantissa(mantissa).value;
            ParseUnsigned(mantissa + exponent) == Some((c, x + y))
  {
    hide ParseMantissa, ParseInteger, IndexOf;
    FirstAfter(mantissa, exponent, {'e', 'E'});
  }

  lemma MantissaWhole(whole: string)
    requires whole != [] && AllDigits(whole)
    ensures ParseMantissa(whole) == Some((ValueOf(whole), 0))
  {
    FirstAfter(whole, "", {'.'});
    assert whole + "" == whole;
  }

  lemma MantissaPoint(whole: string, fraction: string)
    requires whole != [] && AllDigits(whole) && AllDigits(fraction)
    ensures AllDigits(whole + fraction)
    ensures ParseMantissa(whole + "." + fraction) == Some((ValueOf(whole + fraction), -|fraction|))
  {
    FirstAfter(whole, "." + fraction, {'.'});
    assert whole + "." + fraction == whole + ("." + fraction);
    assert ("." + fraction)[1..] == fraction;
  }

  lemma ValueOfPadded(k: nat, digits: string)
    requires AllDigits(digits)
    ensures AllDigits(Zeros(k) + digits) && ValueOf(Zeros(k) + digits) == ValueOf(digits)
  {
    ValueOfConcat(Zeros(k), digits);
    ValueOfZeros(k);
  }

  lemma PointedPlain(digits: string, places: nat)
    requires digits != [] && AllDigits(digits)
    ensures var t := Pointed(digits, places);
            t != [] && IsDigit(t[0]) && forall i | 0 <= i < |t| :: t[i] !in {'e', 'E'}
  {
  }

  lemma PaddedMantissa(digits: string, k: nat)
    requires digits != [] && AllDigits(digits)
    ensures ParseMantissa("0." + Zeros(k) + digits) == Some((ValueOf(digits), -((k + |digits|) as int)))
  {
    hide ParseMantissa, ValueOf, IndexOf;
    MantissaPoint("0", Zeros(k) + digits);
    assert "0" + "." == "0.";
    Associative("0.", Zeros(k), digits);
    Associative("0", Zeros(k), digits);
    assert "0" + Zeros(k) == Zeros(k + 1);
    ValueOfPadded(k + 1, digits);
  }

  lemma SplitMantissa(digits: string, i: nat)
    requires 0 < i < |digits| && AllDigits(digits)
    ensures ParseMantissa(digits[..i] + "." + digits[i..]) == Some((ValueOf(digits), i - |digits|))
  {
    hide ParseMantissa, ValueOf, IndexOf;
    MantissaPoint(digits[..i], digits[i..]);
    assert digits[..i] + digits[i..] == digits;
  }

  lemma PointedMantissa(digits: string, places: nat)
    requires digits != [] && AllDigits(digits)
    ensures ParseMantissa(Pointed(digits, places)) == Some((ValueOf(digits), -(places as int)))
  {
    hide ParseMantissa, ValueOf, IndexOf;
    if places == 0 {
      MantissaWhole(digits);
    } else if |digits| > places {
      SplitMantissa(digits, |digits| - places);
    } else {
      PaddedMantissa(digits, places - |digits|);
    }
  }

  lemma ParsePointed(digits: string, places: nat)
    requires digits != [] && AllDigits(digits)
    ensures ParseUnsigned(Pointed(digits, places)) == Some((ValueOf(digits), -(places as int)))
  {
    hide ParseMantissa, ParseUnsigned, Pointed, ValueOf;
    PointedPlain(digits, places);
    PointedMantissa(digits, places);
    ParseParts(Pointed(digits, places), "", 0);
    assert Pointed(digits, places) + "" == Pointed(digits, places);
  }

  lemma ParseSigned(n: int)
    ensures ParseInteger(SignedInteger(n)) == Some(n)
  {
    hide ValueOf, Digits;
    ValueOfDigits(if n < 0 then -n else n);
    assert SignedInteger(n)[1..] == Digits(if n < 0 then -n else n);
  }

  lemma ParseExponential(digits: string, adjusted: int)
    requires digits != [] && AllDigits(digits)
    ensures ParseUnsigned(Exponential(digits, adjusted)) == Some((ValueOf(digits), adjusted - |digits| + 1))
  {
    hide ParseMantissa, ParseUnsigned, ParseInteger, ValueOf, SignedInteger, IndexOf;
    var fraction := if |digits| > 1 then "." + digits[1..] else "";
    ExponentialMantissa(digits, fraction);
    ParseSigned(adjusted);
    var exponent := "E" + SignedInteger(adjusted);
    assert exponent[1..] == SignedInteger(adjusted);
    ParseParts(digits[..1] + fraction, exponent, adjusted);
  }

  lemma ExponentialMantissa(digits: string, fraction: string)
    requires digits != [] && AllDigits(digits)
    requires fraction == if |digits| > 1 then "." + digits[1..] else ""
    ensures ParseMantissa(digits[..1] + fraction) == Some((ValueOf(digits), 1 - |digits|))
    ensures var m := digits[..1] + fraction; forall i | 0 <= i < |m| :: m[i] !in {'e', 'E'}
  {
    hide ParseMantissa, ValueOf;
    if |digits| == 1 {
      assert digits[..1] + fraction == digits;
      MantissaWhole(digits);
    } else {
      SplitMantissa(digits, 1);
      assert digits[..1] + fraction == digits[..1] + "." + digits[1..];
    }
  }

  lemma ParseUnsignedText(c: nat, x: int)
    ensures var t := UnsignedText(c, x);
            t != [] && IsDigit(t[0]) && ParseUnsigned(t) == Some((c, x))
  {
    hide ParseUnsigned, ValueOf, Pointed;
    var digits := Digits(c);
    ValueOfDigits(c);
    if x <= 0 && x + |digits| - 1 >= -6 {
      PointedPlain(digits, -x);
      ParsePointed(digits, -x);
    } else {
      ParseExponential(digits, x + |digits| - 1);
    }
  }

  lemma ParseWithSign(negative: bool, t: string)
    requires t != [] && IsDigit(t[0]) && ParseUnsigned(t).Some?
    ensures var (c, x) := ParseUnsigned(t).value;
            ToNumber(SignText(negative) + t) == Some(Decimal(negative, c, x))
  {
    hide ParseUnsigned;
    if negative { assert ("-" + t)[1..] == t; } else { assert "" + t == t; }
  }

  /** What a numeral reads as: its digits without the point are the coefficient, and the
      exponent is the written one less the number of fraction digits. */
  lemma NumeralReads(negative: bool, whole: string, fraction: string, e: int)
    requires whole != [] && AllDigits(whole) && AllDigits(fraction)
    ensures ToNumber(SignText(negative) + (whole + "." + fraction + ("E" + SignedInteger(e))))
            == Some(Decimal(negative, ValueOf(whole + fraction), e - |fraction|))
    ensures ToNumber(SignText(negative) + whole) == Some(Decimal(negative, ValueOf(whole), 0))
  {
    hide ParseMantissa, ParseUnsigned, ParseInteger, ValueOf, SignedInteger, IndexOf, ToNumber;
    MantissaPoint(whole, fraction);
    MantissaWhole(whole);
    ParseSigned(e);
    var exponent := "E" + SignedInteger(e);
    assert exponent[1..] == SignedInteger(e);
    ParseParts(whole + "." + fraction, exponent, e);
    ParseParts(whole, "", 0);
    assert whole + "" == whole;
    ParseWithSign(negative, whole + "." + fraction + exponent);
    ParseWithSign(negative, whole);
  }

  /** Writing a finite decimal and reading it gives the same sign, coefficient
      and exponent: not only the same number. */
  lemma ScientificRoundTrip(d: Decimal)
    ensures ToNumber(ToScientific(d)) == Some(d)
  {
    ParseUnsignedText(d.coefficient, d.exponent);
    ParseWithSign(d.negative, UnsignedText(d.coefficient, d.exponent));
  }

  /** The exponential form: a mantissa without the mark, and the exponent of the first digit. */
  lemma ExponentialMark(sign: string, digits: string, first: int)
    requires 'E' !in sign && digits != [] && AllDigits(digits)
    ensures exists mantissa ::
              'E' !in mantissa && sign + Exponential(digits, first) == mantissa + ("E" + SignedInteger(first))
  {
    hide SignedInteger;
    var mantissa := sign + (digits[..1] + (if |digits| > 1 then "." + digits[1..] else ""));
    assert 'E' !in mantissa;
    assert sign + Exponential(digits, first) == mantissa + ("E" + SignedInteger(first));
  }

  lemma MarkShows(t: string, mantissa: string, rest: string)
    requires t == mantissa + ("E" + rest)
    ensures 'E' in t
  {
    assert t[|mantissa|] == 'E';
  }

  /** The text has an exponent exactly when the decimal's is positive, or the number is
      written with more than five zeros after the point; and the exponent then is that
      of the first digit. */
  lemma ExponentShownIff(d: Decimal)
    ensures var t, first := ToScientific(d), d.exponent + |Digits(d.coefficient)| - 1;
            && ('E' in t <==> d.exponent > 0 || first < -6)
            && ('E' in t ==> exists mantissa :: 'E' !in mantissa && t == mantissa + ("E" + SignedInteger(first)))
  {
    hide SignedInteger, Digits, Pointed, Exponential;
    var digits := Digits(d.coefficient);
    var first := d.exponent + |digits| - 1;
    if d.exponent <= 0 && first >= -6 {
      PointedPlain(digits, -d.exponent);
    } else {
      ExponentialMark(SignText(d.negative), digits, first);
      var mantissa :| 'E' !in mantissa && ToScientific(d) == mantissa + ("E" + SignedInteger(first));
      MarkShows(ToScientific(d), mantissa, SignedInteger(first));
    }
  }

  /** Different decimals have different texts, also when they are equal as numbers. */
  lemma ScientificInjective(a: Decimal, b: Decimal)
    ensures ToScientific(a) == ToScientific(b) <==> a == b
  {
    ScientificRoundTrip(a);
    ScientificRoundTrip(b);
  }

  // --------------------------------------------------------- numeric equality

  function Signed(d: Decimal): int {
    if d.negative then -(d.coefficient as int) else d.coefficient
  }

  function Min(a: int, b: int): int {
    if a <= b then a else b
  }

  /** Equal as numbers: equal integers once both are scaled to one exponent. */
  predicate NumEq(a: Decimal, b: Decimal) {
    var m := Min(a.exponent, b.exponent);
    Signed(a) * Pow10(a.exponent - m) == Signed(b) * Pow10(b.exponent - m)
  }

  /** The specification's `reduce`, with negative zero collapsed: the one
      representative of each number. */
  function Reduce(d: Decimal): (r: Decimal)
    decreases d.coefficient
    ensures r.coefficient == 0 ==> r == Decimal(false, 0, 0)
    ensures r.coefficient != 0 ==> r.coefficient % 10 != 0 && r.negative == d.negative
    ensures r.coefficient == 0 <==> d.coefficient == 0
    ensures r.coefficient <= d.coefficient
  {
    if d.coefficient == 0 then Decimal(false, 0, 0)
    else if d.coefficient % 10 == 0 then Reduce(Decimal(d.negative, d.coefficient / 10, d.exponent + 1))
    else d
  }

  lemma {:induction false} ReduceWitness(d: Decimal) returns (k: nat)
    requires d.coefficient != 0
    ensures d.coefficient == Reduce(d).coefficient * Pow10(k) && d.exponent == Reduce(d).exponent - k
    decreases d.coefficient
  {
    if d.coefficient % 10 == 0 {
      var d' := Decimal(d.negative, d.coefficient / 10, d.exponent + 1);
      var k' := ReduceWitness(d');
      k := k' + 1;
      Shift(Reduce(d).coefficient, Pow10(k'), 0, 0);
    } else {
      k := 0;
    }
  }

  lemma {:induction false} ReduceScaled(negative: bool, c: nat, x: int, k: nat)
    ensures Reduce(Decimal(negative, c * Pow10(k), x - k)) == Reduce(Decimal(negative, c, x))
  {
    if k != 0 && c != 0 {
      var d := Decimal(negative, c * Pow10(k), x - k);
      assert d.coefficient == 10 * (c * Pow10(k - 1));
      assert d.coefficient / 10 == c * Pow10(k - 1) && d.coefficient % 10 == 0;
      ReduceScaled(negative, c, x, k - 1);
    }
  }

  lemma NumEqOrdered(a: Decimal, b: Decimal)
    requires a.exponent >= b.exponent
    ensures NumEq(a, b) <==> Signed(a) * Pow10(a.exponent - b.exponent) == Signed(b)
  {
    assert Pow10(0) == 1;
  }

  lemma ReduceOrdered(a: Decimal, b: Decimal)
    requires a.exponent >= b.exponent && NumEq(a, b)
    ensures Reduce(a) == Reduce(b)
  {
    hide NumEq, Pow10;
    var k := a.exponent - b.exponent;
    NumEqOrdered(a, b);
    if a.coefficient == 0 {
      assert Signed(a) == 0 && Signed(b) == 0;
    } else {
      hide Reduce;
      ScaledIsProduct(a, b, Pow10(k));
      ReduceScaled(a.negative, a.coefficient, a.exponent, k);
      assert b == Decimal(a.negative, a.coefficient * Pow10(k), a.exponent - k);
    }
  }

  lemma ScaledIsProduct(a: Decimal, b: Decimal, p: nat)
    requires a.coefficient != 0 && p >= 1 && Signed(a) * p == Signed(b)
    ensures b.negative == a.negative && b.coefficient == a.coefficient * p
  {
    assert a.coefficient * p >= 1;
    assert Signed(a) * p == if a.negative then -(a.coefficient * p) else a.coefficient * p;
  }

  /** `d` and its reduced form are the same integer at any exponent below both. */
  lemma ReducedAt(d: Decimal, m: int)
    requires m <= d.exponent && d.coefficient != 0
    ensures m <= Reduce(d).exponent
    ensures Signed(d) * Pow10(d.exponent - m) == Signed(Reduce(d)) * Pow10(Reduce(d).exponent - m)
  {
    var r := Reduce(d);
    var k := ReduceWitness(d);
    Pow10Sum(k, d.exponent - m);
    assert Signed(d) == Signed(r) * Pow10(k);
    Reassociate(Signed(r), Pow10(k), Pow10(d.exponent - m));
  }

  lemma SameReduced(a: Decimal, b: Decimal)
    requires Reduce(a) == Reduce(b)
    ensures NumEq(a, b)
  {
    if a.coefficient != 0 {
      ReducedAt(a, Min(a.exponent, b.exponent));
      ReducedAt(b, Min(a.exponent, b.exponent));
    }
  }

  lemma Reassociate(x: int, y: int, z: int)
    ensures x * y * z == x * (y * z)
  {
  }

  /** `Reduce` decides numeric equality. */
  lemma ReduceDecides(a: Decimal, b: Decimal)
    ensures NumEq(a, b) <==> Reduce(a) == Reduce(b)
  {
    if NumEq(a, b) {
      if a.exponent >= b.exponent { ReduceOrdered(a, b); } else { ReduceOrdered(b, a); }
    }
    if Reduce(a) == Reduce(b) { SameReduced(a, b); }
  }

  lemma {:induction false} ReduceIdempotent(d: Decimal)
    ensures Reduce(Reduce(d)) == Reduce(d)
  {
    assert Reduce(d).coefficient == 0 || Reduce(d).coefficient % 10 != 0;
  }

  // -------------------------------------------------------- worth as a number

  function Scale(x: int): (s: real)
    ensures s > 0.0
  {
    if x >= 0 then Pow10(x) as real else 1.0 / Pow10(-x) as real
  }

  /** The number a decimal stands for. */
  function Worth(d: Decimal): real {
    Signed(d) as real * Scale(d.exponent)
  }

  /** A decimal without an exponent stands for its coefficient, and each step of the
      exponent for a factor of ten. */
  lemma WorthByTens(d: Decimal)
    ensures d.exponent == 0 ==> Worth(d) == if d.negative then -(d.coefficient as real) else d.coefficient as real
    ensures Worth(d.(exponent := d.exponent + 1)) == 10.0 * Worth(d)
  {
    hide Worth, Scale, Pow10, Signed;
    WorthOfWhole(d);
    WorthTimesTen(d);
  }

  lemma WorthOfWhole(d: Decimal)
    ensures d.exponent == 0 ==> Worth(d) == if d.negative then -(d.coefficient as real) else d.coefficient as real
  {
    assert Pow10(0) == 1;
  }

  lemma WorthTimesTen(d: Decimal)
    ensures Worth(d.(exponent := d.exponent + 1)) == 10.0 * Worth(d)
  {
    ScaleByTen(d.exponent);
    hide Scale, Pow10;
    RealAssociative(10.0, Scale(d.exponent), Signed(d) as real);
  }

  lemma RealProduct(i: int, j: int)
    ensures (i * j) as real == i as real * j as real
  {
  }

  lemma RealAssociative(x: real, y: real, z: real)
    ensures x * y * z == x * (y * z)
  {
  }

  lemma RealCancel(x: real, y: real, z: real)
    requires z > 0.0
    ensures x * z == y * z <==> x == y
  {
    if x < y { assert (y - x) * z > 0.0; }
    if x > y { assert (x - y) * z > 0.0; }
  }

  lemma {:induction false} ScaleUp(x: int, k: nat)
    ensures Scale(x + k) == Pow10(k) as real * Scale(x)
  {
    hide Scale;
    if k != 0 {
      ScaleUp(x, k - 1);
      ScaleByTen(x + k - 1);
      RealAssociative(10.0, Pow10(k - 1) as real, Scale(x));
      RealProduct(10, Pow10(k - 1));
    }
  }

  lemma ScaleByTen(x: int)
    ensures Scale(x + 1) == 10.0 * Scale(x)
  {
    if x < 0 {
      var p := Pow10(-x - 1) as real;
      assert Pow10(-x) as real == 10.0 * p;
      assert 10.0 * (1.0 / (10.0 * p)) == 1.0 / p;
    }
  }

  lemma WorthAt(d: Decimal, m: int)
    requires m <= d.exponent
    ensures Worth(d) == (Signed(d) * Pow10(d.exponent - m)) as real * Scale(m)
  {
    hide Scale, Pow10;
    var k := d.exponent - m;
    ScaleUp(m, k);
    RealAssociative(Signed(d) as real, Pow10(k) as real, Scale(m));
    RealProduct(Signed(d), Pow10(k));
  }

  /** Numeric equality is equality of the numbers stood for. */
  lemma NumEqIsEqualWorth(a: Decimal, b: Decimal)
    ensures NumEq(a, b) <==> Worth(a) == Worth(b)
  {
    hide Worth, Scale, Pow10;
    var m := Min(a.exponent, b.exponent);
    WorthAt(a, m);
    WorthAt(b, m);
    RealCancel((Signed(a) * Pow10(a.exponent - m)) as real, (Signed(b) * Pow10(b.exponent - m)) as real, Scale(m));
  }
}
