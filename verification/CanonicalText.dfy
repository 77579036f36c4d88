/** The text a decimal contributes to an ETag (`_json_default`): normalize under
    the context precision, show integers without an exponent, and strip the
    fraction's trailing zeros. `prec` is the precision of the decimal context. */
module CanonicalText {
  import opened Wrappers
  import opened Text
  import opened Decimals

  /** Quotient and remainder. */
  function DivMod(n: nat, p: nat): (qr: (nat, nat))
    requires p >= 1
    ensures n == qr.0 * p + qr.1 && qr.1 < p
  {
    (n / p, n % p)
  }

  /** `c` divided by 10^k, rounded half to even. */
  function RoundHalfEven(c: nat, k: nat): nat {
    var p := Pow10(k);
    var (q, r) := DivMod(c, p);
    if 2 * r > p || (2 * r == p && q % 2 == 1) then q + 1 else q
  }

  /** It is the nearest multiple, and the even one of two that are equally near. */
  lemma RoundsHalfEven(c: nat, k: nat)
    ensures var r, p: int := RoundHalfEven(c, k), Pow10(k);
            -p <= 2 * (r * p - c) <= p && (2 * (r * p - c) in {-p, p} ==> r % 2 == 0)
  {
    hide Pow10;
    var p := Pow10(k);
    var (q, r) := DivMod(c, p);
    assert (q + 1) * p == q * p + p;
  }

  /** Rounding to the context precision. (A carry into one more digit leaves a
      trailing zero, which `Normalize` strips.) */
  function Fix(d: Decimal, prec: nat): Decimal
    requires prec >= 1
  {
    var n := |Digits(d.coefficient)|;
    if n <= prec then d
    else Decimal(d.negative, RoundHalfEven(d.coefficient, n - prec), d.exponent + n - prec)
  }

  /** `Decimal.normalize`: round, then strip trailing zeros; a zero keeps its sign. */
  function Normalize(d: Decimal, prec: nat): Decimal
    requires prec >= 1
  {
    var r := Fix(d, prec);
    if r.coefficient == 0 then Decimal(r.negative, 0, 0) else Reduce(r)
  }

  function ToIntegral(d: Decimal): Decimal {
    if d.exponent >= 0 then d else Decimal(d.negative, RoundHalfEven(d.coefficient, -d.exponent), 0)
  }

  /** `format(d, "f")`. */
  function Fixed(d: Decimal): string {
    SignText(d.negative)
    + if d.exponent < 0 then Pointed(Digits(d.coefficient), -d.exponent)
      else Digits(d.coefficient) + (if d.coefficient == 0 then "" else Zeros(d.exponent))
  }

  function RStrip(t: string, c: char): string {
    if t != [] && t[|t| - 1] == c then RStrip(t[..|t| - 1], c) else t
  }

  function JsonText(d: Decimal, prec: nat): string
    requires prec >= 1
  {
    var v := Normalize(d, prec);
    if v.coefficient == 0 then "0"
    else if NumEq(v, ToIntegral(v)) then Fixed(ToIntegral(v))
    else RStrip(RStrip(Fixed(v), '0'), '.')
  }

  // ------------------------------------------------ the text of a reduced value

  function Shown(r: Decimal): string {
    if r.coefficient == 0 then "0" else Fixed(r)
  }

  lemma ReducedExponent(d: Decimal)
    requires d.coefficient != 0
    ensures Reduce(d).exponent >= d.exponent
  {
    var _ := ReduceWitness(d);
  }

  lemma IntegralTest(v: Decimal)
    requires v.coefficient != 0 && Reduce(v) == v
    ensures NumEq(v, ToIntegral(v)) <==> v.exponent >= 0
  {
    hide NumEq, RoundHalfEven;
    ReduceDecides(v, ToIntegral(v));
    if v.exponent < 0 && ToIntegral(v).coefficient != 0 {
      ReducedExponent(ToIntegral(v));
    }
  }

  lemma FractionKept(v: Decimal)
    requires v.coefficient % 10 != 0 && v.exponent < 0
    ensures RStrip(RStrip(Fixed(v), '0'), '.') == Fixed(v)
  {
    var digits := Digits(v.coefficient);
    assert digits[|digits| - 1] == DigitChar(v.coefficient % 10);
    var t := Fixed(v);
    assert t[|t| - 1] == digits[|digits| - 1];
  }

  lemma TextIsShown(d: Decimal, prec: nat)
    requires prec >= 1
    ensures JsonText(d, prec) == Shown(Reduce(Fix(d, prec)))
  {
    hide Fix, Fixed, NumEq, RStrip;
    var r := Reduce(Fix(d, prec));
    if r.coefficient != 0 {
      ReduceIdempotent(Fix(d, prec));
      IntegralTest(r);
      if r.exponent < 0 {
        FractionKept(r);
      }
    }
  }

  lemma ParseWhole(digits: string)
    requires digits != [] && AllDigits(digits)
    ensures ParseUnsigned(digits) == Some((ValueOf(digits), 0))
  {
    hide ParseUnsigned, ValueOf;
    ParsePointed(digits, 0);
  }

  lemma ReadShown(r: Decimal)
    requires Reduce(r) == r
    ensures ToNumber(Shown(r)).Some? && NumEq(ToNumber(Shown(r)).value, r)
  {
    hide NumEq, ParseUnsigned, ValueOf, Reduce, Pow10;
    var digits := Digits(r.coefficient);
    ValueOfDigits(r.coefficient);
    if r.coefficient == 0 {
      ParseWhole("0");
      ParseWithSign(false, "0");
      ReduceDecides(ToNumber("0").value, r);
      ZeroReduces();
    } else if r.exponent < 0 {
      PointedPlain(digits, -r.exponent);
      ParsePointed(digits, -r.exponent);
      ParseWithSign(r.negative, Pointed(digits, -r.exponent));
      ReduceDecides(r, r);
    } else {
      ValueOfConcat(digits, Zeros(r.exponent));
      ValueOfZeros(r.exponent);
      ParseWhole(digits + Zeros(r.exponent));
      ParseWithSign(r.negative, digits + Zeros(r.exponent));
      var d := Decimal(r.negative, r.coefficient * Pow10(r.exponent), 0);
      assert ToNumber(Shown(r)).value == d;
      ReduceScaled(r.negative, r.coefficient, r.exponent, r.exponent);
      ReduceDecides(d, r);
    }
  }

  lemma ZeroReduces()
    ensures ValueOf("0") == 0
    ensures forall d: Decimal | d.coefficient == 0 :: Reduce(d) == Decimal(false, 0, 0)
  {
  }

  // ------------------------------------------------------- rounding and scaling

  lemma SameQuotient(p: nat, q: nat, r: nat, q': nat, r': nat)
    requires q * p + r == q' * p + r' && r < p && r' < p
    ensures q == q' && r == r'
  {
    if q > q' { Gap(q, q', p); }
    if q < q' { Gap(q', q, p); }
  }

  lemma DivModUnique(n: nat, p: nat, q: nat, r: nat)
    requires p >= 1 && n == q * p + r && r < p
    ensures DivMod(n, p) == (q, r)
  {
    hide DivMod;
    var (q', r') := DivMod(n, p);
    SameQuotient(p, q, r, q', r');
  }

  lemma RoundScaled(c: nat, i: nat, k: nat)
    ensures RoundHalfEven(c * Pow10(k), i + k) == RoundHalfEven(c, i)
  {
    hide Pow10, DivMod;
    var p, s := Pow10(i), Pow10(k);
    var (q, r) := DivMod(c, p);
    Pow10Sum(i, k);
    ScaledDivision(c, p, s);
    Reassociate(2, r, s);
    Cancel(2 * r, p, s);
  }

  lemma ScaledDivision(c: nat, p: nat, s: nat)
    requires p >= 1 && s >= 1
    ensures p * s >= 1 && DivMod(c * s, p * s) == (DivMod(c, p).0, DivMod(c, p).1 * s)
  {
    hide DivMod;
    var (q, r) := DivMod(c, p);
    Reassociate(q, p, s);
    Cancel(r, p, s);
    assert c * s == q * (p * s) + r * s;
    assert p * s >= 1;
    DivModUnique(c * s, p * s, q, r * s);
  }

  lemma Cancel(x: nat, y: nat, s: nat)
    requires s >= 1
    ensures x * s < y * s <==> x < y
    ensures x * s == y * s <==> x == y
  {
    if x < y { assert (y - x) * s >= 1; }
    if x > y { assert (x - y) * s >= 1; }
  }

  lemma RoundExact(c: nat, k: nat)
    ensures RoundHalfEven(c * Pow10(k), k) == c
  {
    DivModUnique(c * Pow10(k), Pow10(k), c, 0);
  }

  lemma DigitsTimesTen(n: nat)
    requires n != 0
    ensures |Digits(10 * n)| == |Digits(n)| + 1
  {
    assert (10 * n) / 10 == n;
  }

  lemma {:induction false} DigitsScaled(c: nat, k: nat)
    requires c != 0
    ensures |Digits(c * Pow10(k))| == |Digits(c)| + k
  {
    if k != 0 {
      DigitsScaled(c, k - 1);
      var n := c * Pow10(k - 1);
      Reassociate(10, Pow10(k - 1), c);
      assert c * Pow10(k) == 10 * n;
      DigitsTimesTen(n);
    }
  }

  lemma FixOfLong(negative: bool, c: nat, x: int, k: nat, prec: nat)
    requires c != 0 && 1 <= prec < |Digits(c)|
    ensures Fix(Decimal(negative, c * Pow10(k), x - k), prec) == Fix(Decimal(negative, c, x), prec)
  {
    hide RoundHalfEven, Digits, Pow10;
    DigitsScaled(c, k);
    RoundScaled(c, |Digits(c)| - prec, k);
  }

  lemma SplitPower(c: nat, k: nat, j: nat)
    requires j <= k
    ensures c * Pow10(k) == c * Pow10(k - j) * Pow10(j)
  {
    hide Pow10;
    Pow10Sum(k - j, j);
    Reassociate(c, Pow10(k - j), Pow10(j));
  }

  /** A number that fits is rounded to itself, also when it is written with more
      trailing zeros than the precision has room for. */
  lemma FixOfShort(negative: bool, c: nat, x: int, k: nat, prec: nat)
    requires c != 0 && prec >= 1 && |Digits(c)| <= prec
    ensures Reduce(Fix(Decimal(negative, c * Pow10(k), x - k), prec)) == Reduce(Decimal(negative, c, x))
  {
    hide RoundHalfEven, Digits, Pow10, Reduce;
    DigitsScaled(c, k);
    var d := Decimal(negative, c * Pow10(k), x - k);
    if |Digits(c)| + k <= prec {
      ReduceScaled(negative, c, x, k);
    } else {
      var j := |Digits(c)| + k - prec;
      SplitPower(c, k, j);
      RoundExact(c * Pow10(k - j), j);
      assert Fix(d, prec) == Decimal(negative, c * Pow10(k - j), x - k + j);
      ReduceScaled(negative, c, x, k - j);
    }
  }

  /** Rounding depends on the number, not on how it is represented. */
  lemma FixRespectsReduce(d: Decimal, prec: nat)
    requires prec >= 1
    ensures Reduce(Fix(d, prec)) == Reduce(Fix(Reduce(d), prec))
  {
    var r := Reduce(d);
    if d.coefficient == 0 {
      assert Fix(r, prec) == r && Fix(d, prec) == d;
    } else {
      var k := ReduceWitness(d);
      SignKept(d);
      assert r == Decimal(d.negative, r.coefficient, r.exponent);
      assert d == Decimal(d.negative, r.coefficient * Pow10(k), r.exponent - k);
      hide Reduce, Pow10, Digits, Fix;
      if |Digits(r.coefficient)| > prec {
        FixOfLong(d.negative, r.coefficient, r.exponent, k, prec);
      } else {
        FixOfShort(d.negative, r.coefficient, r.exponent, k, prec);
        FixOfFitting(r, prec);
      }
    }
  }

  lemma FixOfFitting(d: Decimal, prec: nat)
    requires prec >= 1 && |Digits(d.coefficient)| <= prec
    ensures Fix(d, prec) == d
  {
  }

  lemma SignKept(d: Decimal)
    requires d.coefficient != 0
    ensures Reduce(d).negative == d.negative
  {
  }

  /** The digits that remain when a decimal is written without trailing zeros. */
  function SignificantDigits(d: Decimal): nat {
    |Digits(Reduce(d).coefficient)|
  }

  lemma FixIsExactWhenItFits(d: Decimal, prec: nat)
    requires prec >= 1
    ensures NumEq(Fix(d, prec), d) <==> SignificantDigits(d) <= prec
  {
    var r := Reduce(d);
    ReduceDecides(Fix(d, prec), d);
    FixRespectsReduce(d, prec);
    ReduceIdempotent(d);
    hide NumEq, RoundHalfEven;
    if SignificantDigits(d) > prec && Fix(r, prec).coefficient != 0 {
      ReducedExponent(Fix(r, prec));
    }
  }

  // --------------------------------------------------------------- main results

  /** Reading the text back gives the number rounded to the context precision;
      it gives the original number exactly when that number fits the precision. */
  lemma ReadBack(d: Decimal, prec: nat)
    requires prec >= 1
    ensures ToNumber(JsonText(d, prec)).Some?
    ensures NumEq(ToNumber(JsonText(d, prec)).value, Fix(d, prec))
    ensures NumEq(ToNumber(JsonText(d, prec)).value, d) <==> SignificantDigits(d) <= prec
  {
    hide NumEq, Fix, JsonText, Shown, ToNumber, SignificantDigits;
    var r := Reduce(Fix(d, prec));
    TextIsShown(d, prec);
    ReduceIdempotent(Fix(d, prec));
    ReadShown(r);
    var read := ToNumber(Shown(r)).value;
    ReduceDecides(read, r);
    ReduceDecides(read, Fix(d, prec));
    ReduceDecides(read, d);
    ReduceDecides(Fix(d, prec), d);
    FixIsExactWhenItFits(d, prec);
  }

  /** Equal numbers always have the same text, whatever their representation. */
  lemma EqualNumbersSameText(a: Decimal, b: Decimal, prec: nat)
    requires prec >= 1 && NumEq(a, b)
    ensures JsonText(a, prec) == JsonText(b, prec)
  {
    hide NumEq, Fix, JsonText, Shown;
    ReduceDecides(a, b);
    FixRespectsReduce(a, prec);
    FixRespectsReduce(b, prec);
    TextIsShown(a, prec);
    TextIsShown(b, prec);
  }

  /** Exactly when two decimals share a text: when they round to equal numbers under
      the context precision. */
  lemma SameTextIff(a: Decimal, b: Decimal, prec: nat)
    requires prec >= 1
    ensures JsonText(a, prec) == JsonText(b, prec) <==> NumEq(Fix(a, prec), Fix(b, prec))
  {
    hide NumEq, Fix, JsonText, Shown, ToNumber, SignificantDigits;
    var x, y := Fix(a, prec), Fix(b, prec);
    ReduceDecides(x, y);
    TextIsShown(a, prec);
    TextIsShown(b, prec);
    if JsonText(a, prec) == JsonText(b, prec) {
      ReadBack(a, prec);
      ReadBack(b, prec);
      var read := ToNumber(JsonText(a, prec)).value;
      ReduceDecides(read, x);
      ReduceDecides(read, y);
    }
  }

  /** Within the context precision the text is canonical: two decimals share it
      exactly when they are equal as numbers. */
  lemma Canonical(a: Decimal, b: Decimal, prec: nat)
    requires prec >= 1 && SignificantDigits(a) <= prec && SignificantDigits(b) <= prec
    ensures JsonText(a, prec) == JsonText(b, prec) <==> NumEq(a, b)
  {
    hide NumEq, JsonText, ToNumber, SignificantDigits;
    if NumEq(a, b) {
      EqualNumbersSameText(a, b, prec);
    }
    if JsonText(a, prec) == JsonText(b, prec) {
      ReadBack(a, prec);
      ReadBack(b, prec);
      var read := ToNumber(JsonText(a, prec)).value;
      ReduceDecides(read, a);
      ReduceDecides(read, b);
      ReduceDecides(a, b);
    }
  }

  /** Beyond the precision it is not: 10^p + 1 and 10^p share a text. */
  lemma AmbiguousBeyondPrecision(prec: nat)
    requires prec >= 1
    ensures var a, b := Decimal(false, Pow10(prec) + 1, 0), Decimal(false, Pow10(prec), 0);
            JsonText(a, prec) == JsonText(b, prec) && !NumEq(a, b)
  {
    hide Fix, JsonText, NumEq, Pow10;
    FixDropsOneDigit(0, prec);
    FixDropsOneDigit(1, prec);
    SameFixSameText(Decimal(false, Pow10(prec) + 1, 0), Decimal(false, Pow10(prec), 0), prec);
    Neighbours(Pow10(prec));
  }

  lemma SameFixSameText(a: Decimal, b: Decimal, prec: nat)
    requires prec >= 1 && Fix(a, prec) == Fix(b, prec)
    ensures JsonText(a, prec) == JsonText(b, prec)
  {
    hide Fix, JsonText, Shown;
    TextIsShown(a, prec);
    TextIsShown(b, prec);
  }

  lemma Neighbours(c: nat)
    ensures !NumEq(Decimal(false, c + 1, 0), Decimal(false, c, 0))
  {
    assert Pow10(0) == 1;
  }

  lemma FixDropsOneDigit(low: nat, prec: nat)
    requires prec >= 1 && low <= 1
    ensures Fix(Decimal(false, Pow10(prec) + low, 0), prec) == Decimal(false, Pow10(prec - 1), 1)
  {
    var c := Pow10(prec) + low;
    DigitCount(c, prec);
    DigitCount(c, prec + 1);
    RoundOneDigit(Pow10(prec - 1), low);
  }

  lemma RoundOneDigit(q: nat, low: nat)
    requires low <= 1
    ensures RoundHalfEven(10 * q + low, 1) == q
  {
    assert Pow10(1) == 10 * Pow10(0);
    DivModUnique(10 * q + low, 10, q, low);
  }

  /** A whole part without leading zeros, and a fraction that is absent or does
      not end in zero. */
  predicate PlainUnsigned(u: string) {
    var p := IndexOf(u, {'.'});
    var whole := u[..p];
    && whole != [] && AllDigits(whole) && (whole[0] == '0' ==> |whole| == 1)
    && (p < |u| ==> var fraction := u[p + 1..];
                    fraction != [] && AllDigits(fraction) && fraction[|fraction| - 1] != '0')
  }

  /** That, after an optional minus; and no negative zero. */
  predicate PlainForm(t: string) {
    PlainUnsigned(if t != [] && t[0] == '-' then t[1..] else t) && t != "-0"
  }

  lemma PlainText(d: Decimal, prec: nat)
    requires prec >= 1
    ensures PlainForm(JsonText(d, prec))
  {
    var r := Reduce(Fix(d, prec));
    TextIsShown(d, prec);
    ShownIsPlain(r);
  }

  lemma PlainWhole(whole: string)
    requires whole != [] && AllDigits(whole) && (whole[0] == '0' ==> |whole| == 1)
    ensures PlainUnsigned(whole)
  {
    FirstAfter(whole, "", {'.'});
    hide IndexOf;
    assert whole + "" == whole;
  }

  lemma PlainFraction(whole: string, fraction: string)
    requires whole != [] && AllDigits(whole) && (whole[0] == '0' ==> |whole| == 1)
    requires fraction != [] && AllDigits(fraction) && fraction[|fraction| - 1] != '0'
    ensures PlainUnsigned(whole + "." + fraction)
  {
    hide IndexOf;
    Associative(whole, ".", fraction);
    FirstAfter(whole, "." + fraction, {'.'});
    assert ("." + fraction)[1..] == fraction;
  }

  lemma PlainWithSign(negative: bool, u: string)
    requires PlainUnsigned(u) && u != [] && u[0] != '-' && u != "0"
    ensures PlainForm(SignText(negative) + u)
  {
    hide PlainUnsigned;
    var t := SignText(negative) + u;
    assert (if t[0] == '-' then t[1..] else t) == u;
  }

  lemma ShownIsPlain(r: Decimal)
    requires r.coefficient == 0 || r.coefficient % 10 != 0
    ensures PlainForm(Shown(r))
  {
    hide PlainForm, PlainUnsigned, IndexOf, Digits;
    var digits := Digits(r.coefficient);
    if r.coefficient == 0 {
      PlainZero();
    } else {
      LastDigit(r.coefficient);
      if r.exponent >= 0 {
        PlainWhole(digits + Zeros(r.exponent));
        PlainWithSign(r.negative, digits + Zeros(r.exponent));
      } else if |digits| > -r.exponent {
        PlainFraction(digits[..|digits| + r.exponent], digits[|digits| + r.exponent..]);
        PlainWithSign(r.negative, Pointed(digits, -r.exponent));
      } else {
        var k := -r.exponent - |digits|;
        PlainFraction("0", Zeros(k) + digits);
        assert "0" + "." == "0.";
        Associative("0.", Zeros(k), digits);
        PlainWithSign(r.negative, Pointed(digits, -r.exponent));
      }
    }
  }

  lemma LastDigit(n: nat)
    requires n % 10 != 0
    ensures var t := Digits(n); t[|t| - 1] != '0' && t[0] != '0'
  {
  }

  lemma PlainZero()
    ensures PlainForm("0")
  {
    PlainWhole("0");
  }
}
