/** Differences as the decimal context computes them: exact, then rounded to the
    context precision. What of the zero-filled deltas survives the rounding. */
module RoundedDeltas {
  import opened Wrappers
  import opened Decimals
  import opened CanonicalText
  import opened Payloads

  /** The exact difference, at the smaller exponent. */
  function Minus(a: Decimal, b: Decimal): Decimal {
    var m := Min(a.exponent, b.exponent);
    var n := Signed(a) * Pow10(a.exponent - m) - Signed(b) * Pow10(b.exponent - m);
    Decimal(n < 0, if n < 0 then -n else n, m)
  }

  /** `a - b` under the context precision. */
  function Subtract(a: Decimal, b: Decimal, prec: nat): Decimal
    requires prec >= 1
  {
    Fix(Minus(a, b), prec)
  }

  lemma RealDistributes(x: int, y: int, s: real)
    ensures (x - y) as real * s == x as real * s - y as real * s
  {
  }

  lemma MinusIsDifference(a: Decimal, b: Decimal)
    ensures Worth(Minus(a, b)) == Worth(a) - Worth(b)
  {
    hide Scale, Pow10;
    var m := Min(a.exponent, b.exponent);
    WorthAt(a, m);
    WorthAt(b, m);
    RealDistributes(Signed(a) * Pow10(a.exponent - m), Signed(b) * Pow10(b.exponent - m), Scale(m));
  }

  /** A difference is exact exactly when its digits fit the precision. */
  lemma SubtractIsExactIff(a: Decimal, b: Decimal, prec: nat)
    requires prec >= 1
    ensures Worth(Subtract(a, b, prec)) == Worth(a) - Worth(b) <==> SignificantDigits(Minus(a, b)) <= prec
  {
    hide Worth, Fix, SignificantDigits, Minus;
    MinusIsDifference(a, b);
    FixIsExactWhenItFits(Minus(a, b), prec);
    NumEqIsEqualWorth(Subtract(a, b, prec), Minus(a, b));
  }

  lemma RoundingKeepsNonZero(c: nat, k: nat)
    requires c >= Pow10(k)
    ensures RoundHalfEven(c, k) != 0
  {
    var p := Pow10(k);
    var (q, r) := DivMod(c, p);
    assert c == q * p + r;
  }

  lemma FixZeroIff(d: Decimal, prec: nat)
    requires prec >= 1
    ensures Fix(d, prec).coefficient == 0 <==> d.coefficient == 0
  {
    hide RoundHalfEven, Digits, Pow10;
    var n := |Digits(d.coefficient)|;
    if n > prec {
      DigitCount(d.coefficient, n - prec);
      RoundingKeepsNonZero(d.coefficient, n - prec);
      DigitCount(0, 1);
      OneDigitZero();
    }
  }

  lemma OneDigitZero()
    ensures |Digits(0)| == 1
  {
  }

  /** Rounding never hides a change or invents one: the rounded difference is zero
      exactly when the values are equal, so the reported metrics and the changed count
      do not depend on the precision. */
  lemma RoundingKeepsChanges(a: Decimal, b: Decimal, prec: nat)
    requires prec >= 1
    ensures Subtract(a, b, prec).coefficient == 0 <==> NumEq(a, b)
  {
    hide Pow10, Fix;
    FixZeroIff(Minus(a, b), prec);
  }

  /** Swapping the operands negates the rounded difference. */
  lemma SwapNegatesRounded(a: Decimal, b: Decimal, prec: nat)
    requires prec >= 1
    ensures var d, e := Subtract(a, b, prec), Subtract(b, a, prec);
            && d.coefficient == e.coefficient && d.exponent == e.exponent
            && (d.coefficient != 0 ==> d.negative != e.negative)
  {
    hide Pow10, RoundHalfEven, Digits;
    FixZeroIff(Minus(a, b), prec);
  }

  // ----------------------------------------------------------------- version chains

  type Chain = seq<Option<Payload>>

  /** The reported amount of a metric; zero without one. */
  function AmountOf(p: Option<Payload>, m: Metric): Decimal {
    if p.Some? && m in p.value.coreMetrics then p.value.coreMetrics[m] else Decimal(false, 0, 0)
  }

  function Difference(p: Option<Payload>, q: Option<Payload>, m: Metric): Decimal {
    Minus(AmountOf(q, m), AmountOf(p, m))
  }

  function RoundedChange(p: Option<Payload>, q: Option<Payload>, m: Metric, prec: nat): real
    requires prec >= 1
  {
    Worth(Subtract(AmountOf(q, m), AmountOf(p, m), prec))
  }

  predicate HopFits(p: Option<Payload>, q: Option<Payload>, m: Metric, prec: nat) {
    SignificantDigits(Difference(p, q, m)) <= prec
  }

  function RoundedHopSum(chain: Chain, m: Metric, prec: nat): real
    requires prec >= 1
  {
    if |chain| < 2 then 0.0
    else RoundedHopSum(chain[..|chain| - 1], m, prec) + RoundedChange(chain[|chain| - 2], chain[|chain| - 1], m, prec)
  }

  lemma {:induction false} FittingHopsAreExact(chain: Chain, m: Metric, prec: nat)
    requires prec >= 1 && chain != []
    requires forall i | 0 < i < |chain| :: HopFits(chain[i - 1], chain[i], m, prec)
    ensures RoundedHopSum(chain, m, prec) == Worth(AmountOf(chain[|chain| - 1], m)) - Worth(AmountOf(chain[0], m))
  {
    hide Worth, Subtract, Minus, SignificantDigits, AmountOf;
    if |chain| > 1 {
      var n := |chain| - 1;
      FittingHopsAreExact(chain[..n], m, prec);
      SubtractIsExactIff(AmountOf(chain[n], m), AmountOf(chain[n - 1], m), prec);
      assert HopFits(chain[n - 1], chain[n], m, prec);
    }
  }

  /** When every hop of a chain fits the precision, the rounded hop differences add up
      to the rounded direct difference exactly when that fits the precision too. */
  lemma RoundedHopsAddUpIff(chain: Chain, m: Metric, prec: nat)
    requires prec >= 1 && chain != []
    requires forall i | 0 < i < |chain| :: HopFits(chain[i - 1], chain[i], m, prec)
    ensures RoundedHopSum(chain, m, prec) == RoundedChange(chain[0], chain[|chain| - 1], m, prec)
            <==> HopFits(chain[0], chain[|chain| - 1], m, prec)
  {
    hide Worth, Subtract, Minus, SignificantDigits, AmountOf;
    FittingHopsAreExact(chain, m, prec);
    SubtractIsExactIff(AmountOf(chain[|chain| - 1], m), AmountOf(chain[0], m), prec);
  }

  function Abs(x: real): real {
    if x < 0.0 then -x else x
  }

  /** Half a unit in the last place of a rounded number; nothing when it fits. */
  function HalfUnit(d: Decimal, prec: nat): real {
    if SignificantDigits(d) <= prec then 0.0
    else Scale(d.exponent + |Digits(d.coefficient)| - prec) / 2.0
  }

  lemma FixOfLongIs(d: Decimal, prec: nat)
    requires prec >= 1 && SignificantDigits(d) > prec
    ensures var k := |Digits(d.coefficient)| - prec;
            k > 0 && Fix(d, prec) == Decimal(d.negative, RoundHalfEven(d.coefficient, k), d.exponent + k)
  {
    hide NumEq, SignificantDigits;
    FixIsExactWhenItFits(d, prec);
    NumEqIsEqualWorth(d, d);
  }

  lemma HalfTimes(e: int, p: int, s: real, error: real, unit: real)
    requires -p <= 2 * e <= p && s > 0.0 && error == e as real * s && unit == p as real * s
    ensures Abs(error) <= unit / 2.0
  {
    assert (p - 2 * e) as real * s >= 0.0 && (p + 2 * e) as real * s >= 0.0;
  }

  lemma SignedGap(negative: bool, r: nat, c: nat, x: int, k: nat)
    ensures var e := Signed(Decimal(negative, r, x + k)) * Pow10(k) - Signed(Decimal(negative, c, x));
            e == if negative then -(r * Pow10(k) - c) else r * Pow10(k) - c
  {
    hide Pow10;
  }

  lemma WorthIs(d: Decimal)
    ensures Worth(d) == Signed(d) as real * Scale(d.exponent)
  {
  }

  lemma WorthShifted(d: Decimal, x: int, k: nat)
    requires d.exponent == x + k
    ensures Worth(d) == (Signed(d) * Pow10(k)) as real * Scale(x)
  {
    hide Worth, Scale, Pow10, Signed;
    WorthAt(d, x);
    assert d.exponent - x == k;
  }

  lemma LongErrorBound(negative: bool, r: nat, c: nat, x: int, k: nat)
    requires -(Pow10(k) as int) <= 2 * (r * Pow10(k) - c) <= Pow10(k)
    ensures Abs(Worth(Decimal(negative, r, x + k)) - Worth(Decimal(negative, c, x))) <= Scale(x + k) / 2.0
  {
    hide Worth, Scale, Pow10, Abs, Signed;
    var rounded, d := Decimal(negative, r, x + k), Decimal(negative, c, x);
    var y, z, p, s := Signed(rounded) * Pow10(k), Signed(d), Pow10(k), Scale(x);
    SignedGap(negative, r, c, x, k);
    assert -p <= 2 * (y - z) <= p;
    RealDistributes(y, z, s);
    WorthShifted(rounded, x, k);
    WorthIs(d);
    assert Worth(rounded) - Worth(d) == (y - z) as real * s;
    ScaleUp(x, k);
    HalfTimes(y - z, p, s, Worth(rounded) - Worth(d), Scale(x + k));
  }

  /** Rounding moves a number by at most half a unit. */
  lemma FixErrorBound(d: Decimal, prec: nat)
    requires prec >= 1
    ensures Abs(Worth(Fix(d, prec)) - Worth(d)) <= HalfUnit(d, prec)
  {
    hide Worth, Fix, NumEq, Scale, Pow10, RoundHalfEven, Digits, SignificantDigits;
    if SignificantDigits(d) <= prec {
      FixIsExactWhenItFits(d, prec);
      NumEqIsEqualWorth(Fix(d, prec), d);
    } else {
      FixOfLongIs(d, prec);
      var k := |Digits(d.coefficient)| - prec;
      RoundsHalfEven(d.coefficient, k);
      LongErrorBound(d.negative, RoundHalfEven(d.coefficient, k), d.coefficient, d.exponent, k);
    }
  }

  /** The half units of the hops of a chain; a hop that fits adds nothing. */
  function HalfUnits(chain: Chain, m: Metric, prec: nat): real {
    if |chain| < 2 then 0.0
    else
      HalfUnits(chain[..|chain| - 1], m, prec)
      + HalfUnit(Difference(chain[|chain| - 2], chain[|chain| - 1], m), prec)
  }

  lemma HopError(p: Option<Payload>, q: Option<Payload>, m: Metric, prec: nat)
    requires prec >= 1
    ensures Abs(RoundedChange(p, q, m, prec) - (Worth(AmountOf(q, m)) - Worth(AmountOf(p, m))))
            <= HalfUnit(Difference(p, q, m), prec)
  {
    hide Worth, Fix, HalfUnit, AmountOf, Minus;
    MinusIsDifference(AmountOf(q, m), AmountOf(p, m));
    FixErrorBound(Difference(p, q, m), prec);
  }

  /** Over any chain the rounded hop differences miss the exact change by no more than
      half a unit for each hop that does not fit the precision. */
  lemma {:induction false} RoundedHopsBound(chain: Chain, m: Metric, prec: nat)
    requires prec >= 1 && chain != []
    ensures Abs(RoundedHopSum(chain, m, prec) - (Worth(AmountOf(chain[|chain| - 1], m)) - Worth(AmountOf(chain[0], m))))
            <= HalfUnits(chain, m, prec)
  {
    hide Worth, HalfUnit, AmountOf, Difference, RoundedChange;
    if |chain| > 1 {
      var n := |chain| - 1;
      RoundedHopsBound(chain[..n], m, prec);
      HopError(chain[n - 1], chain[n], m, prec);
    }
  }

  /** So they miss the rounded direct difference by no more than those and its own. */
  lemma RoundedHopsNearDirect(chain: Chain, m: Metric, prec: nat)
    requires prec >= 1 && chain != []
    ensures var first, last := chain[0], chain[|chain| - 1];
            Abs(RoundedHopSum(chain, m, prec) - RoundedChange(first, last, m, prec))
            <= HalfUnits(chain, m, prec) + HalfUnit(Difference(first, last, m), prec)
  {
    hide Worth, HalfUnit, AmountOf, Difference, RoundedChange, RoundedHopSum, HalfUnits;
    RoundedHopsBound(chain, m, prec);
    HopError(chain[0], chain[|chain| - 1], m, prec);
  }

  function Reporting(p: Payload, m: Metric, d: Decimal): Option<Payload> {
    Some(p.(coreMetrics := map[m := d]))
  }

  function ReportingNone(p: Payload): Option<Payload> {
    Some(p.(coreMetrics := map[]))
  }

  lemma AmountsReported(p: Payload, m: Metric, d: Decimal)
    ensures AmountOf(Reporting(p, m, d), m) == d && AmountOf(ReportingNone(p), m) == Decimal(false, 0, 0)
  {
  }

  /** Fitting hops are not enough: -1, then 0, then 10^prec. */
  lemma RoundedHopsNeedNotAddUp(p: Payload, m: Metric, prec: nat)
    requires prec >= 1
    ensures var chain := [Reporting(p, m, Decimal(true, 1, 0)), ReportingNone(p),
                          Reporting(p, m, Decimal(false, Pow10(prec), 0))];
            && HopFits(chain[0], chain[1], m, prec) && HopFits(chain[1], chain[2], m, prec)
            && RoundedHopSum(chain, m, prec) != RoundedChange(chain[0], chain[2], m, prec)
  {
    hide Minus, SignificantDigits, Pow10, RoundedHopSum, RoundedChange, AmountOf, Reporting, ReportingNone;
    var low, high := Decimal(true, 1, 0), Decimal(false, Pow10(prec), 0);
    var chain := [Reporting(p, m, low), ReportingNone(p), Reporting(p, m, high)];
    AmountsReported(p, m, low);
    AmountsReported(p, m, high);
    DifferencesAre(prec);
    PowerHasOneDigit(0);
    PowerHasOneDigit(prec);
    NextHasMore(prec);
    UnitPower();
    RoundedHopsAddUpIff(chain, m, prec);
  }

  lemma DifferencesAre(prec: nat)
    ensures var zero, low, high := Decimal(false, 0, 0), Decimal(true, 1, 0), Decimal(false, Pow10(prec), 0);
            && Minus(zero, low) == Decimal(false, 1, 0)
            && Minus(high, zero) == Decimal(false, Pow10(prec), 0)
            && Minus(high, low) == Decimal(false, Pow10(prec) + 1, 0)
  {
    assert Pow10(0) == 1;
  }

  lemma PowerHasOneDigit(k: nat)
    ensures SignificantDigits(Decimal(false, Pow10(k), 0)) == 1
  {
    hide Pow10;
    assert 1 * Pow10(k) == Pow10(k);
    ReduceScaled(false, 1, k, k);
  }

  lemma NotDivisible(prec: nat)
    requires prec >= 1
    ensures (Pow10(prec) + 1) % 10 == 1
  {
    TensAndOne(Pow10(prec - 1));
  }

  lemma TensAndOne(n: nat)
    ensures (10 * n + 1) % 10 == 1
  {
  }

  lemma NextHasMore(prec: nat)
    requires prec >= 1
    ensures SignificantDigits(Decimal(false, Pow10(prec) + 1, 0)) > prec
  {
    hide Digits, Pow10;
    var c := Pow10(prec) + 1;
    NotDivisible(prec);
    DigitCount(c, prec);
  }
}
