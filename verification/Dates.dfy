/** Calendar dates and their `full-date` text (section 5.6 of RFC 3339). */
module Dates {
  import opened Wrappers
  import opened Text
  import opened Decimals

  datatype YearMonthDay = YearMonthDay(year: nat, month: nat, day: nat)

  predicate LeapYear(year: nat) {
    year % 4 == 0 && (year % 100 != 0 || year % 400 == 0)
  }

  function DaysIn(year: nat, month: nat): nat {
    if month == 2 then (if LeapYear(year) then 29 else 28)
    else if month in {4, 6, 9, 11} then 30
    else 31
  }

  predicate IsDate(d: YearMonthDay) {
    1 <= d.year <= 9999 && 1 <= d.month <= 12 && 1 <= d.day <= DaysIn(d.year, d.month)
  }

  type Date = d: YearMonthDay | IsDate(d) witness YearMonthDay(1, 1, 1)

  /** The leap years up to and including a year. */
  function LeapYearsTo(year: nat): int {
    year / 4 - year / 100 + year / 400
  }

  lemma Multiples(n: nat, d: nat)
    requires n >= 1 && d >= 1
    ensures n / d == (n - 1) / d + if n % d == 0 then 1 else 0
  {
    var q, r := n / d, n % d;
    assert n == q * d + r;
    if r == 0 {
      assert n - 1 == (q - 1) * d + (d - 1);
      QuotientIs(n - 1, d, q - 1, d - 1);
    } else {
      QuotientIs(n - 1, d, q, r - 1);
    }
  }

  lemma QuotientIs(n: int, d: int, q: int, r: int)
    requires 0 <= r < d && n == q * d + r
    ensures n / d == q
  {
    var e, s := n / d, n % d;
    assert n == e * d + s;
    if e > q { Gap(e, q, d); }
    if e < q { Gap(q, e, d); }
  }

  /** Every fourth year is a leap year, less every hundredth, plus every four-hundredth. */
  lemma LeapYearsCount(year: nat)
    requires year >= 1
    ensures LeapYearsTo(year) == LeapYearsTo(year - 1) + if LeapYear(year) then 1 else 0
  {
    Multiples(year, 4);
    Multiples(year, 100);
    Multiples(year, 400);
    MultiplesNest(year);
    LeapsAdd(year / 4, year / 100, year / 400, (year - 1) / 4, (year - 1) / 100, (year - 1) / 400,
             year % 4 == 0, year % 100 == 0, year % 400 == 0);
  }

  lemma MultiplesNest(n: nat)
    ensures (n % 400 == 0 ==> n % 100 == 0) && (n % 100 == 0 ==> n % 4 == 0)
  {
    if n % 400 == 0 { DivisorOf(n, 4, 100); }
    if n % 100 == 0 { DivisorOf(n, 25, 4); }
  }

  lemma DivisorOf(n: nat, k: nat, d: nat)
    requires k >= 1 && d >= 1 && k * d >= 1 && n % (k * d) == 0
    ensures n % d == 0
  {
    var q := n / (k * d);
    assert n == q * (k * d) == (q * k) * d;
    QuotientIs(n, d, q * k, 0);
  }

  lemma LeapsAdd(a: int, b: int, c: int, a': int, b': int, c': int, p: bool, q: bool, r: bool)
    requires (r ==> q) && (q ==> p)
    requires a == a' + (if p then 1 else 0) && b == b' + (if q then 1 else 0) && c == c' + if r then 1 else 0
    ensures a - b + c == a' - b' + c' + if p && (!q || r) then 1 else 0
  {
  }

  /** The days of a year before a month begins. */
  function DaysBefore(year: nat, month: nat): int {
    if month <= 1 then 0 else DaysBefore(year, month - 1) + DaysIn(year, month - 1)
  }

  /** The months' lengths add up, in quarters, to a year of 365 or 366 days. */
  lemma MonthsAddUp(year: nat)
    ensures var leap := if LeapYear(year) then 1 else 0;
            && DaysBefore(year, 2) == 31 && DaysBefore(year, 3) == 59 + leap && DaysBefore(year, 4) == 90 + leap
            && DaysBefore(year, 5) == 120 + leap && DaysBefore(year, 6) == 151 + leap
            && DaysBefore(year, 7) == 181 + leap && DaysBefore(year, 8) == 212 + leap
            && DaysBefore(year, 9) == 243 + leap && DaysBefore(year, 10) == 273 + leap
            && DaysBefore(year, 11) == 304 + leap && DaysBefore(year, 12) == 334 + leap
            && DaysBefore(year, 13) == 365 + leap
  {
    assert DaysBefore(year, 3) == DaysBefore(year, 2) + DaysIn(year, 2);
    assert DaysBefore(year, 5) == DaysBefore(year, 4) + DaysIn(year, 4);
    assert DaysBefore(year, 7) == DaysBefore(year, 6) + DaysIn(year, 6);
    assert DaysBefore(year, 9) == DaysBefore(year, 8) + DaysIn(year, 8);
    assert DaysBefore(year, 11) == DaysBefore(year, 10) + DaysIn(year, 10);
  }

  /** Dates compare year first, then month, then day. */
  predicate Before(a: Date, b: Date) {
    a.year < b.year || (a.year == b.year && (a.month < b.month || (a.month == b.month && a.day < b.day)))
  }

  /** A number that orders dates. */
  function Ordinal(d: Date): int {
    10000 * d.year + 100 * d.month + d.day
  }

  lemma OrdinalOrders(a: Date, b: Date)
    ensures Before(a, b) <==> Ordinal(a) < Ordinal(b)
    ensures Ordinal(a) == Ordinal(b) <==> a == b
  {
  }

  /** `n` in exactly `width` digits. */
  function Pad(n: nat, width: nat): string {
    var digits := Digits(n);
    Zeros(if |digits| <= width then width - |digits| else 0) + digits
  }

  /** `date.isoformat`. */
  function IsoFormat(d: Date): string {
    Pad(d.year, 4) + "-" + Pad(d.month, 2) + "-" + Pad(d.day, 2)
  }

  /** Reading a `full-date`. */
  function FromIso(t: string): Option<Date> {
    if |t| == 10 && t[4] == '-' && t[7] == '-' && AllDigits(t[..4]) && AllDigits(t[5..7]) && AllDigits(t[8..]) then
      var d := YearMonthDay(ValueOf(t[..4]), ValueOf(t[5..7]), ValueOf(t[8..]));
      if IsDate(d) then Some(d) else None
    else None
  }

  lemma PadReads(n: nat, width: nat)
    requires width >= 1 && n < Pow10(width)
    ensures var t := Pad(n, width); |t| == width && AllDigits(t) && ValueOf(t) == n
  {
    hide ValueOf;
    DigitCount(n, width);
    ValueOfPadded(width - |Digits(n)|, Digits(n));
    ValueOfDigits(n);
  }

  lemma {:induction false} PadOfValue(t: string)
    requires t != [] && AllDigits(t)
    ensures Pad(ValueOf(t), |t|) == t && ValueOf(t) < Pow10(|t|)
  {
    var n := |t| - 1;
    var high, low := ValueOf(t[..n]), DigitValue(t[n]);
    assert t == t[..n] + [t[n]];
    if n > 0 {
      PadOfValue(t[..n]);
      PadShift(high, low, n);
    } else {
      assert ValueOf(t) == low && Digits(low) == [t[0]];
      assert Zeros(0) + Digits(low) == t;
    }
  }

  lemma PadShift(high: nat, low: nat, n: nat)
    requires n >= 1 && low < 10 && high < Pow10(n)
    ensures Pad(10 * high + low, n + 1) == Pad(high, n) + [DigitChar(low)]
  {
    DigitCount(high, n);
    if high == 0 {
      assert Zeros(n) == Zeros(n - 1) + "0";
      assert Pad(high, n) == Zeros(n);
    } else {
      assert (10 * high + low) / 10 == high && (10 * high + low) % 10 == low;
      assert Digits(10 * high + low) == Digits(high) + [DigitChar(low)];
      Associative(Zeros(n - |Digits(high)|), Digits(high), [DigitChar(low)]);
    }
  }

  lemma PowersOfTen()
    ensures Pow10(2) == 100 && Pow10(4) == 10000
  {
    assert Pow10(2) == 10 * Pow10(1);
    assert Pow10(4) == 10 * Pow10(3);
  }

  lemma FormatReads(d: Date)
    ensures FromIso(IsoFormat(d)) == Some(d)
  {
    hide Pad, ValueOf, Pow10;
    PowersOfTen();
    PadReads(d.year, 4);
    PadReads(d.month, 2);
    PadReads(d.day, 2);
    var t := IsoFormat(d);
    assert t[..4] == Pad(d.year, 4) && t[5..7] == Pad(d.month, 2) && t[8..] == Pad(d.day, 2);
  }

  /** The text is the year in four digits, the month in two and the day in two, with
      hyphens between. */
  lemma FormatParts(d: Date)
    ensures var t := IsoFormat(d);
            && |t| == 10 && t[4] == '-' && t[7] == '-' && AllDigits(t[..4]) && AllDigits(t[5..7]) && AllDigits(t[8..])
            && ValueOf(t[..4]) == d.year && ValueOf(t[5..7]) == d.month && ValueOf(t[8..]) == d.day
  {
    hide Pad, ValueOf, Pow10;
    PowersOfTen();
    PadReads(d.year, 4);
    PadReads(d.month, 2);
    PadReads(d.day, 2);
    var t := IsoFormat(d);
    assert t[..4] == Pad(d.year, 4) && t[5..7] == Pad(d.month, 2) && t[8..] == Pad(d.day, 2);
  }

  /** A reader of date texts that takes back what `isoformat` writes. What else it
      reads (`date.fromisoformat` also knows compact and week forms) is left open. */
  ghost predicate Inverts(parse: string -> Option<Date>) {
    forall d: Date :: parse(IsoFormat(d)) == Some(d)
  }

  lemma FullDateInverts()
    ensures Inverts(FromIso)
  {
    hide FromIso, IsoFormat;
    forall d: Date
      ensures FromIso(IsoFormat(d)) == Some(d)
    {
      FormatReads(d);
    }
  }

  /** Two dates are written alike exactly when they are the same date. */
  lemma IsoInjective(a: Date, b: Date)
    ensures IsoFormat(a) == IsoFormat(b) <==> a == b
  {
    hide FromIso, IsoFormat;
    FormatReads(a);
    FormatReads(b);
  }

  /** Among the `full-date` texts, the one `isoformat` writes for `d` is the only
      one that denotes `d`. */
  lemma IsoCanonical(t: string, d: Date)
    ensures FromIso(t) == Some(d) <==> t == IsoFormat(d)
  {
    hide Pad, ValueOf, Pow10;
    FormatReads(d);
    if FromIso(t) == Some(d) {
      PadOfValue(t[..4]);
      PadOfValue(t[5..7]);
      PadOfValue(t[8..]);
      assert t == t[..4] + "-" + t[5..7] + "-" + t[8..];
    }
  }
}
