/** The fundamentals panel: one point a payload, in a fixed order, served in pages. */
module Fundamentals {
  import opened Wrappers
  import opened Text
  import opened Sorting
  import opened Decimals
  import opened Dates
  import opened Payloads
  import opened CanonicalText

  datatype Point = Point(
    cik: string,
    statementType: StatementType,
    accountingStandard: AccountingStandard,
    statementDate: Date,
    fiscalYear: int,
    fiscalPeriod: FiscalPeriod,
    currency: string,
    metrics: map<Metric, Decimal>,
    sequence: int)

  /** What the constructor of a point checks. */
  predicate PointValid(p: Point) {
    Strip(p.cik) != "" && p.fiscalYear > 0 && Strip(p.currency) != "" && p.sequence > 0
  }

  datatype Error = ValueError

  /** The requested metrics of a payload that it has; all of them without a filter. */
  function Values(p: Payload, filter: Option<seq<Metric>>): map<Metric, Decimal> {
    map m | m in p.coreMetrics && (filter.None? || m in filter.value) :: p.coreMetrics[m]
  }

  function PointOf(filter: Option<seq<Metric>>): Payload -> Point {
    (p: Payload) =>
      Point(p.cik, p.statementType, p.accountingStandard, p.statementDate, p.fiscalYear, p.fiscalPeriod, p.currency,
            Values(p, filter), p.sourceVersionSequence)
  }

  datatype PanelKey = PanelKey(cik: string, date: int, fiscalYear: int, period: string, sequence: int)

  function KeyOf(p: Point): PanelKey {
    PanelKey(p.cik, Ordinal(p.statementDate), p.fiscalYear, FiscalPeriodCode(p.fiscalPeriod), p.sequence)
  }

  predicate PanelLe(a: PanelKey, b: PanelKey) {
    if a.cik != b.cik then StringLe(a.cik, b.cik)
    else if a.date != b.date then a.date < b.date
    else if a.fiscalYear != b.fiscalYear then a.fiscalYear < b.fiscalYear
    else if a.period != b.period then StringLe(a.period, b.period)
    else a.sequence <= b.sequence
  }

  function Panel(payloads: seq<Payload>, filter: Option<seq<Metric>>): seq<Point> {
    Sort(Map(payloads, PointOf(filter)), KeyOf, PanelLe)
  }

  /** The inner loop: the values of one payload, filled metric by metric. */
  method FillValues(p: Payload, filter: seq<Metric>) returns (values: map<Metric, Decimal>)
    ensures values == Values(p, Some(filter))
  {
    values := map[];
    for i := 0 to |filter|
      invariant values == Values(p, Some(filter[..i]))
    {
      var m := filter[i];
      assert filter[..i + 1] == filter[..i] + [m];
      if m in p.coreMetrics {
        values := values[m := p.coreMetrics[m]];
      }
    }
    assert filter[..|filter|] == filter;
  }

  /** `build_fundamentals_timeseries`. */
  method Build(payloads: seq<Payload>, filter: Option<seq<Metric>>) returns (r: Result<seq<Point>, Error>)
    ensures r == if forall i | 0 <= i < |payloads| :: PointValid(PointOf(filter)(payloads[i]))
                 then Ok(Panel(payloads, filter)) else Err(ValueError)
  {
    var points: seq<Point> := [];
    hide PointValid, Values;
    for i := 0 to |payloads|
      invariant points == Map(payloads[..i], PointOf(filter))
      invariant forall j | 0 <= j < i :: PointValid(PointOf(filter)(payloads[j]))
    {
      var p := payloads[i];
      var values := p.coreMetrics;
      if filter.Some? {
        values := FillValues(p, filter.value);
      } else {
        UnfilteredValues(p);
      }
      var point := Point(p.cik, p.statementType, p.accountingStandard, p.statementDate, p.fiscalYear, p.fiscalPeriod,
                         p.currency, values, p.sourceVersionSequence);
      if !PointValid(point) {
        return Err(ValueError);
      }
      points := points + [point];
    }
    assert payloads[..|payloads|] == payloads;
    r := Ok(Sort(points, KeyOf, PanelLe));
  }

  lemma UnfilteredValues(p: Payload)
    ensures Values(p, None) == p.coreMetrics
  {
  }

  /** What a payload must meet to give a point, told from its fields. */
  lemma GivesAPointIff(p: Payload, filter: Option<seq<Metric>>)
    ensures PointValid(PointOf(filter)(p))
            <==> Filled(p.cik) && p.fiscalYear > 0 && Filled(p.currency) && p.sourceVersionSequence > 0
  {
    FilledIff(p.cik);
    FilledIff(p.currency);
    hide Filled, Strip, Values;
  }

  /** A valid payload always gives a valid point. */
  lemma ValidPayloadsGiveAPanel(p: Payload, filter: Option<seq<Metric>>)
    requires Valid(p)
    ensures PointValid(PointOf(filter)(p))
  {
  }

  // ------------------------------------------------------------- order of the panel

  lemma PanelOrder()
    ensures TotalOrder(PanelLe)
  {
    StringOrder();
    hide StringLe;
  }

  /** The documented order, told without the sort key: by company, then statement date,
      then fiscal year, then period code, then version sequence, all ascending. */
  predicate InPanelOrder(p: Point, q: Point) {
    && NotAfter(p.cik, q.cik)
    && (p.cik == q.cik ==>
          && Ordinal(p.statementDate) <= Ordinal(q.statementDate)
          && (p.statementDate == q.statementDate ==>
                && p.fiscalYear <= q.fiscalYear
                && (p.fiscalYear == q.fiscalYear ==>
                      && NotAfter(FiscalPeriodCode(p.fiscalPeriod), FiscalPeriodCode(q.fiscalPeriod))
                      && (p.fiscalPeriod == q.fiscalPeriod ==> p.sequence <= q.sequence))))
  }

  lemma KeyOrder(p: Point, q: Point)
    requires PanelLe(KeyOf(p), KeyOf(q))
    ensures InPanelOrder(p, q)
  {
    StringLeIff(p.cik, q.cik);
    StringLeIff(FiscalPeriodCode(p.fiscalPeriod), FiscalPeriodCode(q.fiscalPeriod));
    StringLeReflexive(p.cik);
    StringLeReflexive(FiscalPeriodCode(p.fiscalPeriod));
    OrdinalOrders(p.statementDate, q.statementDate);
    hide StringLe, NotAfter, FiscalPeriodCode, Ordinal;
  }

  /** A point has its payload's fields, and those of its metrics that are asked for. */
  ghost predicate HasFields(p: Point, payload: Payload, filter: Option<seq<Metric>>) {
    && p.cik == payload.cik && p.statementType == payload.statementType
    && p.accountingStandard == payload.accountingStandard && p.statementDate == payload.statementDate
    && p.fiscalYear == payload.fiscalYear && p.fiscalPeriod == payload.fiscalPeriod && p.currency == payload.currency
    && p.sequence == payload.sourceVersionSequence
    && (forall m :: m in p.metrics <==> m in payload.coreMetrics && (filter.Some? ==> m in filter.value))
    && (forall m <- p.metrics :: p.metrics[m] == payload.coreMetrics[m])
  }

  /** The panel: one point for each payload, with its fields, and ascending. */
  lemma PanelAscends(payloads: seq<Payload>, filter: Option<seq<Metric>>) returns (points: seq<Point>)
    ensures |points| == |payloads| && forall i | 0 <= i < |payloads| :: HasFields(points[i], payloads[i], filter)
    ensures multiset(Panel(payloads, filter)) == multiset(points) && |Panel(payloads, filter)| == |payloads|
    ensures forall i, j | 0 <= i < j < |payloads| ::
            InPanelOrder(Panel(payloads, filter)[i], Panel(payloads, filter)[j])
  {
    points := Map(payloads, PointOf(filter));
    forall i | 0 <= i < |payloads|
      ensures HasFields(points[i], payloads[i], filter)
    {
      PointHasFields(payloads[i], filter);
    }
    PanelOrder();
    hide PanelLe, InPanelOrder, KeyOf, PointOf, HasFields;
    SortSorts(points, KeyOf, PanelLe);
    var panel := Panel(payloads, filter);
    forall i, j | 0 <= i < j < |payloads|
      ensures InPanelOrder(panel[i], panel[j])
    {
      KeyOrder(panel[i], panel[j]);
    }
  }

  lemma PointHasFields(payload: Payload, filter: Option<seq<Metric>>)
    ensures HasFields(PointOf(filter)(payload), payload, filter)
  {
  }

  /** Within a year the annual period comes first, then the half year, then others, then
      the quarters in turn. */
  lemma PeriodsInOrder()
    ensures NotAfter(FiscalPeriodCode(FY), FiscalPeriodCode(H1))
            && NotAfter(FiscalPeriodCode(H1), FiscalPeriodCode(OTHER_PERIOD))
    ensures NotAfter(FiscalPeriodCode(OTHER_PERIOD), FiscalPeriodCode(Q1))
            && NotAfter(FiscalPeriodCode(Q1), FiscalPeriodCode(Q2))
    ensures NotAfter(FiscalPeriodCode(Q2), FiscalPeriodCode(Q3)) && NotAfter(FiscalPeriodCode(Q3), FiscalPeriodCode(Q4))
  {
    assert DecidedAt("FY", "H1", 0) && DecidedAt("H1", "OTHER", 0) && DecidedAt("OTHER", "Q1", 0);
    assert DecidedAt("Q1", "Q2", 1) && DecidedAt("Q2", "Q3", 1) && DecidedAt("Q3", "Q4", 1);
  }

  /** The panel is the same for every order the payloads may come in. */
  ghost predicate OrderFree(payloads: seq<Payload>, filter: Option<seq<Metric>>) {
    forall other: seq<Payload> | multiset(other) == multiset(payloads) ::
        Panel(other, filter) == Panel(payloads, filter)
  }

  lemma IdentifiedIsOrderFree(a: seq<Payload>, b: seq<Payload>, filter: Option<seq<Metric>>)
    requires multiset(b) == multiset(a) && KeysIdentify(Map(a, PointOf(filter)), KeyOf)
    ensures Panel(b, filter) == Panel(a, filter)
  {
    hide PanelLe, PointOf;
    PanelOrder();
    MapPermutes(a, b, PointOf(filter));
    SortIgnoresOrder(Map(a, PointOf(filter)), Map(b, PointOf(filter)), KeyOf, PanelLe);
  }

  function MovedFirst(a: seq<Payload>, i: nat): (b: seq<Payload>)
    requires i < |a|
    ensures multiset(b) == multiset(a)
  {
    WithoutOne(a, i);
    [a[i]] + Without(a, i)
  }

  /** Moving a payload to the front puts its point first among those with its key. */
  lemma FirstOfItsKey(a: seq<Payload>, filter: Option<seq<Metric>>, i: nat)
    requires i < |a|
    ensures var point := PointOf(filter)(a[i]);
            var tied := Filter(Panel(MovedFirst(a, i), filter), HasKey(KeyOf, KeyOf(point)));
            tied != [] && tied[0] == point
  {
    hide PanelLe, KeyOf, PointOf;
    PanelOrder();
    var points := Map(MovedFirst(a, i), PointOf(filter));
    SortStable(points, KeyOf, PanelLe, KeyOf(points[0]));
  }

  /** The panel is independent of the input order exactly when payloads that tie
      on the sort key give the same point. */
  lemma OrderFreeIff(payloads: seq<Payload>, filter: Option<seq<Metric>>)
    ensures OrderFree(payloads, filter) <==> KeysIdentify(Map(payloads, PointOf(filter)), KeyOf)
  {
    hide Panel, KeyOf, PointOf;
    var points := Map(payloads, PointOf(filter));
    if KeysIdentify(points, KeyOf) {
      forall other: seq<Payload> | multiset(other) == multiset(payloads)
        ensures Panel(other, filter) == Panel(payloads, filter)
      {
        IdentifiedIsOrderFree(payloads, other, filter);
      }
    } else {
      var i, j :| 0 <= i < j < |points| && KeyOf(points[i]) == KeyOf(points[j]) && points[i] != points[j];
      FirstOfItsKey(payloads, filter, i);
      FirstOfItsKey(payloads, filter, j);
      assert Panel(MovedFirst(payloads, i), filter) != Panel(MovedFirst(payloads, j), filter);
    }
  }

  /** The key does not name the statement type, whose versions are numbered
      separately: two types of one filing tie, and the panel keeps their input order.
      (The one caller collects a single type at a time.) */
  lemma StatementTypesTie(p: Payload, other: StatementType, filter: Option<seq<Metric>>)
    requires other != p.statementType
    ensures !OrderFree([p, p.(statementType := other)], filter)
  {
    var payloads := [p, p.(statementType := other)];
    OrderFreeIff(payloads, filter);
    hide OrderFree;
    var points := Map(payloads, PointOf(filter));
    assert KeyOf(points[0]) == KeyOf(points[1]) && points[0] != points[1];
  }

  /** What the one caller collects: at most one payload for a company, date, year and
      period (it asks for one statement type, and keeps the latest version of each). */
  predicate OnePerPeriod(payloads: seq<Payload>) {
    forall p, q | p in payloads && q in payloads
                  && p.cik == q.cik && p.statementDate == q.statementDate
                  && p.fiscalYear == q.fiscalYear && p.fiscalPeriod == q.fiscalPeriod :: p == q
  }

  lemma KeyNamesPeriod(p: Payload, q: Payload, filter: Option<seq<Metric>>)
    requires KeyOf(PointOf(filter)(p)) == KeyOf(PointOf(filter)(q))
    ensures p.cik == q.cik && p.statementDate == q.statementDate
    ensures p.fiscalYear == q.fiscalYear && p.fiscalPeriod == q.fiscalPeriod
  {
    hide FiscalPeriodCode, ToFiscalPeriod;
    OrdinalOrders(p.statementDate, q.statementDate);
    EnumCodes(p.statementType, p.accountingStandard, p.fiscalPeriod);
    EnumCodes(q.statementType, q.accountingStandard, q.fiscalPeriod);
  }

  /** Such a collection has one panel, in whatever order it was collected. */
  lemma CollectedIsOrderFree(payloads: seq<Payload>, filter: Option<seq<Metric>>)
    requires OnePerPeriod(payloads)
    ensures OrderFree(payloads, filter)
  {
    hide OrderFree, KeyOf, PointOf;
    var points := Map(payloads, PointOf(filter));
    forall i, j | 0 <= i < j < |points| && KeyOf(points[i]) == KeyOf(points[j])
      ensures points[i] == points[j]
    {
      KeyNamesPeriod(payloads[i], payloads[j], filter);
      assert payloads[i] in payloads && payloads[j] in payloads;
    }
    OrderFreeIff(payloads, filter);
  }

  // ------------------------------------------------------------------------- pages

  datatype HttpPoint = HttpPoint(
    cik: string,
    statementType: StatementType,
    accountingStandard: AccountingStandard,
    statementDate: Date,
    fiscalYear: int,
    fiscalPeriod: FiscalPeriod,
    currency: string,
    metrics: map<Metric, string>,
    sequence: int)

  datatype Envelope = Envelope(page: int, pageSize: int, total: nat, items: seq<HttpPoint>)

  function HttpText(d: Decimal): string {
    if Fixed(d) == "" then "0" else Fixed(d)
  }

  function ToHttp(p: Point): HttpPoint {
    HttpPoint(p.cik, p.statementType, p.accountingStandard, p.statementDate, p.fiscalYear, p.fiscalPeriod, p.currency,
              map m | m in p.metrics :: HttpText(p.metrics[m]), p.sequence)
  }

  /** A Python slice with non-negative bounds. */
  function Slice<T>(s: seq<T>, start: nat, end: nat): seq<T>
    requires start <= end
  {
    s[if start <= |s| then start else |s|..if end <= |s| then end else |s|]
  }

  lemma Product(x: nat, y: nat)
    ensures x * y >= 0
  {
  }

  function Page<T>(s: seq<T>, page: int, size: int): seq<T>
    requires page >= 1 && size >= 1
  {
    Product(page - 1, size);
    Slice(s, (page - 1) * size, (page - 1) * size + size)
  }

  /** An item has its point's fields; its amounts read back to the point's. */
  ghost predicate Shows(item: HttpPoint, p: Point) {
    && item.cik == p.cik && item.statementType == p.statementType && item.accountingStandard == p.accountingStandard
    && item.statementDate == p.statementDate && item.fiscalYear == p.fiscalYear
    && item.fiscalPeriod == p.fiscalPeriod && item.currency == p.currency && item.sequence == p.sequence
    && item.metrics.Keys == p.metrics.Keys
    && forall m <- p.metrics ::
         ToNumber(item.metrics[m]).Some? && NumEq(ToNumber(item.metrics[m]).value, p.metrics[m])
  }

  lemma ItemShows(p: Point)
    ensures Shows(ToHttp(p), p)
  {
    hide HttpText, ToNumber, NumEq;
    forall m <- p.metrics
      ensures ToNumber(ToHttp(p).metrics[m]).Some? && NumEq(ToNumber(ToHttp(p).metrics[m]).value, p.metrics[m])
    {
      AmountsReadBack(p.metrics[m]);
    }
  }

  lemma PageIsSlice<T>(s: seq<T>, page: int, size: int)
    requires page >= 1 && size >= 1
    ensures var start := (page - 1) * size; start >= 0 && Page(s, page, size) == Slice(s, start, start + size)
  {
    Product(page - 1, size);
  }

  lemma PageShows(points: seq<Point>, page: int, size: int)
    requires page >= 1 && size >= 1
    ensures var items := Map(Page(points, page, size), ToHttp);
            forall k | 0 <= k < |items| ::
              var i := (page - 1) * size + k;
              0 <= i < |points| && Shows(items[k], points[i])
  {
    hide ToHttp, Shows;
    var start := (page - 1) * size;
    Product(page - 1, size);
    var sliced := Slice(points, start, start + size);
    forall k | 0 <= k < |sliced|
      ensures start + k < |points| && Shows(ToHttp(sliced[k]), points[start + k])
    {
      ItemShows(sliced[k]);
    }
  }

  /** `present_fundamentals_time_series`. */
  method PresentPage(points: seq<Point>, page: int, pageSize: int) returns (r: Envelope)
    ensures r.page == (if page >= 1 then page else 1) && r.pageSize == (if pageSize >= 1 then pageSize else 1)
    ensures r.total == |points|
    ensures r.items == Map(Page(points, r.page, r.pageSize), ToHttp)
    ensures forall k | 0 <= k < |r.items| ::
              var i := (r.page - 1) * r.pageSize + k;
              0 <= i < |points| && Shows(r.items[k], points[i])
  {
    hide ToHttp, Shows, Page, Slice;
    var p, size := page, pageSize;
    if p < 1 {
      p := 1;
    }
    if size < 1 {
      size := 1;
    }
    var start := (p - 1) * size;
    PageIsSlice(points, p, size);
    var sliced := Slice(points, start, start + size);
    r := Envelope(p, size, |points|, Map(sliced, ToHttp));
    PageShows(points, p, size);
  }

  function PageCount(total: nat, size: int): nat
    requires size >= 1
  {
    (total + size - 1) / size
  }

  lemma PageCountBounds(total: nat, size: int)
    requires size >= 1
    ensures (PageCount(total, size) - 1) * size < total || total == 0
    ensures total <= PageCount(total, size) * size
    ensures total == 0 ==> PageCount(total, size) == 0
  {
    var n := PageCount(total, size);
    assert total + size - 1 == n * size + (total + size - 1) % size;
    if total == 0 {
      Small(size - 1, size);
    }
  }

  lemma Small(x: nat, size: int)
    requires x < size
    ensures x / size == 0
  {
  }

  /** Pages 1 to `n`, one after the other. */
  function Pages<T>(s: seq<T>, size: int, n: nat): seq<T>
    requires size >= 1
  {
    if n == 0 then [] else Pages(s, size, n - 1) + Page(s, n, size)
  }

  lemma {:induction false} PagesArePrefix<T>(s: seq<T>, size: int, n: nat)
    requires size >= 1
    ensures 0 <= n * size
    ensures Pages(s, size, n) == Slice(s, 0, n * size)
  {
    if n != 0 {
      PagesArePrefix(s, size, n - 1);
      assert n * size == (n - 1) * size + size;
    }
  }

  /** Reading pages 1 to ceil(total / size) in turn gives the whole panel back. */
  lemma PagesRebuild<T>(s: seq<T>, size: int)
    requires size >= 1
    ensures Pages(s, size, PageCount(|s|, size)) == s
  {
    PagesArePrefix(s, size, PageCount(|s|, size));
    PageCountBounds(|s|, size);
  }

  lemma Quotient(k: nat, size: int, q: nat)
    requires size >= 1
    ensures q * size <= k < q * size + size <==> q == k / size
  {
    var d, m := k / size, k % size;
    assert k == d * size + m;
    if q < d {
      Gap(d, q, size);
    } else if q > d {
      Gap(q, d, size);
    }
  }

  /** The page a point is on is the only page it is on. */
  lemma OnExactlyOnePage<T>(s: seq<T>, size: int, k: nat, page: int)
    requires size >= 1 && k < |s| && page >= 1
    ensures (page - 1) * size <= k < (page - 1) * size + |Page(s, page, size)| <==> page == k / size + 1
    ensures page == k / size + 1 ==> k - (page - 1) * size < |Page(s, page, size)|
                                     && Page(s, page, size)[k - (page - 1) * size] == s[k]
  {
    Product(page - 1, size);
    Quotient(k, size, page - 1);
  }

  /** A page is empty exactly when it comes after the last one. */
  lemma LaterPagesEmpty<T>(s: seq<T>, size: int, page: int)
    requires size >= 1 && page >= 1
    ensures Page(s, page, size) == [] <==> page > PageCount(|s|, size)
  {
    Product(page - 1, size);
    PageCountBounds(|s|, size);
    var n := PageCount(|s|, size);
    if page > n {
      assert (page - 1) * size == n * size + (page - 1 - n) * size;
      Product(page - 1 - n, size);
    } else {
      assert (n - 1) * size == (page - 1) * size + (n - page) * size;
      Product(n - page, size);
    }
  }

  lemma PointedReads(d: Decimal)
    requires d.exponent < 0
    ensures ToNumber(HttpText(d)) == Some(d)
  {
    hide Digits, Pointed, ParseUnsigned, ValueOf, ToNumber;
    var digits := Digits(d.coefficient);
    ValueOfDigits(d.coefficient);
    PointedPlain(digits, -d.exponent);
    ParsePointed(digits, -d.exponent);
    ParseWithSign(d.negative, Pointed(digits, -d.exponent));
  }

  lemma UnpointedReads(d: Decimal)
    requires d.exponent >= 0
    ensures var k := if d.coefficient == 0 then 0 else d.exponent;
            ToNumber(HttpText(d)) == Some(Decimal(d.negative, d.coefficient * Pow10(k), 0))
  {
    hide Digits, ToNumber, Pow10;
    WholeReads(d.negative, d.coefficient, if d.coefficient == 0 then 0 else d.exponent);
  }

  /** An amount on a page reads back as the number it stands for, and with
      the very digits when it has no positive exponent. */
  lemma AmountsReadBack(d: Decimal)
    ensures ToNumber(HttpText(d)).Some? && NumEq(ToNumber(HttpText(d)).value, d)
    ensures d.exponent <= 0 ==> ToNumber(HttpText(d)) == Some(d)
  {
    hide NumEq, Reduce, Pow10, HttpText, ToNumber;
    ReduceDecides(d, d);
    if d.exponent < 0 {
      PointedReads(d);
    } else {
      var k := if d.coefficient == 0 then 0 else d.exponent;
      UnpointedReads(d);
      UnitPower();
      ScaledNumber(d, k);
      ReduceDecides(Decimal(d.negative, d.coefficient * Pow10(k), 0), d);
    }
  }

  /** No amount on a page is ever shown with an exponent. */
  lemma NoExponentShown(d: Decimal)
    ensures forall i | 0 <= i < |HttpText(d)| :: HttpText(d)[i] !in {'e', 'E'}
  {
    hide Digits, Pointed;
    if d.exponent < 0 {
      PointedPlain(Digits(d.coefficient), -d.exponent);
    }
  }

  lemma WholeReads(negative: bool, c: nat, k: nat)
    ensures var t := SignText(negative) + (Digits(c) + Zeros(k));
            t != "" && ToNumber(t) == Some(Decimal(negative, c * Pow10(k), 0))
  {
    hide ParseUnsigned, ValueOf, Pow10, ToNumber;
    ValueOfDigits(c);
    ValueOfConcat(Digits(c), Zeros(k));
    ValueOfZeros(k);
    ParseWhole(Digits(c) + Zeros(k));
    ParseWithSign(negative, Digits(c) + Zeros(k));
  }

  lemma ScaledNumber(d: Decimal, k: nat)
    requires d.coefficient == 0 || k == d.exponent
    ensures Reduce(Decimal(d.negative, d.coefficient * Pow10(k), 0)) == Reduce(d)
  {
    if d.coefficient != 0 {
      ReduceScaled(d.negative, d.coefficient, d.exponent, k);
    }
  }
}
