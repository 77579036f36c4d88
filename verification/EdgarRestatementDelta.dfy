/** The present-on-both-sides delta engine (`edgar_restatement_delta.py`), and its
    agreement with the zero-filled one. */
module EdgarRestatementDelta {
  import opened Wrappers
  import opened Text
  import opened Decimals
  import opened Dates
  import opened Payloads
  import ZeroFilled = RestatementDelta

  datatype MetricDelta = MetricDelta(metric: Metric, before: Option<real>, after: Option<real>, diff: Option<real>)

  /** The invariant of the constructor: the parts line up when all are there. */
  predicate Balanced(d: MetricDelta) {
    d.before.Some? && d.after.Some? && d.diff.Some? ==> d.diff.value == d.after.value - d.before.value
  }

  datatype Delta = Delta(
    cik: string, statementType: StatementType, accountingStandard: AccountingStandard, statementDate: Date,
    fiscalYear: int, fiscalPeriod: FiscalPeriod, currency: string,
    fromSequence: int, toSequence: int, metrics: map<Metric, MetricDelta>)

  /** The checks of `RestatementDelta.__post_init__`. */
  predicate ValidDelta(d: Delta) {
    && Strip(d.cik) != "" && d.fiscalYear > 0 && Strip(d.currency) != ""
    && d.fromSequence > 0 && d.toSequence > 0
  }

  datatype Field = CikField | TypeField | StandardField | DateField | YearField | PeriodField | CurrencyField

  datatype Error = EdgarMappingError(mismatches: set<Field>) | ValueError

  predicate Differs(f: Field, p: Payload, q: Payload) {
    match f
    case CikField => p.cik != q.cik
    case TypeField => p.statementType != q.statementType
    case StandardField => p.accountingStandard != q.accountingStandard
    case DateField => p.statementDate != q.statementDate
    case YearField => p.fiscalYear != q.fiscalYear
    case PeriodField => p.fiscalPeriod != q.fiscalPeriod
    case CurrencyField => p.currency != q.currency
  }

  /** The identity tuple both payloads must share. */
  predicate SameIdentity(p: Payload, q: Payload) {
    && p.cik == q.cik && p.statementType == q.statementType && p.accountingStandard == q.accountingStandard
    && p.statementDate == q.statementDate && p.fiscalYear == q.fiscalYear && p.fiscalPeriod == q.fiscalPeriod
    && p.currency == q.currency
  }

  function With(seen: set<Field>, f: Field, differs: bool): set<Field> {
    if differs then seen + {f} else seen
  }

  /** The fields that differ, collected one after the other. */
  function Collected(p: Payload, q: Payload): set<Field> {
    With(With(With(With(With(With(With({}, CikField, p.cik != q.cik), TypeField, p.statementType != q.statementType),
         StandardField, p.accountingStandard != q.accountingStandard), DateField, p.statementDate != q.statementDate),
         YearField, p.fiscalYear != q.fiscalYear), PeriodField, p.fiscalPeriod != q.fiscalPeriod),
         CurrencyField, p.currency != q.currency)
  }

  lemma CollectedAreDifferent(p: Payload, q: Payload)
    ensures Collected(p, q) == set f: Field | Differs(f, p, q)
    ensures Collected(p, q) == {} <==> SameIdentity(p, q)
  {
    forall f: Field
      ensures f in Collected(p, q) <==> Differs(f, p, q)
    {
      match f
      case CikField =>
      case TypeField =>
      case StandardField =>
      case DateField =>
      case YearField =>
      case PeriodField =>
      case CurrencyField =>
    }
    NoneDiffers(p, q);
    hide Collected, Differs, SameIdentity;
  }

  lemma NoneDiffers(p: Payload, q: Payload)
    ensures SameIdentity(p, q) <==> forall f: Field :: !Differs(f, p, q)
  {
    if forall f: Field :: !Differs(f, p, q) {
      assert !Differs(CikField, p, q) && !Differs(TypeField, p, q) && !Differs(StandardField, p, q);
      assert !Differs(DateField, p, q) && !Differs(YearField, p, q) && !Differs(PeriodField, p, q);
      assert !Differs(CurrencyField, p, q);
    }
  }

  /** `_ensure_payload_identity_match`: collects every field that differs. */
  method EnsurePayloadIdentityMatch(p: Payload, q: Payload) returns (r: Option<Error>)
    ensures r.None? <==> SameIdentity(p, q)
    ensures r.Some? ==> r.value == EdgarMappingError(set f: Field | Differs(f, p, q))
  {
    var mismatches: set<Field> := {};
    if p.cik != q.cik { mismatches := mismatches + {CikField}; }
    if p.statementType != q.statementType { mismatches := mismatches + {TypeField}; }
    if p.accountingStandard != q.accountingStandard { mismatches := mismatches + {StandardField}; }
    if p.statementDate != q.statementDate { mismatches := mismatches + {DateField}; }
    if p.fiscalYear != q.fiscalYear { mismatches := mismatches + {YearField}; }
    if p.fiscalPeriod != q.fiscalPeriod { mismatches := mismatches + {PeriodField}; }
    if p.currency != q.currency { mismatches := mismatches + {CurrencyField}; }
    assert mismatches == Collected(p, q);
    hide *;
    CollectedAreDifferent(p, q);
    if mismatches != {} {
      return Some(EdgarMappingError(mismatches));
    }
    r := None;
  }

  function Core(p: Payload): map<Metric, real> {
    ZeroFilled.Core(Some(p))
  }

  function Changed(m: Metric, before: real, after: real): MetricDelta {
    MetricDelta(m, Some(before), Some(after), Some(after - before))
  }

  /** The metrics to inspect: the given ones, or those both sides report. */
  function Candidates(p: Payload, q: Payload, metrics: Option<seq<Metric>>): set<Metric> {
    match metrics
    case None => Core(p).Keys * Core(q).Keys
    case Some(ms) => set m | m in ms
  }

  predicate Reported(v: map<Metric, real>, w: map<Metric, real>, m: Metric) {
    m in v && m in w && v[m] != w[m]
  }

  function ChangesOver(v: map<Metric, real>, w: map<Metric, real>, candidates: set<Metric>): map<Metric, MetricDelta> {
    map m | m in candidates && Reported(v, w, m) :: Changed(m, v[m], w[m])
  }

  function Changes(p: Payload, q: Payload, metrics: Option<seq<Metric>>): map<Metric, MetricDelta> {
    ChangesOver(Core(p), Core(q), Candidates(p, q, metrics))
  }

  lemma ReportedIff(v: map<Metric, real>, w: map<Metric, real>, m: Metric)
    ensures Reported(v, w, m) <==> m in v && m in w && v[m] != w[m]
  {
  }

  lemma ChangesGrow(v: map<Metric, real>, w: map<Metric, real>, seen: set<Metric>, m: Metric)
    ensures ChangesOver(v, w, seen + {m})
            == if Reported(v, w, m) then ChangesOver(v, w, seen)[m := Changed(m, v[m], w[m])]
               else ChangesOver(v, w, seen)
  {
  }

  /** The loop over the candidates. */
  method CollectChanges(v: map<Metric, real>, w: map<Metric, real>, candidates: set<Metric>)
    returns (deltas: map<Metric, MetricDelta>)
    ensures deltas == ChangesOver(v, w, candidates)
  {
    deltas := map[];
    var rest := candidates;
    assert deltas == ChangesOver(v, w, {}) && candidates - rest == {};
    hide ChangesOver, Changed, Reported;
    while rest != {}
      invariant rest <= candidates
      invariant deltas == ChangesOver(v, w, candidates - rest)
      decreases |rest|
    {
      var m :| m in rest;
      ChangesGrow(v, w, candidates - rest, m);
      ReportedIff(v, w, m);
      assert candidates - (rest - {m}) == candidates - rest + {m};
      rest := rest - {m};
      if m !in v || m !in w {
        continue;
      }
      if w[m] == v[m] {
        continue;
      }
      deltas := deltas[m := Changed(m, v[m], w[m])];
    }
    assert candidates - rest == candidates;
  }

  /** `compute_restatement_delta`. */
  method ComputeRestatementDelta(p: Payload, q: Payload, metrics: Option<seq<Metric>>) returns (r: Result<Delta, Error>)
    ensures r == var delta := DeltaOf(p, q, Changes(p, q, metrics));
                 if !SameIdentity(p, q) then Err(EdgarMappingError(set f: Field | Differs(f, p, q)))
                 else if ValidDelta(delta) then Ok(delta)
                 else Err(ValueError)
    ensures r.Ok? ==> IsDeltaFrom(r.value, p, q, metrics) && NamesIdentity(r.value, q)
  {
    if SameIdentity(p, q) { BothIdentities(p, q); }
    hide Differs, SameIdentity, NamesIdentity, ValidDelta, DeltaOf, Core, Candidates, ChangesOver, IsDeltaFrom;
    DeltaFieldByField(p, q, metrics);
    var mismatch := EnsurePayloadIdentityMatch(p, q);
    if mismatch.Some? {
      return Err(mismatch.value);
    }
    var deltas := CollectChanges(Core(p), Core(q), Candidates(p, q, metrics));
    if !ValidDelta(DeltaOf(p, q, deltas)) {
      return Err(ValueError);
    }
    r := Ok(DeltaOf(p, q, deltas));
  }

  function DeltaOf(p: Payload, q: Payload, deltas: map<Metric, MetricDelta>): Delta {
    Delta(p.cik, p.statementType, p.accountingStandard, p.statementDate, p.fiscalYear, p.fiscalPeriod,
          p.currency, p.sourceVersionSequence, q.sourceVersionSequence, deltas)
  }

  /** What two payloads must meet for the constructor to take their delta. */
  lemma GivesADeltaIff(p: Payload, q: Payload, deltas: map<Metric, MetricDelta>)
    ensures ValidDelta(DeltaOf(p, q, deltas))
            <==> && Filled(p.cik) && p.fiscalYear > 0 && Filled(p.currency)
                 && p.sourceVersionSequence > 0 && q.sourceVersionSequence > 0
  {
    FilledIff(p.cik);
    FilledIff(p.currency);
    hide Filled, Strip;
  }

  /** Payloads their constructor accepted never give a delta its constructor
      refuses, and every entry balances. */
  lemma ValidPayloadsGiveAValidDelta(p: Payload, q: Payload, metrics: Option<seq<Metric>>)
    requires Valid(p) && Valid(q)
    ensures ValidDelta(DeltaOf(p, q, Changes(p, q, metrics)))
    ensures forall m <- Changes(p, q, metrics) :: Balanced(Changes(p, q, metrics)[m])
  {
    hide Strip, Core, Candidates, Reported;
  }

  /** The seven identity fields are the payload's. */
  predicate NamesIdentity(d: Delta, p: Payload) {
    && d.cik == p.cik && d.statementType == p.statementType && d.accountingStandard == p.accountingStandard
    && d.statementDate == p.statementDate && d.fiscalYear == p.fiscalYear && d.fiscalPeriod == p.fiscalPeriod
    && d.currency == p.currency
  }

  lemma BothIdentities(p: Payload, q: Payload)
    requires SameIdentity(p, q)
    ensures forall d: Delta :: NamesIdentity(d, p) <==> NamesIdentity(d, q)
  {
  }

  /** What a delta from `p` to `q` holds, told from the payloads' own fields. */
  ghost predicate IsDeltaFrom(d: Delta, p: Payload, q: Payload, metrics: Option<seq<Metric>>) {
    && NamesIdentity(d, p)
    && d.fromSequence == p.sourceVersionSequence && d.toSequence == q.sourceVersionSequence
    && (forall m :: m in d.metrics
                    <==> && m in p.coreMetrics && m in q.coreMetrics && (metrics.Some? ==> m in metrics.value)
                         && Worth(p.coreMetrics[m]) != Worth(q.coreMetrics[m]))
    && forall m <- d.metrics ::
         && m in p.coreMetrics && m in q.coreMetrics
         && d.metrics[m] == MetricDelta(m, Some(Worth(p.coreMetrics[m])), Some(Worth(q.coreMetrics[m])),
                                        Some(Worth(q.coreMetrics[m]) - Worth(p.coreMetrics[m])))
  }

  /** The delta leads from the first payload to the second: sequences, identity and
      every entry. */
  lemma DeltaFieldByField(p: Payload, q: Payload, metrics: Option<seq<Metric>>)
    ensures IsDeltaFrom(DeltaOf(p, q, Changes(p, q, metrics)), p, q, metrics)
  {
    hide Worth;
  }

  /** Swapping the payloads swaps the sequences, keeps the metrics and negates every
      difference. */
  lemma SwapReverses(p: Payload, q: Payload, metrics: Option<seq<Metric>>)
    requires SameIdentity(p, q)
    ensures var d, e := DeltaOf(p, q, Changes(p, q, metrics)), DeltaOf(q, p, Changes(q, p, metrics));
            && e == d.(fromSequence := d.toSequence, toSequence := d.fromSequence, metrics := e.metrics)
            && e.metrics.Keys == d.metrics.Keys
            && forall m <- d.metrics ::
                 && d.metrics[m].diff.Some?
                 && e.metrics[m]
                    == MetricDelta(m, d.metrics[m].after, d.metrics[m].before, Some(-d.metrics[m].diff.value))
  {
    DeltaFieldByField(p, q, metrics);
    DeltaFieldByField(q, p, metrics);
    hide Worth, Changes;
    var d, e := DeltaOf(p, q, Changes(p, q, metrics)), DeltaOf(q, p, Changes(q, p, metrics));
    assert forall m :: m in e.metrics <==> m in d.metrics;
  }

  // -------------------------------------------------------------------- agreement

  predicate OnBothSides(p: Payload, q: Payload, m: Metric) {
    m in Core(p) && m in Core(q)
  }

  /** With the same filter, this engine's delta is the zero-filled one restricted
      to the metrics both payloads report: the same metrics and the same numbers. */
  lemma EnginesAgree(p: Payload, q: Payload, metrics: Option<seq<Metric>>)
    ensures var zero := ZeroFilled.Diff(Some(p), Some(q), metrics);
            Changes(p, q, metrics)
            == map m | m in zero && OnBothSides(p, q, m) ::
                 MetricDelta(m, Some(zero[m].oldValue), Some(zero[m].newValue), Some(zero[m].diff))
  {
    hide ZeroFilled.Core;
  }

  /** Every metric only the zero-filled engine reports is compared, present on
      exactly one side, and not zero there; and every such metric is one. */
  lemma OnlyZeroFilled(p: Payload, q: Payload, metrics: Option<seq<Metric>>, m: Metric)
    ensures (m in ZeroFilled.Diff(Some(p), Some(q), metrics) && m !in Changes(p, q, metrics))
            <==> && (metrics.None? || m in metrics.value)
                 && ((m in Core(p) && m !in Core(q) && Core(p)[m] != 0.0)
                     || (m in Core(q) && m !in Core(p) && Core(q)[m] != 0.0))
  {
    hide ZeroFilled.Core;
  }

  /** Where the payloads report the same metrics the two engines say the same. */
  lemma {:induction false} SameMetricsSameDelta(p: Payload, q: Payload, metrics: Option<seq<Metric>>)
    requires p.coreMetrics.Keys == q.coreMetrics.Keys
    ensures Changes(p, q, metrics).Keys == ZeroFilled.Diff(Some(p), Some(q), metrics).Keys
  {
    hide Worth, ZeroFilled.Diff, Changes;
    assert Core(p).Keys == Core(q).Keys;
    forall m
      ensures m in Changes(p, q, metrics) <==> m in ZeroFilled.Diff(Some(p), Some(q), metrics)
    {
      EnginesAgree(p, q, metrics);
      OnlyZeroFilled(p, q, metrics, m);
    }
  }

  /** Unlike the zero-filled deltas, these need not add up over a chain: a metric one
      version in between leaves out changed overall but in no hop. */
  lemma GapLosesChange(p: Payload, m: Metric, low: Decimal, high: Decimal)
    requires Worth(low) != Worth(high)
    ensures var first, last := p.(coreMetrics := map[m := low]), p.(coreMetrics := map[m := high]);
            var middle := p.(coreMetrics := map[]);
            && m in Changes(first, last, None)
            && Changes(first, middle, None) == map[] && Changes(middle, last, None) == map[]
  {
    hide Worth;
  }

  // --------------------------------------------------------------- version chains

  /** The change of one metric in a delta; an unreported metric did not change. */
  function Change(changes: map<Metric, MetricDelta>, m: Metric): real {
    if m in changes then changes[m].diff.GetOr(0.0) else 0.0
  }

  predicate Inspected(metrics: Option<seq<Metric>>, m: Metric) {
    metrics.None? || m in metrics.value
  }

  function HopSum(chain: seq<Payload>, metrics: Option<seq<Metric>>, m: Metric): real {
    if |chain| < 2 then 0.0
    else HopSum(chain[..|chain| - 1], metrics, m) + Change(Changes(chain[|chain| - 2], chain[|chain| - 1], metrics), m)
  }

  lemma ChangeIsDifference(p: Payload, q: Payload, metrics: Option<seq<Metric>>, m: Metric)
    ensures Change(Changes(p, q, metrics), m)
            == if Inspected(metrics, m) && OnBothSides(p, q, m) then Core(q)[m] - Core(p)[m] else 0.0
  {
    hide Core;
  }

  /** The value of `m` in the first version that reports it. */
  function FirstReported(chain: seq<Payload>, m: Metric): Option<real> {
    if chain == [] then None
    else
      match FirstReported(chain[..|chain| - 1], m)
      case Some(x) => Some(x)
      case None => ValueIn(chain[|chain| - 1], m)
  }

  /** The value of `m` in the last version that reports it. */
  function Carried(chain: seq<Payload>, m: Metric): Option<real> {
    if chain == [] then None
    else
      match ValueIn(chain[|chain| - 1], m)
      case Some(x) => Some(x)
      case None => Carried(chain[..|chain| - 1], m)
  }

  function ValueIn(p: Payload, m: Metric): Option<real> {
    if m in Core(p) then Some(Core(p)[m]) else None
  }

  /** The step of `m` across the gap that ends with the last version: from the value
      carried over the versions that left it out. */
  function Jump(chain: seq<Payload>, m: Metric): real {
    if |chain| < 2 || m in Core(chain[|chain| - 2]) then 0.0
    else
      match (ValueIn(chain[|chain| - 1], m), Carried(chain[..|chain| - 1], m))
      case (Some(x), Some(carried)) => x - carried
      case _ => 0.0
  }

  function GapSum(chain: seq<Payload>, m: Metric): real {
    if |chain| < 2 then 0.0 else GapSum(chain[..|chain| - 1], m) + Jump(chain, m)
  }

  /** The change from the first reported value to the last; none if none is reported. */
  function ReportedChange(chain: seq<Payload>, m: Metric): real {
    match (FirstReported(chain, m), Carried(chain, m))
    case (Some(first), Some(last)) => last - first
    case _ => 0.0
  }

  /** Over any chain the hops and the jumps across gaps together make up the change
      from the first reported value to the last. */
  lemma {:induction false} HopsAndGaps(chain: seq<Payload>, metrics: Option<seq<Metric>>, m: Metric)
    requires Inspected(metrics, m)
    ensures Carried(chain, m).Some? <==> FirstReported(chain, m).Some?
    ensures HopSum(chain, metrics, m) + GapSum(chain, m) == ReportedChange(chain, m)
  {
    hide Core, Changes, Change;
    if |chain| == 1 {
      assert chain[..0] == [];
    } else if |chain| > 1 {
      HopsAndGaps(chain[..|chain| - 1], metrics, m);
      ChangeIsDifference(chain[|chain| - 2], chain[|chain| - 1], metrics, m);
    }
  }

  lemma {:induction false} EndsReported(chain: seq<Payload>, m: Metric)
    requires chain != []
    ensures m in Core(chain[0]) ==> FirstReported(chain, m) == Some(Core(chain[0])[m])
    ensures m in Core(chain[|chain| - 1]) ==> Carried(chain, m) == Some(Core(chain[|chain| - 1])[m])
  {
    hide Core;
    if |chain| > 1 {
      EndsReported(chain[..|chain| - 1], m);
    }
  }

  /** The exact condition under which this engine's deltas add up. When both ends of a
      chain report the metric: the jumps across its gaps cancel. When an end does not,
      the direct delta leaves the metric out, and the hops sum to that exactly when the
      gaps account for the whole change between the reported values. */
  lemma HopsAddUpIff(chain: seq<Payload>, metrics: Option<seq<Metric>>, m: Metric)
    requires chain != [] && Inspected(metrics, m)
    ensures var first, last := chain[0], chain[|chain| - 1];
            var adds := HopSum(chain, metrics, m) == Change(Changes(first, last, metrics), m);
            if OnBothSides(first, last, m) then adds <==> GapSum(chain, m) == 0.0
            else
              && Change(Changes(first, last, metrics), m) == 0.0
              && (adds <==> GapSum(chain, m) == ReportedChange(chain, m))
  {
    hide Core, Changes, Change, HopSum, GapSum, Carried, FirstReported;
    HopsAndGaps(chain, metrics, m);
    EndsReported(chain, m);
    ChangeIsDifference(chain[0], chain[|chain| - 1], metrics, m);
  }

  /** A metric outside the filter is in no delta, so its hops add up to nothing. */
  lemma {:induction false} NotInspectedNotChanged(chain: seq<Payload>, metrics: Option<seq<Metric>>, m: Metric)
    requires chain != [] && !Inspected(metrics, m)
    ensures HopSum(chain, metrics, m) == Change(Changes(chain[0], chain[|chain| - 1], metrics), m) == 0.0
  {
    hide Changes, Change;
    ChangeIsDifference(chain[0], chain[|chain| - 1], metrics, m);
    if |chain| > 1 {
      NotInspectedNotChanged(chain[..|chain| - 1], metrics, m);
      ChangeIsDifference(chain[|chain| - 2], chain[|chain| - 1], metrics, m);
    }
  }

  lemma {:induction false} NoGapNoJump(chain: seq<Payload>, m: Metric)
    requires forall i | 0 <= i < |chain| :: m in Core(chain[i])
    ensures GapSum(chain, m) == 0.0
  {
    hide Core;
    if |chain| > 1 {
      NoGapNoJump(chain[..|chain| - 1], m);
    }
  }

  /** In particular they add up for a metric that every version of the chain reports. */
  lemma HopsAddUpWithoutGaps(chain: seq<Payload>, metrics: Option<seq<Metric>>, m: Metric)
    requires chain != [] && forall i | 0 <= i < |chain| :: m in Core(chain[i])
    ensures HopSum(chain, metrics, m) == Change(Changes(chain[0], chain[|chain| - 1], metrics), m)
  {
    hide Core, Changes, Change, HopSum, GapSum, Carried, FirstReported;
    if Inspected(metrics, m) {
      NoGapNoJump(chain, m);
      HopsAddUpIff(chain, metrics, m);
    } else {
      NotInspectedNotChanged(chain, metrics, m);
    }
  }
}
