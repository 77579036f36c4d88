/** The zero-filled delta engine (`restatement_delta.py`): a metric a payload does
    not report counts as zero, and only changed metrics appear in a delta. */
module RestatementDelta {
  import opened Wrappers
  import opened Decimals
  import opened Dates
  import opened Payloads

  type Values = map<Metric, real>

  /** The amounts a payload reports, as numbers; a missing payload reports none. */
  function Core(p: Option<Payload>): Values {
    if p.None? then map[] else map m | m in p.value.coreMetrics :: Worth(p.value.coreMetrics[m])
  }

  function At(v: Values, m: Metric): real {
    if m in v then v[m] else 0.0
  }

  datatype MetricDelta = MetricDelta(metric: Metric, oldValue: real, newValue: real, diff: real)

  /** The invariant `RestatementMetricDelta.__post_init__` enforces. */
  predicate Balanced(d: MetricDelta) {
    d.diff == d.newValue - d.oldValue
  }

  function FromValues(m: Metric, oldValue: real, newValue: real): (d: MetricDelta)
    ensures Balanced(d) && (d.diff == 0.0 <==> oldValue == newValue)
  {
    MetricDelta(m, oldValue, newValue, newValue - oldValue)
  }

  type Deltas = map<Metric, MetricDelta>

  datatype Summary = Summary(compared: nat, changed: nat, material: bool)
  datatype Error = ValueError

  function FromDeltas(compared: nat, deltas: Deltas): Result<Summary, Error> {
    var changed := |set m | m in deltas && deltas[m].diff != 0.0|;
    if changed > compared then Err(ValueError) else Ok(Summary(compared, changed, changed > 0))
  }

  datatype Identity = Identity(cik: string, statementType: StatementType, fiscalYear: int, fiscalPeriod: FiscalPeriod,
                               statementDate: Option<Date>, fromSequence: Option<int>, toSequence: Option<int>)

  datatype Delta = Delta(identity: Identity, deltas: Deltas, summary: Summary)

  function Universe(original: Option<Payload>, restated: Option<Payload>, metrics: Option<seq<Metric>>): set<Metric> {
    match metrics
    case None => Core(original).Keys + Core(restated).Keys
    case Some(ms) => set m | m in ms
  }

  /** The metrics of `universe` in which two zero-filled functions differ. */
  function DiffOver(v: Values, w: Values, universe: set<Metric>): Deltas {
    map m | m in universe && At(w, m) != At(v, m) :: FromValues(m, At(v, m), At(w, m))
  }

  function Diff(original: Option<Payload>, restated: Option<Payload>, metrics: Option<seq<Metric>>): Deltas {
    DiffOver(Core(original), Core(restated), Universe(original, restated, metrics))
  }

  /** `RestatementDelta.from_payloads`. The metrics are visited in some order (the
      code sorts them by name, which fixes the order of the dict). */
  method FromPayloads(identity: Identity, original: Option<Payload>, restated: Option<Payload>,
                      metrics: Option<seq<Metric>>)
    returns (r: Result<Delta, Error>)
    ensures r.Ok? && r.value.identity == identity
    ensures r.value.deltas == Diff(original, restated, metrics)
    ensures r.value.summary.compared == |Universe(original, restated, metrics)|
    ensures r.value.summary.changed == |r.value.deltas| <= r.value.summary.compared
    ensures r.value.summary.material <==> r.value.deltas != map[]
  {
    var oldCore, newCore := Core(original), Core(restated);
    var universe := Universe(original, restated, metrics);
    var deltas: Deltas := map[];
    var rest := universe;
    assert deltas == DiffOver(oldCore, newCore, {}) && universe - rest == {};
    hide Core, Universe, At, FromDeltas, DiffOver, FromValues;
    while rest != {}
      invariant rest <= universe
      invariant deltas == DiffOver(oldCore, newCore, universe - rest)
      decreases |rest|
    {
      var m :| m in rest;
      DiffOverGrows(oldCore, newCore, universe - rest, m);
      assert universe - (rest - {m}) == universe - rest + {m};
      rest := rest - {m};
      if At(newCore, m) != At(oldCore, m) {
        deltas := deltas[m := FromValues(m, At(oldCore, m), At(newCore, m))];
      }
    }
    assert universe - rest == universe;
    SummaryCounts(oldCore, newCore, universe);
    var summary := FromDeltas(|universe|, deltas);
    r := Ok(Delta(identity, deltas, summary.value));
  }

  lemma DiffOverGrows(v: Values, w: Values, seen: set<Metric>, m: Metric)
    requires m !in seen
    ensures DiffOver(v, w, seen + {m})
            == if At(w, m) != At(v, m) then DiffOver(v, w, seen)[m := FromValues(m, At(v, m), At(w, m))]
               else DiffOver(v, w, seen)
  {
  }

  lemma SummaryCounts(v: Values, w: Values, universe: set<Metric>)
    ensures var d := DiffOver(v, w, universe);
            FromDeltas(|universe|, d) == Ok(Summary(|universe|, |d|, d != map[])) && |d| <= |universe|
  {
    hide At;
    var d := DiffOver(v, w, universe);
    SubsetSize(d.Keys, universe);
    assert (set m | m in d && d[m].diff != 0.0) == d.Keys;
    assert |d| == |d.Keys|;
  }

  lemma {:induction false} SubsetSize<T>(a: set<T>, b: set<T>)
    requires a <= b
    ensures |a| <= |b|
  {
    if a != {} {
      var x :| x in a;
      SubsetSize(a - {x}, b - {x});
    }
  }

  /** The amount a payload reports, and zero without one. */
  function Reported(p: Option<Payload>, m: Metric): real {
    match p
    case Some(payload) => if m in payload.coreMetrics then Worth(payload.coreMetrics[m]) else 0.0
    case None => 0.0
  }

  /** The metrics that are compared: those asked for, or those either payload reports. */
  ghost predicate Compared(original: Option<Payload>, restated: Option<Payload>, metrics: Option<seq<Metric>>,
                           m: Metric) {
    match metrics
    case Some(ms) => m in ms
    case None =>
      || (original.Some? && m in original.value.coreMetrics)
      || (restated.Some? && m in restated.value.coreMetrics)
  }

  /** A delta, told from the payloads' own metrics: an entry for each compared metric
      whose reported amounts differ, from the original's to the restated one's. */
  lemma DeltaIsExactly(original: Option<Payload>, restated: Option<Payload>, metrics: Option<seq<Metric>>, m: Metric)
    ensures m in Universe(original, restated, metrics) <==> Compared(original, restated, metrics, m)
    ensures m in Diff(original, restated, metrics)
            <==> Compared(original, restated, metrics, m) && Reported(original, m) != Reported(restated, m)
    ensures m in Diff(original, restated, metrics) ==>
              Diff(original, restated, metrics)[m]
              == MetricDelta(m, Reported(original, m), Reported(restated, m),
                             Reported(restated, m) - Reported(original, m))
  {
    hide Worth;
  }

  // -------------------------------------------------------------- a delta is a patch

  /** The original with every changed metric set to its new value. */
  function Overlay(v: Values, d: Deltas): Values {
    v + map m | m in d :: d[m].newValue
  }

  ghost predicate SameFunction(v: Values, w: Values) {
    forall m :: At(v, m) == At(w, m)
  }

  /** Without a filter, the metrics of a delta are exactly those in which the
      zero-filled payloads differ, and overlaying it on the original gives the
      restated payload as a zero-filled function. */
  lemma DeltaIsPatch(original: Option<Payload>, restated: Option<Payload>)
    ensures var d := Diff(original, restated, None);
            && (forall m :: m in d <==> At(Core(original), m) != At(Core(restated), m))
            && SameFunction(Overlay(Core(original), d), Core(restated))
  {
    hide Worth;
  }

  /** Deltas on the other side of the same fact: an empty delta means the two
      payloads are the same zero-filled function. */
  lemma EmptyDelta(original: Option<Payload>, restated: Option<Payload>)
    ensures Diff(original, restated, None) == map[] <==> SameFunction(Core(original), Core(restated))
  {
    hide Worth, Core;
    DeltaIsPatch(original, restated);
    if SameFunction(Core(original), Core(restated)) {
      assert Diff(original, restated, None).Keys == {};
    }
  }

  /** Swapping the payloads keeps the metrics, swaps the values, and negates
      every difference. */
  lemma SwapInverts(original: Option<Payload>, restated: Option<Payload>, metrics: Option<seq<Metric>>, m: Metric)
    ensures var d, e := Diff(original, restated, metrics), Diff(restated, original, metrics);
            && d.Keys == e.Keys
            && (m in d ==> e[m] == MetricDelta(m, d[m].newValue, d[m].oldValue, -d[m].diff))
  {
    hide Worth, Core;
    assert Universe(original, restated, metrics) == Universe(restated, original, metrics);
  }

  // ----------------------------------------------------------------- version chains

  /** The change of one metric in a delta; an unreported metric did not change. */
  function Change(d: Deltas, m: Metric): real {
    if m in d then d[m].diff else 0.0
  }

  type Chain = seq<Option<Payload>>

  /** The sum of a metric's changes over the hops of a chain. */
  function HopSum(chain: Chain, metrics: Option<seq<Metric>>, m: Metric): real {
    if |chain| < 2 then 0.0
    else HopSum(chain[..|chain| - 1], metrics, m) + Change(Diff(chain[|chain| - 2], chain[|chain| - 1], metrics), m)
  }

  lemma ChangeIsDifference(a: Option<Payload>, b: Option<Payload>, metrics: Option<seq<Metric>>, m: Metric)
    ensures Change(Diff(a, b, metrics), m)
            == if metrics.None? || m in metrics.value then At(Core(b), m) - At(Core(a), m) else 0.0
  {
    hide Worth;
  }

  /** Hop by hop or in one step: for every chain of versions, the changes of a
      metric over the hops add up to its change from the first to the last. */
  lemma {:induction false} HopsAddUp(chain: Chain, metrics: Option<seq<Metric>>, m: Metric)
    requires chain != []
    ensures HopSum(chain, metrics, m) == Change(Diff(chain[0], chain[|chain| - 1], metrics), m)
  {
    hide Diff, Core, Change;
    ChangeIsDifference(chain[0], chain[|chain| - 1], metrics, m);
    if |chain| > 1 {
      var init := chain[..|chain| - 1];
      HopsAddUp(init, metrics, m);
      ChangeIsDifference(chain[0], init[|init| - 1], metrics, m);
      ChangeIsDifference(chain[|chain| - 2], chain[|chain| - 1], metrics, m);
    }
  }

  /** A metric that changed from the first to the last version changed in a hop. */
  lemma {:induction false} ChangedInSomeHop(chain: Chain, metrics: Option<seq<Metric>>, m: Metric)
    requires chain != [] && m in Diff(chain[0], chain[|chain| - 1], metrics)
    ensures exists i | 0 <= i < |chain| - 1 :: m in Diff(chain[i], chain[i + 1], metrics)
    decreases |chain|
  {
    hide Worth, Core;
    var n := |chain| - 1;
    assert n > 0;
    if m !in Diff(chain[n - 1], chain[n], metrics) {
      var init := chain[..n];
      ChangeIsDifference(chain[0], chain[n], metrics, m);
      ChangeIsDifference(chain[n - 1], chain[n], metrics, m);
      ChangeIsDifference(chain[0], chain[n - 1], metrics, m);
      ChangedInSomeHop(init, metrics, m);
      var i :| 0 <= i < |init| - 1 && m in Diff(init[i], init[i + 1], metrics);
      assert chain[i] == init[i] && chain[i + 1] == init[i + 1];
    }
  }

  /** The hops of a chain applied in order. */
  function Replay(chain: Chain): Values
    requires chain != []
  {
    if |chain| == 1 then Core(chain[0])
    else Overlay(Replay(chain[..|chain| - 1]), Diff(chain[|chain| - 2], chain[|chain| - 1], None))
  }

  /** The first version and the hop deltas determine the last version. */
  lemma {:induction false} ReplayReachesLast(chain: Chain)
    requires chain != []
    ensures SameFunction(Replay(chain), Core(chain[|chain| - 1]))
  {
    if |chain| > 1 {
      ReplayReachesLast(chain[..|chain| - 1]);
      hide Worth, Core, Replay;
      OverlayFollows(Replay(chain[..|chain| - 1]), chain[|chain| - 2], chain[|chain| - 1]);
    }
  }

  lemma OverlayFollows(v: Values, original: Option<Payload>, restated: Option<Payload>)
    requires SameFunction(v, Core(original))
    ensures SameFunction(Overlay(v, Diff(original, restated, None)), Core(restated))
  {
    hide Worth, Core;
    var d := Diff(original, restated, None);
    forall m
      ensures At(Overlay(v, d), m) == At(Core(restated), m)
    {
      DeltaIsPatch(original, restated);
      assert At(v, m) == At(Core(original), m);
    }
  }
}
