/** The normalized fact store: a statement's facts are replaced as a whole and
    listed in a fixed order. */
module Facts {
  import opened Wrappers
  import opened Text
  import opened Sorting
  import opened Dates
  import opened Payloads

  type Uuid = string

  datatype Identity = Identity(cik: string, statementType: StatementType, fiscalYear: int, fiscalPeriod: FiscalPeriod,
                               versionSequence: int)

  /** The parts of a fact that are stored and read back as they are. */
  datatype Detail = Detail(
    statementType: StatementType, accountingStandard: AccountingStandard, fiscalYear: int, fiscalPeriod: FiscalPeriod,
    statementDate: string, versionSequence: int, metricLabel: Option<string>, unit: string,
    periodStart: Option<string>, periodEnd: string, dimensions: map<string, string>, sourceLineItem: Option<string>)

  datatype Fact = Fact(cik: string, metricCode: string, dimensionKey: string, value: real, detail: Detail)

  /** A row: the statement it belongs to, and the fact as stored. */
  datatype Row = Row(factId: Uuid, versionId: Uuid, companyId: Uuid, fact: Fact)

  datatype Error = CompanyNotFound | VersionNotFound | DuplicateFact

  // ------------------------------------------------------------------ stored values

  /** The nearest integer, halves away from zero. */
  function Rounded(x: real): int {
    if x >= 0.0 then (x + 0.5).Floor else -(0.5 - x).Floor
  }

  lemma RoundedIsExact(x: real)
    ensures Rounded(x) as real == x <==> x == x.Floor as real
  {
    if x == x.Floor as real {
      var n := x.Floor;
      assert (n as real + 0.5).Floor == n && (0.5 - n as real).Floor == -n;
    }
  }

  /** It is within one half, and of two integers equally near the one away from zero. */
  lemma RoundsHalfAway(x: real)
    ensures -0.5 <= Rounded(x) as real - x <= 0.5
    ensures Rounded(x) as real - x in {-0.5, 0.5}
            ==> if x > 0.0 then Rounded(x) as real > x else (Rounded(x) as real) < x
  {
  }

  /** The value column keeps six decimals. */
  function Quantized(value: real): real {
    Rounded(value * 1000000.0) as real / 1000000.0
  }

  predicate FitsScale(value: real) {
    value * 1000000.0 == (value * 1000000.0).Floor as real
  }

  lemma QuantizedIsExact(value: real)
    ensures Quantized(value) == value <==> FitsScale(value)
  {
    RoundedIsExact(value * 1000000.0);
    hide Rounded;
    assert Quantized(value) * 1000000.0 == Rounded(value * 1000000.0) as real;
  }

  // ---------------------------------------------------------------- the statement

  datatype StatementVersion = StatementVersion(
    versionId: Uuid, companyId: Uuid, statementType: StatementType, statementDate: Date, fiscalYear: int,
    fiscalPeriod: FiscalPeriod, versionSequence: int)

  datatype Reference = Reference(companies: map<string, Uuid>, versions: seq<StatementVersion>)

  predicate IsVersionOf(sv: StatementVersion, identity: Identity, companyId: Uuid) {
    && sv.companyId == companyId && sv.statementType == identity.statementType
    && sv.fiscalYear == identity.fiscalYear && sv.fiscalPeriod == identity.fiscalPeriod
    && sv.versionSequence == identity.versionSequence
  }

  /** ORDER BY the id, LIMIT 1. */
  function VersionsOf(ref: Reference, identity: Identity, companyId: Uuid): seq<StatementVersion> {
    Sort(Filter(ref.versions, (sv: StatementVersion) => IsVersionOf(sv, identity, companyId)),
         (sv: StatementVersion) => sv.versionId, StringLe)
  }

  /** The version id of an identity, and its company. */
  function Resolve(ref: Reference, identity: Identity): Result<(Uuid, Uuid), Error> {
    if identity.cik !in ref.companies then Err(CompanyNotFound)
    else
      var companyId := ref.companies[identity.cik];
      var found := VersionsOf(ref, identity, companyId);
      if found == [] then Err(VersionNotFound) else Ok((found[0].versionId, companyId))
  }

  // ----------------------------------------------------- which version an identity means

  /** The keys of the versions table: the id; and company, type, date and sequence. */
  predicate VersionsTable(versions: seq<StatementVersion>) {
    forall i, j | 0 <= i < j < |versions| ::
      && versions[i].versionId != versions[j].versionId
      && !(versions[i].companyId == versions[j].companyId && versions[i].statementType == versions[j].statementType
           && versions[i].statementDate == versions[j].statementDate
           && versions[i].versionSequence == versions[j].versionSequence)
  }

  /** What identifies a version outside the database; the date is no part of it. */
  function IdentityOf(cik: string, v: StatementVersion): Identity {
    Identity(cik, v.statementType, v.fiscalYear, v.fiscalPeriod, v.versionSequence)
  }

  /** Two versions of one company that share an identity. */
  predicate Shares(v: StatementVersion, w: StatementVersion) {
    && v.companyId == w.companyId && v.statementType == w.statementType && v.fiscalYear == w.fiscalYear
    && v.fiscalPeriod == w.fiscalPeriod && v.versionSequence == w.versionSequence
  }

  predicate ResolvesTo(ref: Reference, cik: string, v: StatementVersion) {
    Resolve(ref, IdentityOf(cik, v)) == Ok((v.versionId, v.companyId))
  }

  /** A version's identity always resolves, to the least id among the versions that
      share it. */
  lemma ResolvesToLeastId(ref: Reference, cik: string, v: StatementVersion)
    requires VersionsTable(ref.versions) && v in ref.versions && cik in ref.companies
            && ref.companies[cik] == v.companyId
    ensures ResolvesTo(ref, cik, v) <==> forall w <- ref.versions | Shares(v, w) :: StringLe(v.versionId, w.versionId)
  {
    var found := VersionsOf(ref, IdentityOf(cik, v), v.companyId);
    FoundAreSharing(ref, cik, v);
    assert v in found;
    FoundLeast(ref, cik, v);
    StringOrder();
    hide StringLe, VersionsOf;
    assert found[0] in found;
    if StringLe(v.versionId, found[0].versionId) {
      assert found[0].versionId == v.versionId;
    }
  }

  lemma FoundAreSharing(ref: Reference, cik: string, v: StatementVersion)
    ensures forall w: StatementVersion :: w in VersionsOf(ref, IdentityOf(cik, v), v.companyId)
                                          <==> w in ref.versions && Shares(v, w)
  {
    var identity := IdentityOf(cik, v);
    var keep := (sv: StatementVersion) => IsVersionOf(sv, identity, v.companyId);
    var id := (sv: StatementVersion) => sv.versionId;
    StringOrder();
    hide StringLe;
    SortSorts(Filter(ref.versions, keep), id, StringLe);
    forall w: StatementVersion
      ensures w in VersionsOf(ref, identity, v.companyId) <==> w in ref.versions && Shares(v, w)
    {
      SameMembers(VersionsOf(ref, identity, v.companyId), Filter(ref.versions, keep), w);
      FilterMembers(ref.versions, keep, w);
    }
  }

  lemma FoundLeast(ref: Reference, cik: string, v: StatementVersion)
    ensures forall w <- VersionsOf(ref, IdentityOf(cik, v), v.companyId) ::
              StringLe(VersionsOf(ref, IdentityOf(cik, v), v.companyId)[0].versionId, w.versionId)
  {
    var identity := IdentityOf(cik, v);
    var found := VersionsOf(ref, identity, v.companyId);
    StringOrder();
    hide StringLe;
    SortSorts(Filter(ref.versions, (sv: StatementVersion) => IsVersionOf(sv, identity, v.companyId)),
              (sv: StatementVersion) => sv.versionId, StringLe);
    forall w | w in found
      ensures StringLe(found[0].versionId, w.versionId)
    {
      var i :| 0 <= i < |found| && found[i] == w;
    }
  }

  /** The versions of known companies. */
  predicate Known(ref: Reference, cik: string, v: StatementVersion) {
    v in ref.versions && cik in ref.companies && ref.companies[cik] == v.companyId
  }

  /** Facts are kept for the version that is meant, whichever that is, exactly when no
      two versions of a known company that share an identity differ in their date. */
  lemma EveryVersionResolvesIff(ref: Reference)
    requires VersionsTable(ref.versions)
    ensures (forall cik, v | Known(ref, cik, v) :: ResolvesTo(ref, cik, v))
            <==> forall cik, v, w | Known(ref, cik, v) && w in ref.versions && Shares(v, w) ::
                   v.statementDate == w.statementDate
  {
    hide ResolvesTo, StringLe;
    if forall cik, v, w | Known(ref, cik, v) && w in ref.versions
        && Shares(v, w) :: v.statementDate == w.statementDate {
      forall cik, v | Known(ref, cik, v)
        ensures ResolvesTo(ref, cik, v)
      {
        forall w | w in ref.versions && Shares(v, w)
          ensures StringLe(v.versionId, w.versionId)
        {
          SharingOnOneDate(ref.versions, v, w);
          StringLeReflexive(v.versionId);
        }
        ResolvesToLeastId(ref, cik, v);
      }
    }
    if forall cik, v | Known(ref, cik, v) :: ResolvesTo(ref, cik, v) {
      forall cik, v, w | Known(ref, cik, v) && w in ref.versions && Shares(v, w)
        ensures v.statementDate == w.statementDate
      {
        assert Known(ref, cik, w);
        OneAnswer(ref, cik, v, w);
      }
    }
  }

  lemma SharingOnOneDate(versions: seq<StatementVersion>, v: StatementVersion, w: StatementVersion)
    requires VersionsTable(versions) && v in versions && w in versions && Shares(v, w)
    requires v.statementDate == w.statementDate
    ensures v == w
  {
    var i :| 0 <= i < |versions| && versions[i] == v;
    var j :| 0 <= j < |versions| && versions[j] == w;
  }

  lemma OneAnswer(ref: Reference, cik: string, v: StatementVersion, w: StatementVersion)
    requires VersionsTable(ref.versions) && v in ref.versions && w in ref.versions && Shares(v, w)
    requires ResolvesTo(ref, cik, v) && ResolvesTo(ref, cik, w)
    ensures v == w
  {
    hide Resolve;
    var i :| 0 <= i < |ref.versions| && ref.versions[i] == v;
    var j :| 0 <= j < |ref.versions| && ref.versions[j] == w;
  }

  // -------------------------------------------------------------------- the table

  datatype FactKey = FactKey(metricCode: string, dimensionKey: string)
  datatype RowKey = RowKey(metricCode: string, dimensionKey: string, factId: Uuid)

  function KeyOf(f: Fact): FactKey {
    FactKey(f.metricCode, f.dimensionKey)
  }

  function RowKeyOf(r: Row): RowKey {
    RowKey(r.fact.metricCode, r.fact.dimensionKey, r.factId)
  }

  predicate FactKeyLe(a: FactKey, b: FactKey) {
    if a.metricCode != b.metricCode then StringLe(a.metricCode, b.metricCode)
    else StringLe(a.dimensionKey, b.dimensionKey)
  }

  predicate RowKeyLe(a: RowKey, b: RowKey) {
    if a.metricCode != b.metricCode then StringLe(a.metricCode, b.metricCode)
    else if a.dimensionKey != b.dimensionKey then StringLe(a.dimensionKey, b.dimensionKey)
    else StringLe(a.factId, b.factId)
  }

  /** UNIQUE (statement_version_id, metric_code, dimension_key), for one version. */
  predicate Unique(facts: seq<Fact>) {
    forall i, j | 0 <= i < j < |facts| :: KeyOf(facts[i]) != KeyOf(facts[j])
  }

  function AsStored(f: Fact): Fact {
    f.(value := Quantized(f.value))
  }

  /** A fact as it comes back: under the identity's cik and with the stored value. */
  function AsRead(cik: string): Fact -> Fact {
    (f: Fact) => AsStored(f).(cik := cik)
  }

  function ToRows(facts: seq<Fact>, versionId: Uuid, companyId: Uuid, ids: seq<Uuid>): (rows: seq<Row>)
    requires |ids| == |facts|
    ensures |rows| == |facts|
    ensures forall i | 0 <= i < |facts| :: rows[i] == Row(ids[i], versionId, companyId, AsStored(facts[i]))
  {
    seq(|facts|, i requires 0 <= i < |facts| => Row(ids[i], versionId, companyId, AsStored(facts[i])))
  }

  function OfVersion(v: Uuid): Row -> bool {
    (r: Row) => r.versionId == v
  }

  function NotOfVersion(v: Uuid): Row -> bool {
    (r: Row) => r.versionId != v
  }

  /** The metric filter of a listing; an empty one does not filter. */
  function Wanted(metrics: seq<string>): Row -> bool {
    (r: Row) => metrics == [] || r.fact.metricCode in metrics
  }

  function ToDomain(cik: string): Row -> Fact {
    (r: Row) => r.fact.(cik := cik)
  }

  function Replaced(rows: seq<Row>, versionId: Uuid, companyId: Uuid, facts: seq<Fact>, ids: seq<Uuid>): seq<Row>
    requires |ids| == |facts|
  {
    Filter(rows, NotOfVersion(versionId)) + ToRows(facts, versionId, companyId, ids)
  }

  function Listing(ref: Reference, rows: seq<Row>, identity: Identity, metrics: seq<string>): Result<seq<Fact>, Error> {
    match Resolve(ref, identity)
    case Err(e) => Err(e)
    case Ok((v, _)) =>
      Ok(Map(Sort(Filter(Filter(rows, OfVersion(v)), Wanted(metrics)), RowKeyOf, RowKeyLe), ToDomain(identity.cik)))
  }

  class EdgarFactsRepository {
    const ref: Reference
    var rows: seq<Row>

    constructor (ref: Reference)
      ensures this.ref == ref && rows == []
    {
      this.ref := ref;
      rows := [];
    }

    /** `replace_facts_for_statement`. Facts that clash on their key violate the
        unique constraint; the statement fails and the transaction keeps nothing. */
    method ReplaceFactsForStatement(identity: Identity, facts: seq<Fact>, ids: seq<Uuid>) returns (r: Result<(), Error>)
      requires |ids| == |facts|
      modifies this
      ensures r.Ok? <==> Resolve(ref, identity).Ok? && Unique(facts)
      ensures r.Ok? ==>
                var (v, c) := Resolve(ref, identity).value;
                rows == Replaced(old(rows), v, c, facts, ids)
      ensures r.Err? ==> rows == old(rows)
    {
      match Resolve(ref, identity) {
        case Err(e) => return Err(e);
        case Ok((versionId, companyId)) =>
          var kept := Filter(rows, NotOfVersion(versionId));
          if facts == [] {
            rows := kept;
            assert kept + ToRows(facts, versionId, companyId, ids) == kept;
            return Ok(());
          }
          if !Unique(facts) {
            return Err(DuplicateFact);
          }
          rows := kept + ToRows(facts, versionId, companyId, ids);
          r := Ok(());
      }
    }

    method ListFactsForStatement(identity: Identity, metrics: seq<string>) returns (r: Result<seq<Fact>, Error>)
      ensures r == Listing(ref, rows, identity, metrics)
    {
      match Resolve(ref, identity) {
        case Err(e) => r := Err(e);
        case Ok((versionId, _)) =>
          var selected := Filter(Filter(rows, OfVersion(versionId)), Wanted(metrics));
          r := Ok(Map(Sort(selected, RowKeyOf, RowKeyLe), ToDomain(identity.cik)));
      }
    }
  }

  // --------------------------------------------------------------------- the laws

  lemma KeyOrders()
    ensures TotalOrder(FactKeyLe) && TotalOrder(RowKeyLe)
  {
    StringOrder();
    hide StringLe;
  }

  lemma SelectReplaced(rows: seq<Row>, v: Uuid, c: Uuid, facts: seq<Fact>, ids: seq<Uuid>, w: Uuid)
    requires |ids| == |facts|
    ensures Filter(Replaced(rows, v, c, facts, ids), OfVersion(w))
            == if w == v then ToRows(facts, v, c, ids) else Filter(rows, OfVersion(w))
  {
    var kept, added := Filter(rows, NotOfVersion(v)), ToRows(facts, v, c, ids);
    FilterConcat(kept, added, OfVersion(w));
    FilterTwice(rows, NotOfVersion(v), OfVersion(w));
    FilterAll(added, OfVersion(w));
    assert w == v ==> Filter(kept, OfVersion(w)) == [];
    assert [] + added == added && Filter(rows, OfVersion(w)) + [] == Filter(rows, OfVersion(w));
  }

  lemma WantedAll(rows: seq<Row>)
    ensures Filter(rows, Wanted([])) == rows
  {
    FilterAll(rows, Wanted([]));
  }

  /** Among rows of distinct facts the drawn ids never decide the order. */
  lemma RowOrderIsFactOrder(facts: seq<Fact>, v: Uuid, c: Uuid, ids: seq<Uuid>, cik: string)
    requires |ids| == |facts| && Unique(facts)
    ensures var rows := ToRows(facts, v, c, ids);
            forall x <- rows :: Carries(x, rows, ToDomain(cik), RowKeyOf, RowKeyLe, KeyOf, FactKeyLe)
  {
    StringOrder();
    hide StringLe, TotalOrder;
    var rows := ToRows(facts, v, c, ids);
    forall x, y | x in rows && y in rows
      ensures RowKeyLe(RowKeyOf(x), RowKeyOf(y)) <==> FactKeyLe(KeyOf(ToDomain(cik)(x)), KeyOf(ToDomain(cik)(y)))
    {
      var i :| 0 <= i < |rows| && rows[i] == x;
      var j :| 0 <= j < |rows| && rows[j] == y;
      if i < j { assert KeyOf(facts[i]) != KeyOf(facts[j]); }
      if j < i { assert KeyOf(facts[j]) != KeyOf(facts[i]); }
      StringLeReflexive(x.factId);
      StringLeReflexive(x.fact.dimensionKey);
    }
  }

  /** After a replacement, listing that identity gives exactly the given facts, as
      read back, sorted by metric code and dimension key; it does not depend on
      what was stored before, on the drawn ids, or on the order given. */
  lemma ReplaceThenList(ref: Reference, rows: seq<Row>, identity: Identity, facts: seq<Fact>, ids: seq<Uuid>)
    requires |ids| == |facts| && Resolve(ref, identity).Ok? && Unique(facts)
    ensures var (v, c) := Resolve(ref, identity).value;
            Listing(ref, Replaced(rows, v, c, facts, ids), identity, [])
            == Ok(Sort(Map(facts, AsRead(identity.cik)), KeyOf, FactKeyLe))
  {
    var (v, c) := Resolve(ref, identity).value;
    var added := ToRows(facts, v, c, ids);
    SelectReplaced(rows, v, c, facts, ids, v);
    WantedAll(added);
    KeyOrders();
    RowOrderIsFactOrder(facts, v, c, ids, identity.cik);
    MapSort(added, ToDomain(identity.cik), RowKeyOf, RowKeyLe, KeyOf, FactKeyLe);
    assert Map(added, ToDomain(identity.cik)) == Map(facts, AsRead(identity.cik));
  }

  /** Some row of the version that the filter wants holds the fact, but for its cik. */
  predicate HeldFor(f: Fact, rows: seq<Row>, v: Uuid, cik: string, metrics: seq<string>) {
    exists i | 0 <= i < |rows| ::
      && rows[i].versionId == v && (metrics == [] || rows[i].fact.metricCode in metrics)
      && f == rows[i].fact.(cik := cik)
  }

  function Selection(rows: seq<Row>, v: Uuid, metrics: seq<string>): seq<Row> {
    Sort(Filter(Filter(rows, OfVersion(v)), Wanted(metrics)), RowKeyOf, RowKeyLe)
  }

  lemma SelectionIs(rows: seq<Row>, v: Uuid, metrics: seq<string>, row: Row)
    ensures row in Selection(rows, v, metrics)
            <==> row in rows && row.versionId == v && (metrics == [] || row.fact.metricCode in metrics)
  {
    var selected := Filter(Filter(rows, OfVersion(v)), Wanted(metrics));
    KeyOrders();
    SortSorts(selected, RowKeyOf, RowKeyLe);
    SameMembers(Selection(rows, v, metrics), selected, row);
    FilterMembers(Filter(rows, OfVersion(v)), Wanted(metrics), row);
    FilterMembers(rows, OfVersion(v), row);
  }

  lemma SelectionAscends(rows: seq<Row>, v: Uuid, metrics: seq<string>)
    ensures SortedBy(Selection(rows, v, metrics), RowKeyOf, RowKeyLe)
  {
    KeyOrders();
    SortSorts(Filter(Filter(rows, OfVersion(v)), Wanted(metrics)), RowKeyOf, RowKeyLe);
  }

  lemma HeldIffSelected(f: Fact, rows: seq<Row>, v: Uuid, cik: string, metrics: seq<string>)
    ensures f in Map(Selection(rows, v, metrics), ToDomain(cik)) <==> HeldFor(f, rows, v, cik, metrics)
  {
    hide Selection;
    var selection := Selection(rows, v, metrics);
    var r := Map(selection, ToDomain(cik));
    if f in r {
      var k :| 0 <= k < |r| && r[k] == f;
      SelectionIs(rows, v, metrics, selection[k]);
      var i :| 0 <= i < |rows| && rows[i] == selection[k];
    }
    if i :| 0 <= i < |rows| && rows[i].versionId == v && (metrics == [] || rows[i].fact.metricCode in metrics)
            && f == rows[i].fact.(cik := cik) {
      SelectionIs(rows, v, metrics, rows[i]);
      var k :| 0 <= k < |selection| && selection[k] == rows[i];
      assert r[k] == f;
    }
  }

  /** What a listing holds, told from the rows: the facts of the statement's rows that
      the filter wants, under the identity's cik; by metric code and then dimension key. */
  lemma ListingIsExactly(ref: Reference, rows: seq<Row>, identity: Identity, metrics: seq<string>)
    requires Resolve(ref, identity).Ok?
    ensures Listing(ref, rows, identity, metrics).Ok?
    ensures var v, r := Resolve(ref, identity).value.0, Listing(ref, rows, identity, metrics).value;
            && (forall f: Fact :: f in r <==> HeldFor(f, rows, v, identity.cik, metrics))
            && forall i, j | 0 <= i < j < |r| ::
                 && NotAfter(r[i].metricCode, r[j].metricCode)
                 && (r[i].metricCode == r[j].metricCode ==> NotAfter(r[i].dimensionKey, r[j].dimensionKey))
  {
    var v := Resolve(ref, identity).value.0;
    var selection := Selection(rows, v, metrics);
    var r := Listing(ref, rows, identity, metrics).value;
    assert r == Map(selection, ToDomain(identity.cik));
    hide Resolve, Listing, Selection, HeldFor;
    SelectionAscends(rows, v, metrics);
    forall f: Fact
      ensures f in r <==> HeldFor(f, rows, v, identity.cik, metrics)
    {
      HeldIffSelected(f, rows, v, identity.cik, metrics);
    }
    forall i, j | 0 <= i < j < |r|
      ensures NotAfter(r[i].metricCode, r[j].metricCode)
      ensures r[i].metricCode == r[j].metricCode ==> NotAfter(r[i].dimensionKey, r[j].dimensionKey)
    {
      RowOrder(selection[i], selection[j]);
    }
  }

  lemma RowOrder(a: Row, b: Row)
    requires RowKeyLe(RowKeyOf(a), RowKeyOf(b))
    ensures NotAfter(a.fact.metricCode, b.fact.metricCode)
    ensures a.fact.metricCode == b.fact.metricCode ==> NotAfter(a.fact.dimensionKey, b.fact.dimensionKey)
  {
    StringLeIff(a.fact.metricCode, b.fact.metricCode);
    StringLeIff(a.fact.dimensionKey, b.fact.dimensionKey);
    StringLeReflexive(a.fact.metricCode);
    StringLeReflexive(a.fact.dimensionKey);
    hide StringLe, NotAfter;
  }

  /** The order of facts alike. */
  lemma FactOrder(a: Fact, b: Fact)
    ensures FactKeyLe(KeyOf(a), KeyOf(b))
            <==> && NotAfter(a.metricCode, b.metricCode)
                 && (a.metricCode == b.metricCode ==> NotAfter(a.dimensionKey, b.dimensionKey))
  {
    StringLeIff(a.metricCode, b.metricCode);
    StringLeIff(a.dimensionKey, b.dimensionKey);
    StringLeReflexive(a.metricCode);
    hide StringLe, NotAfter;
  }

  lemma ReadUnchanged(cik: string, f: Fact)
    ensures AsRead(cik)(f) == f <==> f.cik == cik && FitsScale(f.value)
  {
    QuantizedIsExact(f.value);
  }

  /** When the facts carry the identity's cik and their values fit the stored
      scale, the listing is a permutation of the facts themselves, strictly sorted. */
  lemma ListingIsPermutation(ref: Reference, rows: seq<Row>, identity: Identity, facts: seq<Fact>, ids: seq<Uuid>)
    requires |ids| == |facts| && Resolve(ref, identity).Ok? && Unique(facts)
    requires forall f <- facts :: f.cik == identity.cik && FitsScale(f.value)
    ensures var (v, c) := Resolve(ref, identity).value;
            var r := Listing(ref, Replaced(rows, v, c, facts, ids), identity, []);
            r.Ok? && multiset(r.value) == multiset(facts) && SortedBy(r.value, KeyOf, FactKeyLe)
  {
    ReplaceThenList(ref, rows, identity, facts, ids);
    hide Listing, Resolve, Replaced, FitsScale;
    forall i | 0 <= i < |facts|
      ensures AsRead(identity.cik)(facts[i]) == facts[i]
    {
      assert facts[i] in facts;
      ReadUnchanged(identity.cik, facts[i]);
    }
    assert Map(facts, AsRead(identity.cik)) == facts;
    KeyOrders();
    SortSorts(facts, KeyOf, FactKeyLe);
  }

  /** A non-empty metric filter gives exactly the matching part of the full
      listing, in the same order. */
  lemma FilteredListing(ref: Reference, rows: seq<Row>, identity: Identity, metrics: seq<string>)
    requires Resolve(ref, identity).Ok? && metrics != []
    ensures Listing(ref, rows, identity, metrics)
            == Ok(Filter(Listing(ref, rows, identity, []).value, (f: Fact) => f.metricCode in metrics))
  {
    var v := Resolve(ref, identity).value.0;
    hide Resolve;
    var selected := Filter(rows, OfVersion(v));
    var sorted := Sort(selected, RowKeyOf, RowKeyLe);
    WantedAll(selected);
    KeyOrders();
    FilterSort(selected, Wanted(metrics), RowKeyOf, RowKeyLe);
    FilterMap(sorted, ToDomain(identity.cik), Wanted(metrics), (f: Fact) => f.metricCode in metrics);
  }

  /** Replacing one statement's facts changes no other statement's listing. */
  lemma OthersUnchanged(ref: Reference, rows: seq<Row>, identity: Identity, facts: seq<Fact>, ids: seq<Uuid>,
                        other: Identity, metrics: seq<string>)
    requires |ids| == |facts| && Resolve(ref, identity).Ok?
    requires Resolve(ref, other).Ok? ==> Resolve(ref, other).value.0 != Resolve(ref, identity).value.0
    ensures var (v, c) := Resolve(ref, identity).value;
            Listing(ref, Replaced(rows, v, c, facts, ids), other, metrics) == Listing(ref, rows, other, metrics)
  {
    var (v, c) := Resolve(ref, identity).value;
    if Resolve(ref, other).Ok? {
      SelectReplaced(rows, v, c, facts, ids, Resolve(ref, other).value.0);
    }
  }
}
