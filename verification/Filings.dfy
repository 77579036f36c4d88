/** The filings table and its batch upsert by accession. */
module Filings {
  import opened Wrappers
  import opened Text
  import opened Dates
  import opened Upserts

  type CompanyId = string

  /** `uuid5` under the fixed filing namespace: a different id for every name. */
  datatype FilingId = Uuid5(name: string)

  datatype FilingFields = FilingFields(
    accessionId: string, cik: string, filingType: string, filingDate: Date, periodEnd: Option<Date>,
    acceptedAt: Option<string>, isAmendment: bool, amendmentSequence: Option<int>,
    primaryDocument: Option<string>, dataSource: string)

  /** What holds of every constructed `EdgarFiling`. */
  predicate Constructed(f: FilingFields) {
    && f.accessionId != "" && Stripped(f.accessionId)
    && (f.periodEnd.Some? ==> !Before(f.filingDate, f.periodEnd.value))
    && (if f.isAmendment then f.amendmentSequence.Some? && f.amendmentSequence.value > 0 else f.amendmentSequence.None?)
    && Strip(f.dataSource) != ""
  }

  const SAMPLE_DATE: Date := YearMonthDay(1, 1, 1)

  type Filing = f: FilingFields | Constructed(f)
    witness FilingFields("0", "", "", SAMPLE_DATE, None, None, false, None, None, "EDGAR")

  datatype Error = EdgarMappingError | DatabaseError

  /** `EdgarFiling(...)`: strips the accession, and refuses what is left out above. */
  function Construct(f: FilingFields): (r: Result<Filing, Error>)
    ensures r.Ok? ==> r.value == f.(accessionId := Strip(f.accessionId))
  {
    var g := f.(accessionId := Strip(f.accessionId));
    StripResult(f.accessionId);
    if Constructed(g) then Ok(g) else Err(EdgarMappingError)
  }

  /** What a filing must meet to be constructed, told from its fields. */
  lemma ConstructsIff(f: FilingFields)
    ensures Construct(f).Ok?
            <==> && Strip(f.accessionId) != "" && Strip(f.dataSource) != ""
                 && (f.periodEnd.Some? ==> Ordinal(f.periodEnd.value) <= Ordinal(f.filingDate))
                 && (f.isAmendment ==> f.amendmentSequence.Some? && f.amendmentSequence.value >= 1)
                 && (!f.isAmendment ==> f.amendmentSequence.None?)
  {
    StripResult(f.accessionId);
    hide Strip, Stripped, Ordinal, Before;
    if f.periodEnd.Some? {
      OrdinalOrders(f.filingDate, f.periodEnd.value);
      OrdinalOrders(f.periodEnd.value, f.filingDate);
    }
  }

  datatype FilingRow = FilingRow(
    filingId: FilingId, companyId: Option<CompanyId>, cik: string, formType: string, filedAt: Date,
    periodOfReport: Option<Date>, metadata: Option<string>, isAmendment: bool, amendmentSequence: Option<int>,
    primaryDocument: Option<string>, acceptedAt: Option<string>, filingUrl: Option<string>, dataSource: string)

  type Table = map<string, FilingRow>

  type Companies = map<string, CompanyId>

  function Resolve(cik: string, overrides: Companies, companies: Companies): Option<CompanyId> {
    if cik in overrides then Some(overrides[cik])
    else if cik in companies then Some(companies[cik])
    else None
  }

  function ResolvedFor(ciks: set<string>, overrides: Companies, companies: Companies): Companies {
    map c | c in ciks && Resolve(c, overrides, companies).Some? :: Resolve(c, overrides, companies).value
  }

  /** The overrides among `seen` that are wanted. */
  function FromOverrides(ciks: set<string>, overrides: Companies, seen: set<string>): Companies {
    map c | c in seen && c in overrides && c in ciks :: overrides[c]
  }

  lemma NoOverrides(ciks: set<string>, overrides: Companies)
    ensures FromOverrides(ciks, overrides, {}) == map[]
  {
  }

  lemma OverridesStep(ciks: set<string>, overrides: Companies, seen: set<string>, c: string)
    requires c in overrides
    ensures FromOverrides(ciks, overrides, seen + {c})
            == if c in ciks then FromOverrides(ciks, overrides, seen)[c := overrides[c]]
               else FromOverrides(ciks, overrides, seen)
  {
  }

  lemma ResolvedInTwoSteps(ciks: set<string>, overrides: Companies, companies: Companies)
    ensures var first := FromOverrides(ciks, overrides, overrides.Keys);
            var remaining := set c | c in ciks && c !in first;
            && ResolvedFor(ciks, overrides, companies)
               == first + (map c | c in remaining && c in companies :: companies[c])
            && (remaining == {} ==> ResolvedFor(ciks, overrides, companies) == first)
  {
  }

  /** The row that is sent: `accession` is the name the id is derived from. */
  function NewRow(f: Filing, accession: string, companyId: Option<CompanyId>): FilingRow {
    FilingRow(Uuid5(accession), companyId, f.cik, f.filingType, f.filingDate, f.periodEnd, None, f.isAmendment,
              f.amendmentSequence, f.primaryDocument, f.acceptedAt, None, f.dataSource)
  }

  /** A row of the statement, with the value of its unique column. */
  datatype SentRow = SentRow(accession: string, row: FilingRow)

  /** ON CONFLICT sets every column but the id, the accession and the metadata. */
  function Conflict(row: FilingRow, sent: FilingRow): FilingRow {
    sent.(filingId := row.filingId, metadata := row.metadata)
  }

  const STATEMENT: Schema<string, SentRow, FilingRow> :=
    Schema((s: SentRow) => s.accession, (s: SentRow) => s.row, (row: FilingRow, s: SentRow) => Conflict(row, s.row))

  /** Upserting one filing. */
  function FilingSchema(overrides: Companies, companies: Companies): Schema<string, Filing, FilingRow> {
    var insert := (f: Filing) => NewRow(f, f.accessionId, Resolve(f.cik, overrides, companies));
    Schema((f: Filing) => f.accessionId, insert, (row: FilingRow, f: Filing) => Conflict(row, insert(f)))
  }

  lemma SchemaFacts(overrides: Companies, companies: Companies, f: Filing, row: FilingRow)
    ensures var s := FilingSchema(overrides, companies);
            var sent := NewRow(f, f.accessionId, Resolve(f.cik, overrides, companies));
            s.key(f) == f.accessionId && s.insert(f) == sent && s.update(row, f) == Conflict(row, sent)
  {
    hide NewRow, Resolve, Conflict;
  }

  lemma SchemaKeys(overrides: Companies, companies: Companies)
    ensures forall f: Filing :: FilingSchema(overrides, companies).key(f) == f.accessionId
  {
  }

  const SAMPLE_ROW: FilingRow :=
    FilingRow(Uuid5(""), None, "", "", SAMPLE_DATE, None, None, false, None, None, None, None, "")

  lemma FilingsOverwrite(overrides: Companies, companies: Companies)
    ensures Overwrites(FilingSchema(overrides, companies))
  {
    hide FilingSchema, Constructed, Resolve;
    var s := FilingSchema(overrides, companies);
    forall r: FilingRow, v: Filing, w: Filing
      ensures s.update(s.update(r, v), w) == s.update(r, w)
    {
      SchemaFacts(overrides, companies, v, r);
      SchemaFacts(overrides, companies, w, r);
      SchemaFacts(overrides, companies, w, s.update(r, v));
    }
    forall v: Filing, w: Filing | s.key(v) == s.key(w)
      ensures s.update(s.insert(v), w) == s.insert(w)
    {
      SchemaFacts(overrides, companies, v, s.insert(v));
      SchemaFacts(overrides, companies, w, s.insert(v));
    }
  }

  /** Inserting the filing would take a primary key that another accession's row has. */
  predicate Clashes(table: Table, accession: string) {
    accession !in table && exists k <- table :: table[k].filingId == Uuid5(accession)
  }

  predicate AnyClash(table: Table, filings: seq<Filing>) {
    exists i | 0 <= i < |filings| :: Clashes(table, filings[i].accessionId)
  }

  /** One call: a batch and its overrides. */
  datatype Batch = Batch(filings: seq<Filing>, overrides: Companies)

  function UpsertBatchOf(companies: Companies, table: Table, b: Batch): Table {
    if AnyClash(table, b.filings) then table
    else UpsertEach(FilingSchema(b.overrides, companies), table, b.filings)
  }

  predicate SentClash(table: Table, payload: seq<SentRow>) {
    exists i | 0 <= i < |payload| :: Clashes(table, payload[i].accession)
  }

  lemma SentKeyIs(payload: seq<SentRow>, k: string)
    ensures KeyIn(STATEMENT, payload, k) <==> exists i | 0 <= i < |payload| :: payload[i].accession == k
  {
  }

  lemma FilingKeyIs(overrides: Companies, companies: Companies, filings: seq<Filing>, k: string)
    ensures KeyIn(FilingSchema(overrides, companies), filings, k)
            <==> exists i | 0 <= i < |filings| :: filings[i].accessionId == k
  {
    SchemaKeys(overrides, companies);
    hide FilingSchema, Constructed;
  }

  /** The statement clashes exactly when the batch does. */
  lemma SameClashes(overrides: Companies, companies: Companies, table: Table, filings: seq<Filing>,
                    items: seq<Filing>, payload: seq<SentRow>)
    requires var s := FilingSchema(overrides, companies);
             Lists(s, items, LastByKey(s, filings)) && Alike(s, STATEMENT, items, payload)
    ensures SentClash(table, payload) <==> AnyClash(table, filings)
  {
    hide FilingSchema, Constructed, Alike, Lists, LastByKey, KeyIn, Clashes;
    var s := FilingSchema(overrides, companies);
    if i :| 0 <= i < |payload| && Clashes(table, payload[i].accession) {
      var k := payload[i].accession;
      SentKeyIs(payload, k);
      FilingKeyIs(overrides, companies, filings, k);
      SentKeys(s, STATEMENT, filings, items, payload, k);
    }
    if j :| 0 <= j < |filings| && Clashes(table, filings[j].accessionId) {
      var k := filings[j].accessionId;
      SentKeyIs(payload, k);
      FilingKeyIs(overrides, companies, filings, k);
      SentKeys(s, STATEMENT, filings, items, payload, k);
    }
  }

  /** The statement, when it goes through, does what one-row upserts would do. */
  lemma StatementIsEach(overrides: Companies, companies: Companies, table: Table, filings: seq<Filing>,
                        items: seq<Filing>, payload: seq<SentRow>)
    requires var s := FilingSchema(overrides, companies);
             Lists(s, items, LastByKey(s, filings)) && Alike(s, STATEMENT, items, payload)
    ensures Execute(STATEMENT, table, payload) == Ok(UpsertEach(FilingSchema(overrides, companies), table, filings))
  {
    hide FilingSchema, Constructed, Alike, Lists, LastByKey, Execute, Overwrites, Keyed, UpsertBatch;
    var s := FilingSchema(overrides, companies);
    var dedup := LastByKey(s, filings);
    LastByKeyIsKeyed(s, filings);
    ListedAreDistinct(s, items, dedup);
    ExecuteAlike(s, STATEMENT, table, items, payload);
    ExecuteListed(s, table, items, dedup);
    FilingsOverwrite(overrides, companies);
    BatchIsEach(s, table, filings);
  }

  class EdgarFilingsRepository {
    const companies: Companies
    var table: Table

    constructor (companies: Companies)
      ensures this.companies == companies && table == map[]
    {
      this.companies := companies;
      table := map[];
    }

    /** Overrides first, then one query for what remains. */
    method ResolveCompanyIds(ciks: set<string>, overrides: Companies) returns (resolved: Companies)
      ensures resolved == ResolvedFor(ciks, overrides, companies)
    {
      hide FromOverrides, ResolvedFor;
      resolved := map[];
      var rest := overrides.Keys;
      NoOverrides(ciks, overrides);
      assert overrides.Keys - rest == {};
      while rest != {}
        invariant rest <= overrides.Keys
        invariant resolved == FromOverrides(ciks, overrides, overrides.Keys - rest)
        decreases |rest|
      {
        var c :| c in rest;
        OverridesStep(ciks, overrides, overrides.Keys - rest, c);
        assert overrides.Keys - (rest - {c}) == overrides.Keys - rest + {c};
        rest := rest - {c};
        if c in ciks {
          resolved := resolved[c := overrides[c]];
        }
      }
      assert overrides.Keys - rest == overrides.Keys;
      ResolvedInTwoSteps(ciks, overrides, companies);
      var remaining := set c | c in ciks && c !in resolved;
      if remaining == {} {
        return;
      }
      resolved := resolved + map c | c in remaining && c in companies :: companies[c];
    }

    /** The dict of a batch: a later filing replaces an earlier one. */
    method Deduplicate(filings: seq<Filing>, ghost overrides: Companies) returns (r: Result<map<string, Filing>, Error>)
      ensures r == Ok(LastByKey(FilingSchema(overrides, companies), filings))
    {
      ghost var schema := FilingSchema(overrides, companies);
      assert forall f: Filing :: schema.key(f) == f.accessionId;
      hide FilingSchema, Strip;
      var dedup: map<string, Filing> := map[];
      for i := 0 to |filings|
        invariant dedup == LastByKey(schema, filings[..i])
      {
        var acc := Strip(filings[i].accessionId);
        StripIdle(filings[i].accessionId);
        if acc == "" {
          return Err(EdgarMappingError);
        }
        dedup := dedup[acc := filings[i]];
        assert filings[..i + 1][..i] == filings[..i];
      }
      assert filings[..|filings|] == filings;
      r := Ok(dedup);
    }

    /** The rows of the statement, one per deduplicated filing. */
    method BuildPayload(items: seq<Filing>, overrides: Companies) returns (payload: seq<SentRow>)
      ensures Alike(FilingSchema(overrides, companies), STATEMENT, items, payload)
    {
      hide Strip;
      var ciks := set f | f in items :: f.cik;
      var resolved := ResolveCompanyIds(ciks, overrides);
      payload := [];
      for i := 0 to |items|
        invariant |payload| == i
        invariant forall j | 0 <= j < i ::
                    payload[j] == SentRow(items[j].accessionId,
                                          NewRow(items[j], items[j].accessionId,
                                              Resolve(items[j].cik, overrides, companies)))
      {
        var f := items[i];
        assert f.cik in ciks;
        var companyId := if f.cik in resolved then Some(resolved[f.cik]) else None;
        var acc := Strip(f.accessionId);
        StripIdle(f.accessionId);
        payload := payload + [SentRow(f.accessionId, NewRow(f, acc, companyId))];
      }
    }

    /** `upsert_filings`: the batch fails, and writes nothing, exactly when a filing
        to insert clashes on the primary key; otherwise its effect is that of
        upserting the filings one by one, left to right. */
    method UpsertFilings(filings: seq<Filing>, overrides: Companies) returns (r: Result<nat, Error>)
      modifies this
      ensures r == if AnyClash(old(table), filings) then Err(DatabaseError) else Ok(|filings|)
      ensures table == UpsertBatchOf(companies, old(table), Batch(filings, overrides))
    {
      hide FilingSchema, Alike, Execute, Lists, Keyed, UpsertBatch, LastByKey, SentClash, Constructed;
      if filings == [] {
        EmptyBatch(companies, table, overrides);
        return Ok(0);
      }
      hide AnyClash, UpsertEach;
      var schema := FilingSchema(overrides, companies);
      var deduplicated := Deduplicate(filings, overrides);
      match deduplicated {
        case Err(e) => return Err(e);
        case Ok(dedup) =>
          LastByKeyIsKeyed(schema, filings);
          var items := ListRows(schema, dedup);
          var payload := BuildPayload(items, overrides);
          SameClashes(overrides, companies, table, filings, items, payload);
          StatementIsEach(overrides, companies, table, filings, items, payload);
          if SentClash(table, payload) {
            return Err(DatabaseError);
          }
          match Execute(STATEMENT, table, payload) {
            case Ok(updated) => table := updated;
            case Err(_) => return Err(DatabaseError);
          }
          r := Ok(|filings|);
      }
    }
  }

  lemma EmptyBatch(companies: Companies, table: Table, overrides: Companies)
    ensures !AnyClash(table, []) && UpsertBatchOf(companies, table, Batch([], overrides)) == table
  {
  }

  // ------------------------------------------------------------------ whole runs

  function RunBatches(companies: Companies, batches: seq<Batch>): Table {
    if batches == [] then map[]
    else UpsertBatchOf(companies, RunBatches(companies, batches[..|batches| - 1]), batches[|batches| - 1])
  }

  /** Every row carries the id derived from its accession. */
  predicate IdsFromAccessions(table: Table) {
    forall k <- table :: table[k].filingId == Uuid5(k) && table[k].metadata == None
  }

  lemma OneKeepsIds(overrides: Companies, companies: Companies, table: Table, f: Filing)
    requires IdsFromAccessions(table)
    ensures IdsFromAccessions(UpsertOne(FilingSchema(overrides, companies), table, f))
  {
    hide FilingSchema, Constructed, Resolve;
    var k := f.accessionId;
    if k in table {
      SchemaFacts(overrides, companies, f, table[k]);
    } else {
      SchemaFacts(overrides, companies, f, NewRow(f, k, None));
    }
  }

  lemma {:induction false} EachKeepsIds(overrides: Companies, companies: Companies, table: Table, filings: seq<Filing>)
    requires IdsFromAccessions(table)
    ensures IdsFromAccessions(UpsertEach(FilingSchema(overrides, companies), table, filings))
  {
    if filings != [] {
      hide FilingSchema, IdsFromAccessions, UpsertOne;
      var init := filings[..|filings| - 1];
      EachKeepsIds(overrides, companies, table, init);
      OneKeepsIds(overrides, companies, UpsertEach(FilingSchema(overrides, companies), table, init),
          filings[|filings| - 1]);
    }
  }

  /** Derived ids never clash. */
  lemma DerivedIdsNeverClash(table: Table, filings: seq<Filing>)
    requires IdsFromAccessions(table)
    ensures !AnyClash(table, filings)
  {
  }

  lemma BatchKeepsIds(companies: Companies, table: Table, b: Batch)
    requires IdsFromAccessions(table)
    ensures !AnyClash(table, b.filings) && IdsFromAccessions(UpsertBatchOf(companies, table, b))
  {
    DerivedIdsNeverClash(table, b.filings);
    hide IdsFromAccessions, AnyClash, FilingSchema, UpsertEach;
    EachKeepsIds(b.overrides, companies, table, b.filings);
  }

  lemma EmptyKeepsIds()
    ensures IdsFromAccessions(map[])
  {
  }

  /** A table built only by batch upserts, of any number and with any overrides,
      identifies every filing by the id derived from its accession; so no batch of
      the run ever fails. */
  lemma {:induction false} IdsStayDerived(companies: Companies, batches: seq<Batch>)
    ensures IdsFromAccessions(RunBatches(companies, batches))
    ensures forall i | 0 <= i < |batches| :: !AnyClash(RunBatches(companies, batches[..i]), batches[i].filings)
  {
    hide IdsFromAccessions, AnyClash, UpsertBatchOf;
    if batches == [] {
      EmptyKeepsIds();
    } else {
      var n := |batches| - 1;
      IdsStayDerived(companies, batches[..n]);
      BatchKeepsIds(companies, RunBatches(companies, batches[..n]), batches[n]);
      hide RunBatches;
      forall i | 0 <= i < n
        ensures !AnyClash(RunBatches(companies, batches[..i]), batches[i].filings)
      {
        assert batches[..n][..i] == batches[..i] && batches[..n][i] == batches[i];
      }
    }
  }

  /** That relies on filings being stripped when they are constructed: the id is
      derived from the stripped name, and the row carries the name itself. */
  lemma IdNeedsStripping(accession: string)
    ensures Uuid5(Strip(accession)) == Uuid5(accession) <==> Stripped(accession)
  {
    StripResult(accession);
    if Stripped(accession) { StripIdle(accession); }
  }

  // --------------------------------------------------- what a batch does to a table

  /** The row a filing stands for. */
  function RowFor(f: Filing, b: Batch, companies: Companies): FilingRow {
    NewRow(f, f.accessionId, Resolve(f.cik, b.overrides, companies))
  }

  /** The index of the last filing of an accession, or -1. */
  function LastFiling(filings: seq<Filing>, accession: string): (i: int)
    ensures -1 <= i < |filings|
    ensures i >= 0 ==> filings[i].accessionId == accession
    ensures forall j | i < j < |filings| :: filings[j].accessionId != accession
  {
    LastAt(Accessions(filings), accession)
  }

  function Accessions(filings: seq<Filing>): (ks: seq<string>)
    ensures |ks| == |filings| && forall i | 0 <= i < |filings| :: ks[i] == filings[i].accessionId
  {
    seq(|filings|, i requires 0 <= i < |filings| => filings[i].accessionId)
  }

  lemma LastIsLast(overrides: Companies, companies: Companies, filings: seq<Filing>, k: string)
    ensures LastIndex(FilingSchema(overrides, companies), filings, k) == LastFiling(filings, k)
  {
    SchemaKeys(overrides, companies);
    hide FilingSchema, Constructed;
    assert Keys(FilingSchema(overrides, companies), filings) == Accessions(filings);
  }

  lemma RowIs(b: Batch, companies: Companies, table: Table, f: Filing)
    ensures Row(FilingSchema(b.overrides, companies), table, f.accessionId, f)
            == if f.accessionId in table then Conflict(table[f.accessionId], RowFor(f, b, companies))
               else RowFor(f, b, companies)
  {
    hide NewRow, Resolve, Conflict, Constructed;
  }

  /** The effect of a batch on every accession. A batch that clashes changes nothing;
      otherwise the last filing of an accession decides every column but the id and
      the metadata, which the first row ever inserted keeps, and an accession the
      batch does not name keeps its row. */
  lemma LastFilingWins(companies: Companies, table: Table, b: Batch, k: string)
    ensures var i := LastFiling(b.filings, k);
            Lookup(UpsertBatchOf(companies, table, b), k)
            == if AnyClash(table, b.filings) || i < 0 then Lookup(table, k)
               else
                 var row := RowFor(b.filings[i], b, companies);
                 Some(if k in table then Conflict(table[k], row) else row)
  {
    hide FilingSchema, Constructed, Overwrites, UpsertEach, AnyClash, Row, RowFor, Conflict, LastFiling, LastIndex;
    var s := FilingSchema(b.overrides, companies);
    FilingsOverwrite(b.overrides, companies);
    EachEffect(s, table, b.filings, k);
    LastIsLast(b.overrides, companies, b.filings, k);
    var i := LastFiling(b.filings, k);
    if i >= 0 {
      RowIs(b, companies, table, b.filings[i]);
    }
  }

  /** The row holds the filing's columns; a company it cannot resolve is left empty. */
  predicate HoldsFiling(row: FilingRow, f: Filing, b: Batch, companies: Companies) {
    && row.cik == f.cik && row.formType == f.filingType && row.filedAt == f.filingDate
    && row.periodOfReport == f.periodEnd && row.isAmendment == f.isAmendment
    && row.amendmentSequence == f.amendmentSequence && row.primaryDocument == f.primaryDocument
    && row.acceptedAt == f.acceptedAt && row.filingUrl == None && row.dataSource == f.dataSource
    && row.companyId == (if f.cik in b.overrides then Some(b.overrides[f.cik])
                         else if f.cik in companies then Some(companies[f.cik]) else None)
  }

  /** Column by column: after a batch that goes through, the row of an accession it names
      holds the last filing of that accession; its id and metadata are those it had, or
      the derived id and none. */
  lemma ColumnsAfter(companies: Companies, table: Table, b: Batch, k: string)
    requires !AnyClash(table, b.filings) && LastFiling(b.filings, k) >= 0
    ensures var after := UpsertBatchOf(companies, table, b);
            && k in after && HoldsFiling(after[k], b.filings[LastFiling(b.filings, k)], b, companies)
            && after[k].filingId == (if k in table then table[k].filingId else Uuid5(k))
            && after[k].metadata == (if k in table then table[k].metadata else None)
  {
    hide UpsertBatchOf, AnyClash, LastFiling, Constructed;
    LastFilingWins(companies, table, b, k);
  }

  /** A batch that goes through adds its accessions, under their derived ids, and
      changes no id. */
  lemma IdAfter(companies: Companies, table: Table, b: Batch, k: string)
    requires !AnyClash(table, b.filings)
    ensures var after := UpsertBatchOf(companies, table, b);
            && (k in after <==> k in table || LastFiling(b.filings, k) >= 0)
            && (k in after ==> after[k].filingId == if k in table then table[k].filingId else Uuid5(k))
  {
    hide UpsertBatchOf, AnyClash, Resolve, LastFiling, Constructed;
    LastFilingWins(companies, table, b, k);
  }

  // ----------------------------------------------------------- splitting and repeating

  /** After a batch that went through, a filing clashes exactly when it did before and
      its accession was not in the batch. */
  lemma ClashAfter(companies: Companies, table: Table, b: Batch, accession: string)
    requires !AnyClash(table, b.filings)
    ensures Clashes(UpsertBatchOf(companies, table, b), accession)
            <==> Clashes(table, accession) && LastFiling(b.filings, accession) < 0
  {
    hide UpsertBatchOf, AnyClash, LastFiling, Constructed;
    var after := UpsertBatchOf(companies, table, b);
    IdAfter(companies, table, b, accession);
    if k :| k in after && after[k].filingId == Uuid5(accession) {
      IdAfter(companies, table, b, k);
    }
    if k :| k in table && table[k].filingId == Uuid5(accession) {
      IdAfter(companies, table, b, k);
    }
  }

  lemma ClashOf(table: Table, filings: seq<Filing>, accession: string)
    requires !AnyClash(table, filings) && Clashes(table, accession)
    ensures LastFiling(filings, accession) < 0
  {
    hide Clashes, Constructed, LastFiling;
  }

  lemma ClashOfConcat(table: Table, a: seq<Filing>, b: seq<Filing>)
    ensures AnyClash(table, a + b) <==> AnyClash(table, a) || AnyClash(table, b)
  {
    hide Clashes, Constructed;
    if i :| 0 <= i < |a + b| && Clashes(table, (a + b)[i].accessionId) {
      assert if i < |a| then (a + b)[i] == a[i] else (a + b)[i] == b[i - |a|];
    }
    if i :| 0 <= i < |a| && Clashes(table, a[i].accessionId) {
      assert (a + b)[i] == a[i];
    }
    if i :| 0 <= i < |b| && Clashes(table, b[i].accessionId) {
      assert (a + b)[|a| + i] == b[i];
    }
  }

  /** Both parts of a batch go through, one after the other, exactly when the whole
      batch does. */
  lemma PartsGoThroughIff(companies: Companies, table: Table, a: Batch, b: Batch)
    ensures !AnyClash(table, a.filings) && !AnyClash(UpsertBatchOf(companies, table, a), b.filings)
            <==> !AnyClash(table, a.filings + b.filings)
  {
    ClashOfConcat(table, a.filings, b.filings);
    if !AnyClash(table, a.filings) {
      forall i | 0 <= i < |b.filings|
        ensures Clashes(UpsertBatchOf(companies, table, a), b.filings[i].accessionId)
                <==> Clashes(table, b.filings[i].accessionId)
      {
        ClashHolds(companies, table, a, b.filings[i].accessionId);
      }
      hide Clashes, UpsertBatchOf, Constructed;
    }
  }

  lemma ClashHolds(companies: Companies, table: Table, a: Batch, accession: string)
    requires !AnyClash(table, a.filings)
    ensures Clashes(UpsertBatchOf(companies, table, a), accession) <==> Clashes(table, accession)
  {
    hide AnyClash, Clashes, UpsertBatchOf, LastFiling;
    ClashAfter(companies, table, a, accession);
    if Clashes(table, accession) {
      ClashOf(table, a.filings, accession);
    }
  }

  /** Splitting a batch that goes through leaves the same table. */
  lemma SplitLeavesSame(companies: Companies, table: Table, a: seq<Filing>, b: seq<Filing>, overrides: Companies)
    requires !AnyClash(table, a + b)
    ensures UpsertBatchOf(companies, UpsertBatchOf(companies, table, Batch(a, overrides)), Batch(b, overrides))
            == UpsertBatchOf(companies, table, Batch(a + b, overrides))
  {
    PartsGoThroughIff(companies, table, Batch(a, overrides), Batch(b, overrides));
    hide AnyClash, FilingSchema, UpsertEach;
    SplitBatch(FilingSchema(overrides, companies), table, a, b);
  }

  /** Splitting one that does not go through can leave another table: the whole batch
      writes nothing, while a part that goes through on its own is written. */
  lemma SplitOfClash(companies: Companies, table: Table, a: seq<Filing>, b: seq<Filing>, overrides: Companies)
    requires AnyClash(table, a + b)
    ensures UpsertBatchOf(companies, table, Batch(a + b, overrides)) == table
    ensures UpsertBatchOf(companies, UpsertBatchOf(companies, table, Batch(a, overrides)), Batch(b, overrides))
            == UpsertBatchOf(companies, table, Batch(if AnyClash(table, a) then b else a, overrides))
  {
    PartsGoThroughIff(companies, table, Batch(a, overrides), Batch(b, overrides));
    hide AnyClash, FilingSchema, UpsertEach;
  }

  /** Such a table and batch: some row already has the id of the second filing. */
  lemma SplitWritesMore(companies: Companies, overrides: Companies, f: Filing, g: Filing, k: string, row: FilingRow)
    requires f.accessionId != g.accessionId && k != f.accessionId && k != g.accessionId
    requires row.filingId == Uuid5(g.accessionId)
    ensures var table := map[k := row];
            && UpsertBatchOf(companies, table, Batch([f, g], overrides)) == table
            && f.accessionId in UpsertBatchOf(companies, UpsertBatchOf(companies, table, Batch([f], overrides)),
                                              Batch([g], overrides))
  {
    hide AnyClash, Clashes, UpsertBatchOf, LastFiling, Constructed;
    var table := map[k := row];
    ClashOfConcat(table, [f], [g]);
    assert [f] + [g] == [f, g];
    IdTaken(k, row, f.accessionId);
    IdTaken(k, row, g.accessionId);
    OneClash(table, f);
    OneClash(table, g);
    SplitOfClash(companies, table, [f], [g], overrides);
    IdAfter(companies, table, Batch([f], overrides), f.accessionId);
    OnlyFiling(f);
  }

  lemma IdTaken(k: string, row: FilingRow, accession: string)
    requires k != accession
    ensures Clashes(map[k := row], accession) <==> row.filingId == Uuid5(accession)
  {
    if row.filingId == Uuid5(accession) {
      assert k in map[k := row];
    }
  }

  lemma OneClash(table: Table, f: Filing)
    ensures AnyClash(table, [f]) <==> Clashes(table, f.accessionId)
  {
    hide Clashes, Constructed;
    assert [f][0] == f;
  }

  lemma OnlyFiling(f: Filing)
    ensures LastFiling([f], f.accessionId) == 0
  {
  }

  /** Repeating a batch leaves the same table, whether it goes through or not. */
  lemma RepeatLeavesSame(companies: Companies, table: Table, b: Batch)
    ensures UpsertBatchOf(companies, UpsertBatchOf(companies, table, b), b) == UpsertBatchOf(companies, table, b)
  {
    if !AnyClash(table, b.filings) {
      PartsGoThroughIff(companies, table, b, b);
      ClashOfConcat(table, b.filings, b.filings);
      hide AnyClash, FilingSchema, UpsertEach, Overwrites;
      FilingsOverwrite(b.overrides, companies);
      RepeatBatch(FilingSchema(b.overrides, companies), table, b.filings);
    }
  }

  /** On every table that batch upserts alone have built, batches can be split and
      repeated freely. */
  lemma BatchesCompose(companies: Companies, batches: seq<Batch>, a: seq<Filing>, b: seq<Filing>, overrides: Companies)
    ensures var table := RunBatches(companies, batches);
            var once := UpsertBatchOf(companies, table, Batch(a, overrides));
            && UpsertBatchOf(companies, once, Batch(b, overrides))
               == UpsertBatchOf(companies, table, Batch(a + b, overrides))
            && UpsertBatchOf(companies, once, Batch(a, overrides)) == once
  {
    var table := RunBatches(companies, batches);
    IdsStayDerived(companies, batches);
    DerivedIdsNeverClash(table, a + b);
    hide AnyClash, UpsertBatchOf, RunBatches, IdsFromAccessions;
    SplitLeavesSame(companies, table, a, b, overrides);
    RepeatLeavesSame(companies, table, Batch(a, overrides));
  }
}
