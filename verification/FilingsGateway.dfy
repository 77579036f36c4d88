/** Fetching a company's filings from the recent section of its submissions:
    normalize the columns, filter, sort newest first, truncate. */
module FilingsGateway {
  import opened Wrappers
  import opened Text
  import opened Sorting
  import opened Dates
  import opened Filings
  import Decimals

  /** Parallel columns; a missing one is empty. */
  datatype Recent = Recent(
    accessionNumber: seq<string>, filingDate: seq<string>, reportDate: seq<Option<string>>, form: seq<string>,
    primaryDocument: seq<Option<string>>, acceptanceDateTime: seq<Option<string>>)

  datatype RawRow = RawRow(accessionId: string, filingDate: string, periodEnd: Option<string>, form: string,
                           isAmendment: bool, primaryDocument: Option<string>, acceptedAt: Option<string>)

  function RowCount(c: Recent): nat {
    Decimals.Min(|c.accessionNumber|, Decimals.Min(|c.filingDate|, |c.form|))
  }

  function Cell(column: seq<Option<string>>, i: nat): Option<string> {
    if i < |column| then column[i] else None
  }

  predicate IsAmendmentForm(form: string) {
    |form| >= 2 && form[|form| - 2..] == "/A"
  }

  function RowAt(c: Recent, i: nat): RawRow
    requires i < RowCount(c)
  {
    RawRow(c.accessionNumber[i], c.filingDate[i], Cell(c.reportDate, i), c.form[i], IsAmendmentForm(c.form[i]),
           Cell(c.primaryDocument, i), Cell(c.acceptanceDateTime, i))
  }

  /** `_normalize_recent_filings`: as many rows as the shortest required column. */
  method NormalizeRecentFilings(c: Recent) returns (rows: seq<RawRow>)
    ensures |rows| == RowCount(c) && forall i | 0 <= i < |rows| :: rows[i] == RowAt(c, i)
  {
    rows := [];
    for i := 0 to RowCount(c)
      invariant |rows| == i && forall j | 0 <= j < i :: rows[j] == RowAt(c, j)
    {
      var periodEnd := if i < |c.reportDate| then c.reportDate[i] else None;
      var primaryDocument := if i < |c.primaryDocument| then c.primaryDocument[i] else None;
      var acceptedAt := if i < |c.acceptanceDateTime| then c.acceptanceDateTime[i] else None;
      var form := c.form[i];
      rows := rows + [RawRow(c.accessionNumber[i], c.filingDate[i], periodEnd, form, IsAmendmentForm(form),
          primaryDocument, acceptedAt)];
    }
  }

  // ------------------------------------------------------------------ filtering

  /** The values of the filing type enumeration. */
  predicate IsFilingType(t: string) {
    t in {"10-K", "10-Q", "8-K", "20-F", "40-F", "6-K", "S-1", "S-3", "OTHER"}
  }

  /** The nine, one by one. */
  lemma KnownForms(t: string)
    ensures IsFilingType(t)
            <==> || t == "10-K" || t == "10-Q" || t == "8-K" || t == "20-F" || t == "40-F" || t == "6-K" || t == "S-1"
                 || t == "S-3" || t == "OTHER"
  {
  }

  function BaseForm(form: string): string {
    form[..IndexOf(form, {'/'})]
  }

  /** The caller's filters, and the readers of dates and of acceptance times. */
  datatype Query = Query(
    cik: string, types: set<string>, fromDate: Date, toDate: Date, includeAmendments: bool, maxResults: Option<int>,
    date: string -> Option<Date>, instant: string -> Option<string>)

  /** What a row comes to: left out, mapped, or an error that ends the fetch. */
  datatype Outcome = Skip | Keep(filing: FilingFields) | Fail

  predicate TypeWanted(row: RawRow, q: Query) {
    q.types == {} || BaseForm(row.form) in q.types
  }

  predicate AmendmentWanted(row: RawRow, q: Query) {
    q.includeAmendments || !row.isAmendment
  }

  predicate InRange(d: Date, q: Query) {
    !Before(d, q.fromDate) && !Before(q.toDate, d)
  }

  /** An optional text and its optional parse, or None if it is there and bad. */
  function Parsed<T>(text: Option<string>, parse: string -> Option<T>): Option<Option<T>> {
    match text
    case None => Some(None)
    case Some(t) => (match parse(t) case Some(x) => Some(Some(x)) case None => None)
  }

  /** The filing of a row whose dates are read. */
  function MapRow(row: RawRow, q: Query, filingDate: Date): Outcome {
    match (Parsed(row.periodEnd, q.date), Parsed(row.acceptedAt, q.instant))
    case (Some(periodEnd), Some(acceptedAt)) =>
      (match Construct(FilingFields(row.accessionId, q.cik, BaseForm(row.form), filingDate, periodEnd, acceptedAt,
                                    row.isAmendment, if row.isAmendment then Some(1) else None,
                                    row.primaryDocument, "EDGAR"))
       case Ok(f) => Keep(f)
       case Err(_) => Fail)
    case _ => Fail
  }

  function OutcomeOf(row: RawRow, q: Query): Outcome {
    if !IsFilingType(BaseForm(row.form)) then Fail
    else if !TypeWanted(row, q) then Skip
    else if !AmendmentWanted(row, q) then Skip
    else
      match q.date(row.filingDate)
      case None => Fail
      case Some(d) => if InRange(d, q) then MapRow(row, q, d) else Skip
  }

  datatype FilingKey = FilingKey(date: int, accession: string)

  predicate KeyLe(a: FilingKey, b: FilingKey) {
    a.date < b.date || (a.date == b.date && StringLe(a.accession, b.accession))
  }

  function KeyOf(f: FilingFields): FilingKey {
    FilingKey(Ordinal(f.filingDate), f.accessionId)
  }

  function Reverse<T>(s: seq<T>): (r: seq<T>)
    ensures |r| == |s| && forall i | 0 <= i < |s| :: r[i] == s[|s| - 1 - i]
  {
    seq(|s|, i requires 0 <= i < |s| => s[|s| - 1 - i])
  }

  function Truncate(filings: seq<FilingFields>, limit: Option<int>): seq<FilingFields> {
    match limit
    case Some(n) => if 0 <= n < |filings| then filings[..n] else filings
    case None => filings
  }

  /** The filings of the rows that are kept, in document order. */
  function Kept(rows: seq<RawRow>, q: Query): seq<FilingFields> {
    if rows == [] then []
    else
      match OutcomeOf(rows[|rows| - 1], q)
      case Keep(f) => Kept(rows[..|rows| - 1], q) + [f]
      case _ => Kept(rows[..|rows| - 1], q)
  }

  function NewestFirst(filings: seq<FilingFields>): seq<FilingFields> {
    Reverse(Sort(filings, KeyOf, KeyLe))
  }

  predicate AnyFails(rows: seq<RawRow>, q: Query) {
    exists row <- rows :: OutcomeOf(row, q).Fail?
  }

  lemma KeptStep(rows: seq<RawRow>, q: Query, i: nat)
    requires i < |rows|
    ensures Kept(rows[..i + 1], q) == match OutcomeOf(rows[i], q)
                                      case Keep(f) => Kept(rows[..i], q) + [f]
                                      case _ => Kept(rows[..i], q)
  {
    hide OutcomeOf, Constructed;
    assert rows[..i + 1][..i] == rows[..i];
  }

  lemma KeptNone(q: Query)
    ensures Kept([], q) == []
  {
  }

  lemma SomeRowFails(rows: seq<RawRow>, q: Query)
    ensures AnyFails(rows, q) <==> exists j | 0 <= j < |rows| :: OutcomeOf(rows[j], q).Fail?
  {
    hide OutcomeOf;
    if j :| 0 <= j < |rows| && OutcomeOf(rows[j], q).Fail? {
      assert rows[j] in rows;
    }
  }

  /** The loop over the rows: the filings kept, or None at the first row that fails. */
  method MapRows(rows: seq<RawRow>, q: Query) returns (r: Option<seq<FilingFields>>)
    ensures r == if AnyFails(rows, q) then None else Some(Kept(rows, q))
  {
    hide OutcomeOf, Kept, AnyFails;
    SomeRowFails(rows, q);
    KeptNone(q);
    var filings: seq<FilingFields> := [];
    assert rows[..0] == [] && rows[..|rows|] == rows;
    for i := 0 to |rows|
      invariant filings == Kept(rows[..i], q)
      invariant forall j | 0 <= j < i :: !OutcomeOf(rows[j], q).Fail?
    {
      KeptStep(rows, q, i);
      match OutcomeOf(rows[i], q) {
        case Fail => return None;
        case Skip =>
        case Keep(f) => filings := filings + [f];
      }
    }
    r := Some(filings);
  }

  /** `fetch_filings_for_company`, from the rows on. */
  method FetchFilings(rows: seq<RawRow>, q: Query) returns (r: Result<seq<FilingFields>, Error>)
    ensures r.Err? <==> Before(q.toDate, q.fromDate) || AnyFails(rows, q)
    ensures r.Ok? ==> r.value == Truncate(NewestFirst(Kept(rows, q)), q.maxResults)
  {
    hide AnyFails, NewestFirst, Kept, Before, Truncate;
    if Before(q.toDate, q.fromDate) {
      return Err(EdgarMappingError);
    }
    var filings := MapRows(rows, q);
    match filings {
      case None => r := Err(EdgarMappingError);
      case Some(kept) => r := Ok(Truncate(NewestFirst(kept), q.maxResults));
    }
  }

  // ------------------------------------------------------------------- the laws

  /** The row passes the type, amendment and date filters. */
  predicate Passes(row: RawRow, q: Query) {
    && TypeWanted(row, q) && AmendmentWanted(row, q)
    && q.date(row.filingDate).Some? && InRange(q.date(row.filingDate).value, q)
  }

  /** The filing a passing row stands for, field by field. */
  predicate Represents(f: FilingFields, row: RawRow, q: Query) {
    && Constructed(f) && f.accessionId == Strip(row.accessionId) && f.cik == q.cik && f.filingType == BaseForm(row.form)
    && q.date(row.filingDate) == Some(f.filingDate) && f.isAmendment == row.isAmendment
    && f.primaryDocument == row.primaryDocument && Parsed(row.periodEnd, q.date) == Some(f.periodEnd)
    && Parsed(row.acceptedAt, q.instant) == Some(f.acceptedAt)
  }

  lemma OutcomeIsFilter(row: RawRow, q: Query)
    requires !OutcomeOf(row, q).Fail?
    ensures OutcomeOf(row, q).Keep? <==> Passes(row, q)
    ensures OutcomeOf(row, q).Keep? ==> Represents(OutcomeOf(row, q).filing, row, q)
  {
    hide BaseForm, Strip, Before;
  }

  /** When a fetch succeeds, what it keeps is, in document order, one filing for
      each row that passes the filters, and that filing represents the row. */
  lemma {:induction false} KeptAreThePassing(rows: seq<RawRow>, q: Query)
    requires !AnyFails(rows, q)
    ensures var passing := Filter(rows, (row: RawRow) => Passes(row, q));
            |Kept(rows, q)| == |passing| && forall i | 0 <= i < |passing| :: Represents(Kept(rows, q)[i], passing[i], q)
  {
    hide OutcomeOf, Passes, Represents, Constructed, Kept, AnyFails, Filter;
    if rows == [] {
      KeptNone(q);
      FilterAll(rows, (row: RawRow) => Passes(row, q));
    } else {
      var n := |rows| - 1;
      assert rows[..n + 1] == rows;
      SomeRowFails(rows, q);
      SomeRowFails(rows[..n], q);
      KeptStep(rows, q, n);
      KeptAreThePassing(rows[..n], q);
      OutcomeIsFilter(rows[n], q);
      FilterSnoc(rows, n, (row: RawRow) => Passes(row, q));
    }
  }

  /** The part of a form before its first slash. */
  lemma BaseFormIs(base: string, rest: string)
    requires '/' !in base && (rest == "" || rest[0] == '/')
    ensures BaseForm(base + rest) == base
  {
    FirstAfter(base, rest, {'/'});
  }

  lemma {:induction false} KeptPlaces(rows: seq<RawRow>, q: Query) returns (ids: seq<nat>)
    requires !AnyFails(rows, q)
    ensures |ids| == |Kept(rows, q)| && forall i, j | 0 <= i < j < |ids| :: ids[i] < ids[j]
    ensures forall k | 0 <= k < |ids| :: ids[k] < |rows| && OutcomeOf(rows[ids[k]], q) == Keep(Kept(rows, q)[k])
    ensures forall i: nat | i < |rows| && OutcomeOf(rows[i], q).Keep? :: i in ids
  {
    hide OutcomeOf, Kept, AnyFails;
    SomeRowFails(rows, q);
    if rows == [] {
      KeptNone(q);
      ids := [];
    } else {
      var n := |rows| - 1;
      assert rows[..n + 1] == rows;
      SomeRowFails(rows[..n], q);
      KeptStep(rows, q, n);
      ids := KeptPlaces(rows[..n], q);
      assert forall i | 0 <= i < n :: rows[..n][i] == rows[i];
      if OutcomeOf(rows[n], q).Keep? {
        ids := ids + [n];
      }
    }
  }

  /** The filters, told without their own names: the base form is asked for, or none is;
      the row is no amendment, unless amendments are wanted; and the date lies between
      the bounds, both included. */
  predicate Eligible(row: RawRow, q: Query) {
    && (q.types == {} || row.form[..IndexOf(row.form, {'/'})] in q.types)
    && (q.includeAmendments || !row.isAmendment)
    && q.date(row.filingDate).Some?
    && Ordinal(q.fromDate) <= Ordinal(q.date(row.filingDate).value) <= Ordinal(q.toDate)
  }

  /** The filing has the row's columns. */
  predicate HasColumns(f: FilingFields, row: RawRow, q: Query) {
    && f.accessionId == Strip(row.accessionId) && f.cik == q.cik
    && f.filingType == row.form[..IndexOf(row.form, {'/'})] && q.date(row.filingDate) == Some(f.filingDate)
    && (match row.periodEnd case None => f.periodEnd == None case Some(t) => f.periodEnd == q.date(t))
    && (match row.acceptedAt case None => f.acceptedAt == None case Some(t) => f.acceptedAt == q.instant(t))
    && f.isAmendment == row.isAmendment && f.amendmentSequence == (if row.isAmendment then Some(1) else None)
    && f.primaryDocument == row.primaryDocument && f.dataSource == "EDGAR"
  }

  lemma RowIsEligible(row: RawRow, q: Query)
    requires !OutcomeOf(row, q).Fail?
    ensures OutcomeOf(row, q).Keep? <==> Eligible(row, q)
  {
    hide IsFilingType, MapRow;
    if q.date(row.filingDate).Some? {
      OrdinalOrders(q.date(row.filingDate).value, q.fromDate);
      OrdinalOrders(q.toDate, q.date(row.filingDate).value);
      MapNeverSkips(row, q, q.date(row.filingDate).value);
    }
  }

  lemma MapNeverSkips(row: RawRow, q: Query, d: Date)
    ensures !MapRow(row, q, d).Skip?
  {
  }

  lemma FilingHasColumns(row: RawRow, q: Query)
    requires OutcomeOf(row, q).Keep?
    ensures HasColumns(OutcomeOf(row, q).filing, row, q)
  {
    hide IsFilingType, IndexOf, Strip, Before, Constructed;
  }

  /** What a fetch that succeeds keeps: the eligible rows and no others, one filing for
      each, in document order, with the row's columns. */
  lemma KeptExactly(rows: seq<RawRow>, q: Query) returns (ids: seq<nat>)
    requires !AnyFails(rows, q)
    ensures |ids| == |Kept(rows, q)| && forall i, j | 0 <= i < j < |ids| :: ids[i] < ids[j]
    ensures forall i: nat | i < |rows| :: i in ids <==> Eligible(rows[i], q)
    ensures forall k | 0 <= k < |ids| :: ids[k] < |rows| && HasColumns(Kept(rows, q)[k], rows[ids[k]], q)
  {
    hide OutcomeOf, Kept, Eligible, HasColumns;
    ids := KeptPlaces(rows, q);
    SomeRowFails(rows, q);
    hide AnyFails;
    forall i: nat | i < |rows|
      ensures i in ids <==> Eligible(rows[i], q)
    {
      RowIsEligible(rows[i], q);
      if i in ids {
        var k :| 0 <= k < |ids| && ids[k] == i;
      }
    }
    forall k | 0 <= k < |ids|
      ensures HasColumns(Kept(rows, q)[k], rows[ids[k]], q)
    {
      FilingHasColumns(rows[ids[k]], q);
    }
  }

  /** The rows the columns give, cell by cell: an optional column may be shorter, and a
      form is an amendment exactly when it ends in "/A". */
  lemma RowsAreTheColumns(c: Recent, i: nat)
    requires i < RowCount(c)
    ensures i < |c.accessionNumber| && i < |c.filingDate| && i < |c.form|
    ensures var row := RowAt(c, i);
            && row.accessionId == c.accessionNumber[i] && row.filingDate == c.filingDate[i] && row.form == c.form[i]
            && row.periodEnd == (if i < |c.reportDate| then c.reportDate[i] else None)
            && row.primaryDocument == (if i < |c.primaryDocument| then c.primaryDocument[i] else None)
            && row.acceptedAt == (if i < |c.acceptanceDateTime| then c.acceptanceDateTime[i] else None)
    ensures RowAt(c, i).isAmendment <==> exists base :: c.form[i] == base + "/A"
  {
    if RowAt(c, i).isAmendment {
      var base := c.form[i][..|c.form[i]| - 2];
      assert c.form[i] == base + "/A";
    }
    if base :| c.form[i] == base + "/A" {
      assert c.form[i][|c.form[i]| - 2..] == "/A";
    }
  }

  lemma RowCountIs(c: Recent)
    ensures RowCount(c) <= |c.accessionNumber| && RowCount(c) <= |c.filingDate| && RowCount(c) <= |c.form|
    ensures RowCount(c) in {|c.accessionNumber|, |c.filingDate|, |c.form|}
  {
  }

  /** Newest first: dates descend, and on one date accessions do. */
  lemma NewestFirstDescends(filings: seq<FilingFields>, i: nat, j: nat)
    requires i < j < |NewestFirst(filings)|
    ensures var f, g := NewestFirst(filings)[i], NewestFirst(filings)[j];
            && Ordinal(g.filingDate) <= Ordinal(f.filingDate)
            && (f.filingDate == g.filingDate ==> NotAfter(g.accessionId, f.accessionId))
  {
    hide NewestFirst, Constructed, StringLe, NotAfter;
    NewestFirstSorts(filings);
    var f, g := NewestFirst(filings)[i], NewestFirst(filings)[j];
    StringLeIff(g.accessionId, f.accessionId);
  }

  lemma FilterSnoc<T>(s: seq<T>, n: nat, keep: T -> bool)
    requires n + 1 == |s|
    ensures Filter(s, keep) == if keep(s[n]) then Filter(s[..n], keep) + [s[n]] else Filter(s[..n], keep)
  {
    assert s == s[..n] + [s[n]];
    FilterConcat(s[..n], [s[n]], keep);
  }

  lemma KeyOrder()
    ensures TotalOrder(KeyLe)
  {
    StringOrder();
    hide StringLe;
  }

  lemma ReversePermutes<T>(s: seq<T>)
    ensures multiset(Reverse(s)) == multiset(s)
    decreases |s|
  {
    if s == [] {
      assert Reverse(s) == s;
    } else {
      ReversePermutes(s[1..]);
      assert s == [s[0]] + s[1..] && Reverse(s) == Reverse(s[1..]) + [s[0]];
    }
  }

  predicate Descending(filings: seq<FilingFields>) {
    forall i, j | 0 <= i < j < |filings| :: KeyLe(KeyOf(filings[j]), KeyOf(filings[i]))
  }

  lemma NewestFirstSorts(filings: seq<FilingFields>)
    ensures Descending(NewestFirst(filings)) && multiset(NewestFirst(filings)) == multiset(filings)
    ensures |NewestFirst(filings)| == |filings|
  {
    KeyOrder();
    hide KeyLe, KeyOf;
    SortSorts(filings, KeyOf, KeyLe);
    ReversePermutes(Sort(filings, KeyOf, KeyLe));
  }

  /** The answer is the newest part of everything eligible: in descending order of
      (filing date, accession), as many as asked for or as there are, and together
      with what is left out it is every eligible filing exactly once; nothing left
      out is newer than anything returned. */
  lemma FetchIsNewestPart(rows: seq<RawRow>, q: Query)
    ensures var kept := Kept(rows, q);
            var r := Truncate(NewestFirst(kept), q.maxResults);
            var omitted := NewestFirst(kept)[|r|..];
            && Descending(r)
            && |r| == (match q.maxResults case Some(n) => if 0 <= n < |kept| then n else |kept| case None => |kept|)
            && multiset(r) + multiset(omitted) == multiset(kept)
            && forall f, g | f in r && g in omitted :: KeyLe(KeyOf(g), KeyOf(f))
  {
    var kept := Kept(rows, q);
    hide KeyLe, KeyOf, NewestFirst, Kept, Constructed, Descending;
    NewestFirstSorts(kept);
    SplitDescending(NewestFirst(kept), |Truncate(NewestFirst(kept), q.maxResults)|);
  }

  lemma SplitDescending(all: seq<FilingFields>, n: nat)
    requires Descending(all) && n <= |all|
    ensures Descending(all[..n]) && multiset(all[..n]) + multiset(all[n..]) == multiset(all)
    ensures forall f, g | f in all[..n] && g in all[n..] :: KeyLe(KeyOf(g), KeyOf(f))
  {
    hide KeyLe, KeyOf, Constructed;
    assert all == all[..n] + all[n..];
    forall f, g | f in all[..n] && g in all[n..]
      ensures KeyLe(KeyOf(g), KeyOf(f))
    {
      var i :| 0 <= i < n && all[i] == f;
      var j :| n <= j < |all| && all[j] == g;
    }
  }

  // ------------------------------------------------------------ when a fetch fails

  /** The remaining columns of the row make a filing: its texts read, its accession
      is not blank, and its period does not end after it was filed. */
  predicate Mappable(row: RawRow, q: Query) {
    && Strip(row.accessionId) != ""
    && Parsed(row.acceptedAt, q.instant).Some?
    && (row.periodEnd.Some? ==>
          && q.date(row.periodEnd.value).Some?
          && (q.date(row.filingDate).Some?
              ==> !Before(q.date(row.filingDate).value, q.date(row.periodEnd.value).value)))
  }

  /** The type and amendment filters want the row, and its filing date does not read. */
  predicate UnreadableDate(row: RawRow, q: Query) {
    TypeWanted(row, q) && AmendmentWanted(row, q) && q.date(row.filingDate).None?
  }

  lemma RowFailsIff(row: RawRow, q: Query)
    ensures OutcomeOf(row, q).Fail?
            <==> || !IsFilingType(BaseForm(row.form))
                 || UnreadableDate(row, q)
                 || (Passes(row, q) && !Mappable(row, q))
  {
    hide BaseForm, IsFilingType, TypeWanted, AmendmentWanted, InRange, Before, Strip;
    StripResult(row.accessionId);
    SourceIsNamed();
  }

  lemma SourceIsNamed()
    ensures Strip("EDGAR") != ""
  {
    StripIdle("EDGAR");
  }

  /** A fetch within its bounds succeeds exactly when every row of the document has a
      form of the enumeration, every row the type and amendment filters want has a
      readable filing date, and every row that passes all filters makes a filing. */
  lemma FetchSucceedsIff(rows: seq<RawRow>, q: Query)
    ensures !AnyFails(rows, q)
            <==> && (forall row <- rows :: IsFilingType(BaseForm(row.form)))
                 && (forall row <- rows :: !UnreadableDate(row, q))
                 && (forall row <- rows | Passes(row, q) :: Mappable(row, q))
  {
    hide OutcomeOf, IsFilingType, BaseForm, UnreadableDate, Passes, Mappable;
    forall row | row in rows
      ensures OutcomeOf(row, q).Fail?
              <==> !IsFilingType(BaseForm(row.form)) || UnreadableDate(row, q) || (Passes(row, q) && !Mappable(row, q))
    {
      RowFailsIff(row, q);
    }
  }

  function PassesFor(q: Query): RawRow -> bool {
    (row: RawRow) => Passes(row, q)
  }

  /** The filters do not shield a fetch from the rows they drop: fetching the whole
      document fails although fetching its passing rows would not, exactly when those
      can be mapped, and some row has an unknown form or an unreadable date. */
  lemma DroppedRowsDecide(rows: seq<RawRow>, q: Query)
    ensures var passing := Filter(rows, PassesFor(q));
            (AnyFails(rows, q) && !AnyFails(passing, q))
            <==> && (forall row <- rows | Passes(row, q) :: IsFilingType(BaseForm(row.form)) && Mappable(row, q))
                 && (exists row <- rows :: !IsFilingType(BaseForm(row.form)) || UnreadableDate(row, q))
  {
    var passing := Filter(rows, PassesFor(q));
    FetchSucceedsIff(rows, q);
    FetchSucceedsIff(passing, q);
    hide AnyFails, IsFilingType, BaseForm, Mappable;
    forall row: RawRow
      ensures row in passing <==> row in rows && Passes(row, q)
    {
      FilterMembers(rows, PassesFor(q), row);
    }
    assert forall row: RawRow | Passes(row, q) :: !UnreadableDate(row, q);
  }

  const REPORT: RawRow := RawRow("0000000001-24-000001", "2024-02-01", None, "10-K", false, None, None)
  const INSIDER: RawRow := RawRow("0000000001-24-000002", "2024-02-01", None, "4", false, None, None)

  lemma ReportIsFetched(q: Query, date: Date)
    requires q.types == {"10-K"} && q.date("2024-02-01") == Some(date) && InRange(date, q)
    ensures Passes(REPORT, q) && Mappable(REPORT, q) && !UnreadableDate(REPORT, q)
            && IsFilingType(BaseForm(REPORT.form))
  {
    hide InRange, Before, Strip, IndexOf;
    FirstAt(REPORT.form, {'/'}, 4);
    StripIdle(REPORT.accessionId);
    assert BaseForm(REPORT.form) == "10-K";
  }

  lemma InsiderIsUnknown(q: Query)
    requires q.types == {"10-K"}
    ensures !Passes(INSIDER, q) && !IsFilingType(BaseForm(INSIDER.form))
  {
    hide InRange, IndexOf;
    FirstAt(INSIDER.form, {'/'}, 1);
    assert BaseForm(INSIDER.form) == "4";
  }

  /** A document whose one annual report is wanted, beside an insider's Form 4 that no
      filter wants: the fetch fails, and without the Form 4 it succeeds. */
  lemma InsiderFormEndsFetch(q: Query, date: Date)
    requires q.types == {"10-K"} && q.date("2024-02-01") == Some(date) && InRange(date, q)
    ensures Passes(REPORT, q) && !Passes(INSIDER, q)
    ensures AnyFails([REPORT, INSIDER], q) && !AnyFails([REPORT], q)
  {
    hide AnyFails, Passes, Mappable, UnreadableDate, IsFilingType, BaseForm, InRange;
    ReportIsFetched(q, date);
    InsiderIsUnknown(q);
    FetchSucceedsIff([REPORT, INSIDER], q);
    FetchSucceedsIff([REPORT], q);
    assert INSIDER in [REPORT, INSIDER];
  }

  /** One row with a form outside the enumeration ends the fetch, wherever its date
      lies and whichever types were asked for. */
  lemma UnknownFormFails(rows: seq<RawRow>, q: Query, row: RawRow)
    requires row in rows && !IsFilingType(BaseForm(row.form))
    ensures AnyFails(rows, q)
  {
    FetchSucceedsIff(rows, q);
  }
}
