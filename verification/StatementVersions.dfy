/** Listing statement versions over a window of dates, and the latest version of
    one date. */
module StatementVersions {
  import opened Wrappers
  import opened Text
  import opened Sorting
  import opened Dates

  datatype Version = Version(versionId: string, companyId: string, statementType: string, statementDate: Date,
                             versionSequence: int, isRestated: bool, currency: string)

  datatype Error = CompanyNotFound | NoVersion

  datatype DateKey = DateKey(date: int, sequence: int, id: string)

  /** statement_date asc, version_sequence asc, statement_version_id asc. */
  predicate ByDate(a: DateKey, b: DateKey) {
    || a.date < b.date
    || (a.date == b.date && (a.sequence < b.sequence || (a.sequence == b.sequence && StringLe(a.id, b.id))))
  }

  /** version_sequence desc, statement_version_id asc. */
  predicate Newest(a: DateKey, b: DateKey) {
    a.sequence > b.sequence
    || (a.sequence == b.sequence && (if a.id == b.id then a.date <= b.date else StringLe(a.id, b.id)))
  }

  function KeyOf(v: Version): DateKey {
    DateKey(Ordinal(v.statementDate), v.versionSequence, v.versionId)
  }

  function DateOf(v: Version): Date {
    v.statementDate
  }

  lemma Orders()
    ensures TotalOrder(ByDate) && TotalOrder(Newest)
  {
    StringOrder();
    hide StringLe;
  }

  predicate InWindow(v: Version, companyId: string, statementType: string, fromDate: Date, toDate: Date) {
    && v.companyId == companyId && v.statementType == statementType
    && Ordinal(fromDate) <= Ordinal(v.statementDate) <= Ordinal(toDate)
  }

  function Window(rows: seq<Version>, companyId: string, statementType: string, fromDate: Date,
                  toDate: Date): seq<Version> {
    Sort(Filter(rows, (v: Version) => InWindow(v, companyId, statementType, fromDate, toDate)), KeyOf, ByDate)
  }

  /** The versions of one date, newest first. */
  function OfDate(rows: seq<Version>, companyId: string, statementType: string, date: Date): seq<Version> {
    Sort(Filter(rows, (v: Version) => InWindow(v, companyId, statementType, date, date)), KeyOf, Newest)
  }

  function Latest(rows: seq<Version>, companyId: string, statementType: string, date: Date): Option<Version> {
    var found := OfDate(rows, companyId, statementType, date);
    if found == [] then None else Some(found[0])
  }

  // ----------------------------------------------------------- what a listing must be

  predicate Candidate(v: Version, rows: seq<Version>) {
    v in rows && !v.isRestated
  }

  /** `v` is a non-restated version that no other of its date supersedes. */
  predicate Selected(v: Version, rows: seq<Version>) {
    && Candidate(v, rows)
    && forall w <- rows | w.statementDate == v.statementDate && !w.isRestated :: Newest(KeyOf(v), KeyOf(w))
  }

  predicate AscendingDates(r: seq<Version>) {
    forall i, j | 0 <= i < j < |r| :: Before(r[i].statementDate, r[j].statementDate)
  }

  /** One entry for each date with a non-restated version: the newest of those. */
  predicate LatestPerDate(r: seq<Version>, rows: seq<Version>) {
    && AscendingDates(r)
    && (forall v <- r :: Selected(v, rows))
    && (forall w <- rows | !w.isRestated :: exists i | 0 <= i < |r| :: r[i].statementDate == w.statementDate)
  }

  class EdgarStatementsRepository {
    const companies: map<string, string>
    var rows: seq<Version>

    constructor (companies: map<string, string>, rows: seq<Version>)
      ensures this.companies == companies && this.rows == rows
    {
      this.companies := companies;
      this.rows := rows;
    }

    /** `get_latest_statement_version`. */
    method GetLatest(cik: string, statementType: string, date: Date) returns (r: Result<Version, Error>)
      ensures cik !in companies ==> r == Err(CompanyNotFound)
      ensures cik in companies ==>
                r == match Latest(rows, companies[cik], statementType, date)
                     case Some(v) => Ok(v)
                     case None => Err(NoVersion)
    {
      if cik !in companies {
        return Err(CompanyNotFound);
      }
      var found := OfDate(rows, companies[cik], statementType, date);
      if found == [] {
        return Err(NoVersion);
      }
      r := Ok(found[0]);
    }

    /** `list_statement_versions`. */
    method List(cik: string, statementType: string, fromDate: Date, toDate: Date, includeRestated: bool)
      returns (r: seq<Version>)
      ensures cik !in companies ==> r == []
      ensures cik in companies && includeRestated ==> r == Window(rows, companies[cik], statementType, fromDate, toDate)
      ensures cik in companies && !includeRestated ==>
                LatestPerDate(r, Window(rows, companies[cik], statementType, fromDate, toDate))
    {
      if cik !in companies {
        return [];
      }
      var versions := Window(rows, companies[cik], statementType, fromDate, toDate);
      if includeRestated {
        return versions;
      }
      Orders();
      SortSorts(Filter(rows, (v: Version) => InWindow(v, companies[cik], statementType, fromDate, toDate)), KeyOf,
          ByDate);
      r := LatestNonRestated(versions);
    }
  }

  /** What `by_date` holds after the versions of `seen`. */
  predicate ByDateHolds(byDate: map<Date, Version>, seen: seq<Version>) {
    && (forall d <- byDate :: byDate[d].statementDate == d && Selected(byDate[d], seen))
    && (forall w <- seen | !w.isRestated :: w.statementDate in byDate)
  }

  /** Coming later in date order, a version of the same date is the newer one when its
      sequence is greater, and otherwise the older one. */
  lemma LaterOfDate(w: Version, v: Version)
    requires ByDate(KeyOf(w), KeyOf(v)) && w.statementDate == v.statementDate
    ensures w.versionSequence <= v.versionSequence
    ensures if v.versionSequence > w.versionSequence then Newest(KeyOf(v), KeyOf(w)) else Newest(KeyOf(w), KeyOf(v))
  {
    StringLeReflexive(v.versionId);
    hide StringLe;
  }

  lemma NewestReflexive(v: Version)
    ensures Newest(KeyOf(v), KeyOf(v))
  {
  }

  lemma NewestChains(u: Version, v: Version, w: Version)
    requires Newest(KeyOf(u), KeyOf(v)) && Newest(KeyOf(v), KeyOf(w))
    ensures Newest(KeyOf(u), KeyOf(w))
  {
    Orders();
    hide StringLe, Newest, ByDate;
  }

  lemma KeepsSelected(current: Version, seen: seq<Version>, v: Version)
    requires Selected(current, seen)
    requires v.isRestated || v.statementDate != current.statementDate || Newest(KeyOf(current), KeyOf(v))
    ensures Selected(current, seen + [v])
  {
    hide Newest, KeyOf;
  }

  lemma BecomesSelected(v: Version, seen: seq<Version>)
    requires !v.isRestated
    requires forall w <- seen | w.statementDate == v.statementDate && !w.isRestated :: Newest(KeyOf(v), KeyOf(w))
    ensures Selected(v, seen + [v])
  {
    NewestReflexive(v);
    hide Newest, KeyOf;
  }

  lemma SeenAreEarlier(versions: seq<Version>, i: nat)
    requires i < |versions| && SortedBy(versions, KeyOf, ByDate)
    ensures forall w <- versions[..i] :: ByDate(KeyOf(w), KeyOf(versions[i]))
  {
    forall w | w in versions[..i]
      ensures ByDate(KeyOf(w), KeyOf(versions[i]))
    {
      var j :| 0 <= j < i && versions[..i][j] == w;
      assert versions[j] == w;
    }
  }

  lemma ByDateStep(byDate: map<Date, Version>, versions: seq<Version>, i: nat)
    requires i < |versions| && SortedBy(versions, KeyOf, ByDate) && ByDateHolds(byDate, versions[..i])
    ensures var v := versions[i];
            var wins := !v.isRestated
                            && (v.statementDate !in byDate
                                || v.versionSequence > byDate[v.statementDate].versionSequence);
            ByDateHolds(if wins then byDate[v.statementDate := v] else byDate, versions[..i + 1])
  {
    hide ByDate, Newest, KeyOf, Selected, SortedBy;
    var v, seen := versions[i], versions[..i];
    assert versions[..i + 1] == seen + [v];
    SeenAreEarlier(versions, i);
    var d := v.statementDate;
    if !v.isRestated && (d !in byDate || v.versionSequence > byDate[d].versionSequence) {
      forall w | w in seen && w.statementDate == d && !w.isRestated
        ensures Newest(KeyOf(v), KeyOf(w))
      {
        SelectedIsNewest(byDate[d], seen, w);
        SelectedIsSeen(byDate[d], seen);
        LaterOfDate(byDate[d], v);
        NewestChains(v, byDate[d], w);
      }
      BecomesSelected(v, seen);
      forall e | e in byDate && e != d
        ensures Selected(byDate[e], seen + [v])
      {
        KeepsSelected(byDate[e], seen, v);
      }
    } else {
      forall e | e in byDate
        ensures Selected(byDate[e], seen + [v])
      {
        SelectedIsSeen(byDate[e], seen);
        if e == d {
          LaterOfDate(byDate[e], v);
        }
        KeepsSelected(byDate[e], seen, v);
      }
    }
  }

  lemma SelectedIsSeen(v: Version, seen: seq<Version>)
    requires Selected(v, seen)
    ensures v in seen
  {
  }

  lemma SelectedIsNewest(v: Version, seen: seq<Version>, w: Version)
    requires Selected(v, seen) && w in seen && w.statementDate == v.statementDate && !w.isRestated
    ensures Newest(KeyOf(v), KeyOf(w))
  {
  }

  /** The loop that fills `by_date`, and the final sort. */
  method LatestNonRestated(versions: seq<Version>) returns (r: seq<Version>)
    requires SortedBy(versions, KeyOf, ByDate)
    ensures LatestPerDate(r, versions)
  {
    var byDate: map<Date, Version> := map[];
    for i := 0 to |versions|
      invariant ByDateHolds(byDate, versions[..i])
    {
      var v := versions[i];
      ByDateStep(byDate, versions, i);
      if v.isRestated {
        continue;
      }
      if v.statementDate !in byDate || v.versionSequence > byDate[v.statementDate].versionSequence {
        byDate := byDate[v.statementDate := v];
      }
    }
    assert versions[..|versions|] == versions;
    var values := Values(byDate);
    Orders();
    SortSorts(values, KeyOf, ByDate);
    r := Sort(values, KeyOf, ByDate);
    SortedValues(byDate, values, r);
    ListingHolds(byDate, versions, r);
  }

  /** The values of a dict keyed by date, in some order. */
  method Values(byDate: map<Date, Version>) returns (values: seq<Version>)
    requires forall d <- byDate :: byDate[d].statementDate == d
    ensures forall v <- values :: v.statementDate in byDate && byDate[v.statementDate] == v
    ensures forall d <- byDate :: byDate[d] in values
    ensures DistinctKeys(values, DateOf)
  {
    values := [];
    var rest := byDate.Keys;
    while rest != {}
      invariant rest <= byDate.Keys
      invariant forall v <- values :: v.statementDate in byDate.Keys - rest && byDate[v.statementDate] == v
      invariant forall d | d in byDate.Keys - rest :: byDate[d] in values
      invariant DistinctKeys(values, DateOf)
      decreases |rest|
    {
      var d :| d in rest;
      values := values + [byDate[d]];
      rest := rest - {d};
    }
  }

  lemma SortedValues(byDate: map<Date, Version>, values: seq<Version>, r: seq<Version>)
    requires multiset(r) == multiset(values)
    requires forall v <- values :: v.statementDate in byDate && byDate[v.statementDate] == v
    requires forall d <- byDate :: byDate[d] in values
    requires DistinctKeys(values, DateOf)
    ensures forall v <- r :: v.statementDate in byDate && byDate[v.statementDate] == v
    ensures forall d <- byDate :: byDate[d] in r
    ensures DistinctKeys(r, DateOf)
  {
    forall v: Version
      ensures v in r <==> v in values
    {
      SameMembers(r, values, v);
    }
    PermutationKeepsDistinct(values, r, DateOf);
  }

  lemma ListingHolds(byDate: map<Date, Version>, versions: seq<Version>, r: seq<Version>)
    requires ByDateHolds(byDate, versions) && SortedBy(r, KeyOf, ByDate)
    requires forall v <- r :: v.statementDate in byDate && byDate[v.statementDate] == v
    requires forall d <- byDate :: byDate[d] in r
    requires DistinctKeys(r, DateOf)
    ensures LatestPerDate(r, versions)
  {
    hide StringLe, Selected;
    forall i, j | 0 <= i < j < |r|
      ensures Before(r[i].statementDate, r[j].statementDate)
    {
      OrdinalOrders(r[i].statementDate, r[j].statementDate);
    }
    forall w | w in versions && !w.isRestated
      ensures exists i | 0 <= i < |r| :: r[i].statementDate == w.statementDate
    {
      var i :| 0 <= i < |r| && r[i] == byDate[w.statementDate];
    }
  }

  // ------------------------------------------------------------------- the theorem

  /** Statement version ids are a primary key. */
  predicate IdsAreKeys(rows: seq<Version>) {
    forall v, w | v in rows && w in rows && v.versionId == w.versionId :: v == w
  }

  /** The entries of a listing are exactly the selected versions; with their dates
      ascending that leaves no choice. */
  lemma ListingMembers(r: seq<Version>, rows: seq<Version>, v: Version)
    requires IdsAreKeys(rows) && LatestPerDate(r, rows)
    ensures v in r <==> Selected(v, rows)
  {
    if Selected(v, rows) {
      var i :| 0 <= i < |r| && r[i].statementDate == v.statementDate;
      assert r[i] in r && Selected(r[i], rows);
      Orders();
      hide StringLe;
      assert Newest(KeyOf(v), KeyOf(r[i])) && Newest(KeyOf(r[i]), KeyOf(v));
    }
  }

  lemma WindowMembers(rows: seq<Version>, companyId: string, statementType: string, fromDate: Date, toDate: Date,
                      v: Version)
    ensures v in Window(rows, companyId, statementType, fromDate, toDate)
            <==> v in rows && InWindow(v, companyId, statementType, fromDate, toDate)
  {
    var keep := (v: Version) => InWindow(v, companyId, statementType, fromDate, toDate);
    Orders();
    SortSorts(Filter(rows, keep), KeyOf, ByDate);
    SameMembers(Window(rows, companyId, statementType, fromDate, toDate), Filter(rows, keep), v);
    FilterMembers(rows, keep, v);
  }

  /** The versions of a window, told from their columns, oldest first: by date, then
      sequence, then id. */
  lemma WindowIsExactly(rows: seq<Version>, companyId: string, statementType: string, fromDate: Date, toDate: Date)
    ensures var window := Window(rows, companyId, statementType, fromDate, toDate);
            && (forall v: Version ::
                  multiset(window)[v]
                  == if v.companyId == companyId && v.statementType == statementType
                        && Ordinal(fromDate) <= Ordinal(v.statementDate) <= Ordinal(toDate)
                     then multiset(rows)[v] else 0)
            && forall i, j | 0 <= i < j < |window| ::
                 var v, w := window[i], window[j];
                 && Ordinal(v.statementDate) <= Ordinal(w.statementDate)
                 && (v.statementDate == w.statementDate ==>
                       && v.versionSequence <= w.versionSequence
                       && (v.versionSequence == w.versionSequence ==> NotAfter(v.versionId, w.versionId)))
  {
    var keep := (v: Version) => InWindow(v, companyId, statementType, fromDate, toDate);
    Orders();
    SortSorts(Filter(rows, keep), KeyOf, ByDate);
    var window := Window(rows, companyId, statementType, fromDate, toDate);
    forall v: Version
      ensures multiset(window)[v]
              == if InWindow(v, companyId, statementType, fromDate, toDate) then multiset(rows)[v] else 0
    {
      FilterMembers(rows, keep, v);
    }
    hide Window, Ordinal, NotAfter;
    forall i, j | 0 <= i < j < |window|
      ensures var v, w := window[i], window[j];
              && Ordinal(v.statementDate) <= Ordinal(w.statementDate)
              && (v.statementDate == w.statementDate ==>
                    && v.versionSequence <= w.versionSequence
                    && (v.versionSequence == w.versionSequence ==> NotAfter(v.versionId, w.versionId)))
    {
      StringLeIff(window[i].versionId, window[j].versionId);
    }
  }

  /** What the latest version of a date is, told from the columns: of those of the company,
      type and date, one with the greatest sequence, and of these the least id. */
  lemma LatestIsExactly(rows: seq<Version>, companyId: string, statementType: string, date: Date)
    ensures var top := Latest(rows, companyId, statementType, date);
            && (top.None? <==> forall v <- rows ::
                  !(v.companyId == companyId && v.statementType == statementType && v.statementDate == date))
            && (top.Some? ==>
                  && top.value in rows && top.value.companyId == companyId && top.value.statementType == statementType
                  && top.value.statementDate == date
                  && forall v <- rows | v.companyId == companyId && v.statementType == statementType
                                        && v.statementDate == date ::
                       && v.versionSequence <= top.value.versionSequence
                       && (v.versionSequence == top.value.versionSequence
                           ==> NotAfter(top.value.versionId, v.versionId)))
  {
    LatestIsNewest(rows, companyId, statementType, date);
    hide Latest, StringLe, NotAfter, Ordinal;
    forall v: Version
      ensures InWindow(v, companyId, statementType, date, date)
              <==> v.companyId == companyId && v.statementType == statementType && v.statementDate == date
    {
      OrdinalOrders(v.statementDate, date);
    }
    var top := Latest(rows, companyId, statementType, date);
    if top.Some? {
      forall v | v in rows && InWindow(v, companyId, statementType, date, date)
        ensures v.versionSequence <= top.value.versionSequence
        ensures v.versionSequence == top.value.versionSequence ==> NotAfter(top.value.versionId, v.versionId)
      {
        StringLeIff(top.value.versionId, v.versionId);
        StringLeReflexive(v.versionId);
      }
    }
  }

  /** What a listing without restated versions is, told from the columns: its dates
      ascend; each entry is not restated and has the greatest sequence of those of its
      date; and every date with one has an entry. */
  lemma ListingIsExactly(r: seq<Version>, rows: seq<Version>)
    requires LatestPerDate(r, rows)
    ensures forall i, j | 0 <= i < j < |r| :: Ordinal(r[i].statementDate) < Ordinal(r[j].statementDate)
    ensures forall v <- r ::
              && v in rows && !v.isRestated
              && forall w <- rows | w.statementDate == v.statementDate && !w.isRestated ::
                   w.versionSequence <= v.versionSequence
    ensures forall w <- rows | !w.isRestated :: exists i | 0 <= i < |r| :: r[i].statementDate == w.statementDate
  {
    hide StringLe;
  }

  /** The latest version of a date is one of that date that no other is newer than. */
  lemma LatestIsNewest(rows: seq<Version>, companyId: string, statementType: string, date: Date)
    ensures var top := Latest(rows, companyId, statementType, date);
            && (top.None? <==> forall v <- rows :: !InWindow(v, companyId, statementType, date, date))
            && (top.Some? ==> top.value in rows && InWindow(top.value, companyId, statementType, date, date)
                              && forall v <- rows | InWindow(v, companyId, statementType, date, date) ::
                                   Newest(KeyOf(top.value), KeyOf(v)))
  {
    var keep := (v: Version) => InWindow(v, companyId, statementType, date, date);
    var found := OfDate(rows, companyId, statementType, date);
    Orders();
    SortSorts(Filter(rows, keep), KeyOf, Newest);
    forall v: Version
      ensures v in found <==> v in rows && InWindow(v, companyId, statementType, date, date)
    {
      SameMembers(found, Filter(rows, keep), v);
      FilterMembers(rows, keep, v);
    }
    if found != [] {
      assert found[0] in found;
      forall v | v in found
        ensures Newest(KeyOf(found[0]), KeyOf(v))
      {
        var i :| 0 <= i < |found| && found[i] == v;
      }
    }
  }

  /** For every date of the window: the latest version of the date is listed
      exactly when it is not restated. */
  lemma ListedExactlyWhenNotRestated(rows: seq<Version>, companyId: string, statementType: string,
                                     fromDate: Date, toDate: Date, date: Date, r: seq<Version>)
    requires IdsAreKeys(rows) && Ordinal(fromDate) <= Ordinal(date) <= Ordinal(toDate)
    requires LatestPerDate(r, Window(rows, companyId, statementType, fromDate, toDate))
    requires Latest(rows, companyId, statementType, date).Some?
    ensures var top := Latest(rows, companyId, statementType, date).value;
            top in r <==> !top.isRestated
  {
    var window := Window(rows, companyId, statementType, fromDate, toDate);
    var top := Latest(rows, companyId, statementType, date).value;
    LatestIsNewest(rows, companyId, statementType, date);
    forall v: Version
      ensures v in window <==> v in rows && InWindow(v, companyId, statementType, fromDate, toDate)
    {
      WindowMembers(rows, companyId, statementType, fromDate, toDate, v);
    }
    hide Window, Latest, StringLe;
    OrdinalOrders(top.statementDate, date);
    ListingMembers(r, window, top);
    if !top.isRestated {
      assert Selected(top, window);
    }
  }

  /** The dates listed are exactly those with a non-restated version. */
  lemma ListedDates(rows: seq<Version>, r: seq<Version>, date: Date)
    requires LatestPerDate(r, rows)
    ensures (exists v <- r :: v.statementDate == date)
            <==> (exists w <- rows :: w.statementDate == date && !w.isRestated)
  {
    if w :| w in rows && w.statementDate == date && !w.isRestated {
      var i :| 0 <= i < |r| && r[i].statementDate == w.statementDate;
      assert r[i] in r;
    }
    if v :| v in r && v.statementDate == date {
      assert Selected(v, rows);
    }
  }
}
