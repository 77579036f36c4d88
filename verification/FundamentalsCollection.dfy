/** Collecting the payloads of a fundamentals panel: for each company and year, the
    latest version of every date and period in the window that has a payload. */
module FundamentalsCollection {
  import opened Wrappers
  import opened Sorting
  import opened Dates
  import opened Payloads
  import opened Fundamentals

  /** A statement version as the repository lists it. */
  datatype VersionRow = VersionRow(
    cik: string, statementDate: Date, fiscalYear: int, fiscalPeriod: FiscalPeriod, sequence: int,
    payload: Option<Payload>)

  datatype Window = Window(fromDate: Date, toDate: Date, allowed: set<FiscalPeriod>)

  datatype PeriodKey = PeriodKey(date: Date, period: FiscalPeriod)

  function PeriodOf(row: VersionRow): PeriodKey {
    PeriodKey(row.statementDate, row.fiscalPeriod)
  }

  /** The rows the repository lists for a company and a year, in its order, that lie in
      the window and have a payload. `rows` are those of the one statement type. */
  function CandidateFor(w: Window, cik: string, year: int): VersionRow -> bool {
    (row: VersionRow) =>
      && row.cik == cik && row.fiscalYear == year && row.fiscalPeriod in w.allowed
      && !Before(row.statementDate, w.fromDate) && !Before(w.toDate, row.statementDate)
      && row.payload.Some?
  }

  function Candidates(rows: seq<VersionRow>, w: Window, cik: string, year: int): seq<VersionRow> {
    Filter(rows, CandidateFor(w, cik, year))
  }

  /** The version kept for a key: a later one replaces it only with a greater sequence. */
  function BestOf(rows: seq<VersionRow>, key: PeriodKey): Option<VersionRow>
    decreases |rows|
  {
    if rows == [] then None
    else
      var row, best := rows[|rows| - 1], BestOf(rows[..|rows| - 1], key);
      if row.payload.Some? && PeriodOf(row) == key && (best.None? || row.sequence > best.value.sequence) then Some(row)
      else best
  }

  /** `p` is the payload of the version kept for `key`. */
  predicate Keeps(rows: seq<VersionRow>, key: PeriodKey, p: Payload) {
    BestOf(rows, key).Some? && BestOf(rows, key).value.payload == Some(p)
  }

  /** Entry `i` has the greatest sequence of its key, and is the first that has it. */
  predicate FirstGreatest(rows: seq<VersionRow>, i: nat, key: PeriodKey)
    requires i < |rows|
  {
    && rows[i].payload.Some? && PeriodOf(rows[i]) == key
    && forall j | 0 <= j < |rows| && rows[j].payload.Some? && PeriodOf(rows[j]) == key ::
         rows[j].sequence < rows[i].sequence || (rows[j].sequence == rows[i].sequence && i <= j)
  }

  /** Of versions with equal sequences the first is kept. */
  lemma {:induction false} BestIsFirst(rows: seq<VersionRow>, key: PeriodKey) returns (i: nat)
    requires BestOf(rows, key).Some?
    ensures i < |rows| && BestOf(rows, key) == Some(rows[i]) && FirstGreatest(rows, i, key)
    decreases |rows|
  {
    var n := |rows| - 1;
    if BestOf(rows[..n], key).Some? {
      i := BestIsFirst(rows[..n], key);
      assert forall j | 0 <= j < n :: rows[..n][j] == rows[j];
      if BestOf(rows, key) != BestOf(rows[..n], key) {
        i := n;
      }
    } else {
      i := n;
      BestIsGreatest(rows[..n], key);
      assert forall j | 0 <= j < n :: rows[j] in rows[..n];
    }
  }

  /** What is kept has the greatest sequence among the versions of its key. */
  lemma {:induction false} BestIsGreatest(rows: seq<VersionRow>, key: PeriodKey)
    ensures BestOf(rows, key).None? <==> forall row <- rows :: row.payload.Some? ==> PeriodOf(row) != key
    ensures BestOf(rows, key).Some? ==>
              var best := BestOf(rows, key).value;
              && best in rows && PeriodOf(best) == key && best.payload.Some?
              && forall row <- rows | row.payload.Some? && PeriodOf(row) == key :: row.sequence <= best.sequence
    decreases |rows|
  {
    if rows != [] {
      var n := |rows| - 1;
      BestIsGreatest(rows[..n], key);
      assert rows == rows[..n] + [rows[n]];
    }
  }

  /** What the two dicts hold after the rows of `seen`. */
  ghost predicate Holds(byKey: map<PeriodKey, Payload>, bySequence: map<PeriodKey, int>, seen: seq<VersionRow>) {
    forall key: PeriodKey ::
      match BestOf(seen, key)
      case None => key !in byKey && key !in bySequence
      case Some(row) =>
        key in byKey && key in bySequence && row.payload == Some(byKey[key]) && row.sequence == bySequence[key]
  }

  predicate Replaces(bySequence: map<PeriodKey, int>, row: VersionRow) {
    row.payload.Some?
    && (PeriodOf(row) in bySequence ==> row.sequence > bySequence[PeriodOf(row)])
  }

  lemma HoldsStep(byKey: map<PeriodKey, Payload>, bySequence: map<PeriodKey, int>, rows: seq<VersionRow>, i: nat)
    requires i < |rows| && Holds(byKey, bySequence, rows[..i])
    ensures var row := rows[i];
            if Replaces(bySequence, row) then
              Holds(byKey[PeriodOf(row) := row.payload.value], bySequence[PeriodOf(row) := row.sequence], rows[..i + 1])
            else Holds(byKey, bySequence, rows[..i + 1])
  {
    assert rows[..i + 1][..i] == rows[..i];
    var row := rows[i];
    var replaced := Replaces(bySequence, row);
    var byKey' := if replaced then byKey[PeriodOf(row) := row.payload.value] else byKey;
    var bySequence' := if replaced then bySequence[PeriodOf(row) := row.sequence] else bySequence;
    forall key: PeriodKey
      ensures match BestOf(rows[..i + 1], key)
              case None => key !in byKey' && key !in bySequence'
              case Some(r) =>
                key in byKey' && key in bySequence' && r.payload == Some(byKey'[key]) && r.sequence == bySequence'[key]
    {
      assert BestOf(rows[..i], key).Some? <==> key in bySequence;
    }
  }

  lemma HoldsNothing()
    ensures Holds(map[], map[], [])
  {
  }

  /** The loop that fills `by_key` and `by_seq`, and the values it leaves: one payload
      for each key among the rows, that of the version kept for it. */
  method LatestPayloads(rows: seq<VersionRow>) returns (payloads: seq<Payload>, ghost keys: seq<PeriodKey>)
    ensures forall p: Payload :: p in payloads <==> exists key :: Keeps(rows, key, p)
    ensures |keys| == |payloads| && forall i, j | 0 <= i < j < |keys| :: keys[i] != keys[j]
    ensures forall i | 0 <= i < |keys| ::
              BestOf(rows, keys[i]).Some? && BestOf(rows, keys[i]).value.payload == Some(payloads[i])
    ensures forall key | BestOf(rows, key).Some? :: key in keys
  {
    var byKey: map<PeriodKey, Payload> := map[];
    var bySequence: map<PeriodKey, int> := map[];
    HoldsNothing();
    hide Holds;
    for i := 0 to |rows|
      invariant Holds(byKey, bySequence, rows[..i])
    {
      var row := rows[i];
      HoldsStep(byKey, bySequence, rows, i);
      if row.payload.None? {
        continue;
      }
      var key := PeriodOf(row);
      if key !in bySequence || row.sequence > bySequence[key] {
        bySequence := bySequence[key := row.sequence];
        byKey := byKey[key := row.payload.value];
      }
    }
    assert rows[..|rows|] == rows;
    payloads, keys := Values(byKey);
    forall key: PeriodKey
      ensures BestOf(rows, key).Some? <==> key in byKey
      ensures key in byKey ==> BestOf(rows, key).Some? && BestOf(rows, key).value.payload == Some(byKey[key])
    {
      HoldsAt(byKey, bySequence, rows, key);
    }
    forall p: Payload
      ensures p in payloads <==> exists key :: Keeps(rows, key, p)
    {
      if p in payloads {
        var i :| 0 <= i < |payloads| && payloads[i] == p;
        assert Keeps(rows, keys[i], p);
      }
      if key :| Keeps(rows, key, p) {
        var i :| 0 <= i < |keys| && keys[i] == key;
        assert payloads[i] == p;
      }
    }
  }

  lemma HoldsAt(byKey: map<PeriodKey, Payload>, bySequence: map<PeriodKey, int>, seen: seq<VersionRow>, key: PeriodKey)
    requires Holds(byKey, bySequence, seen)
    ensures BestOf(seen, key).Some? <==> key in byKey
    ensures key in byKey ==> BestOf(seen, key).Some? && BestOf(seen, key).value.payload == Some(byKey[key])
  {
  }

  /** The values of a dict, in some order. */
  method Values(byKey: map<PeriodKey, Payload>) returns (payloads: seq<Payload>, ghost keys: seq<PeriodKey>)
    ensures |keys| == |payloads| && forall i, j | 0 <= i < j < |keys| :: keys[i] != keys[j]
    ensures forall i | 0 <= i < |keys| :: keys[i] in byKey && byKey[keys[i]] == payloads[i]
    ensures forall key <- byKey :: key in keys
  {
    payloads, keys := [], [];
    var rest := byKey.Keys;
    while rest != {}
      invariant rest <= byKey.Keys && |keys| == |payloads|
      invariant forall i, j | 0 <= i < j < |keys| :: keys[i] != keys[j]
      invariant forall i | 0 <= i < |keys| :: keys[i] in byKey.Keys - rest && byKey[keys[i]] == payloads[i]
      invariant forall key | key in byKey.Keys - rest :: key in keys
      decreases |rest|
    {
      var key :| key in rest;
      payloads, keys, rest := payloads + [byKey[key]], keys + [key], rest - {key};
    }
  }

  /** `p` is the payload kept for one key of one company and year of the window. */
  predicate Chosen(rows: seq<VersionRow>, w: Window, cik: string, year: int, key: PeriodKey, p: Payload) {
    w.fromDate.year <= year <= w.toDate.year && Keeps(Candidates(rows, w, cik, year), key, p)
  }

  /** Where a payload of one company comes from. */
  datatype Place = Place(year: int, key: PeriodKey)

  /** One payload, in some order, for each year before `end` and each key with one. */
  ghost predicate OneEach(payloads: seq<Payload>, places: seq<Place>, rows: seq<VersionRow>, w: Window, cik: string,
                          end: int) {
    && |places| == |payloads| && (forall i, j | 0 <= i < j < |places| :: places[i] != places[j])
    && (forall i | 0 <= i < |places| ::
          places[i].year < end && Chosen(rows, w, cik, places[i].year, places[i].key, payloads[i]))
    && forall year, key, p | year < end && Chosen(rows, w, cik, year, key, p) :: Place(year, key) in places
  }

  function PlacesOf(year: int, keys: seq<PeriodKey>): (places: seq<Place>)
    ensures |places| == |keys| && forall i | 0 <= i < |keys| :: places[i] == Place(year, keys[i])
  {
    seq(|keys|, i requires 0 <= i < |keys| => Place(year, keys[i]))
  }

  lemma NextYear(payloads: seq<Payload>, places: seq<Place>, rows: seq<VersionRow>, w: Window, cik: string, year: int,
                 latest: seq<Payload>, keys: seq<PeriodKey>)
    requires OneEach(payloads, places, rows, w, cik, year)
    requires |keys| == |latest| && forall i, j | 0 <= i < j < |keys| :: keys[i] != keys[j]
    requires forall i | 0 <= i < |keys| :: Chosen(rows, w, cik, year, keys[i], latest[i])
    requires forall key, p | Chosen(rows, w, cik, year, key, p) :: key in keys
    ensures OneEach(payloads + latest, places + PlacesOf(year, keys), rows, w, cik, year + 1)
  {
    hide Chosen;
    var added := PlacesOf(year, keys);
    forall y, key, p | y < year + 1 && Chosen(rows, w, cik, y, key, p)
      ensures Place(y, key) in places + added
    {
      if y == year {
        var i :| 0 <= i < |keys| && keys[i] == key;
        assert added[i] == Place(y, key);
      }
    }
  }

  lemma LatestAreChosen(rows: seq<VersionRow>, w: Window, cik: string, year: int, latest: seq<Payload>,
                        keys: seq<PeriodKey>)
    requires w.fromDate.year <= year <= w.toDate.year && |keys| == |latest|
    requires forall i | 0 <= i < |keys| ::
               && BestOf(Candidates(rows, w, cik, year), keys[i]).Some?
               && BestOf(Candidates(rows, w, cik, year), keys[i]).value.payload == Some(latest[i])
    requires forall key | BestOf(Candidates(rows, w, cik, year), key).Some? :: key in keys
    ensures forall i | 0 <= i < |keys| :: Chosen(rows, w, cik, year, keys[i], latest[i])
    ensures forall key, p | Chosen(rows, w, cik, year, key, p) :: key in keys
  {
    hide BestOf, Candidates;
  }

  lemma EndsAtWindow(payloads: seq<Payload>, places: seq<Place>, rows: seq<VersionRow>, w: Window, cik: string,
                     year: int)
    requires OneEach(payloads, places, rows, w, cik, year) && year > w.toDate.year
    ensures OneEach(payloads, places, rows, w, cik, w.toDate.year + 1)
  {
    hide Keeps;
  }

  lemma OneChosen(rows: seq<VersionRow>, w: Window, cik: string, year: int, key: PeriodKey, p: Payload, q: Payload)
    requires Chosen(rows, w, cik, year, key, p) && Chosen(rows, w, cik, year, key, q)
    ensures p == q && w.fromDate.year <= year <= w.toDate.year
  {
    hide BestOf, Candidates;
  }

  lemma PlacedAreChosen(payloads: seq<Payload>, places: seq<Place>, rows: seq<VersionRow>, w: Window, cik: string)
    requires OneEach(payloads, places, rows, w, cik, w.toDate.year + 1)
    ensures forall p: Payload :: p in payloads <==> exists year, key :: Chosen(rows, w, cik, year, key, p)
  {
    hide Chosen;
    forall p: Payload
      ensures p in payloads <==> exists year, key :: Chosen(rows, w, cik, year, key, p)
    {
      if p in payloads {
        var i :| 0 <= i < |payloads| && payloads[i] == p;
        assert Chosen(rows, w, cik, places[i].year, places[i].key, p);
      }
      if year, key :| Chosen(rows, w, cik, year, key, p) {
        OneChosen(rows, w, cik, year, key, p, p);
        var i :| 0 <= i < |places| && places[i] == Place(year, key);
        OneChosen(rows, w, cik, year, key, p, payloads[i]);
      }
    }
  }

  /** `_collect_company_payloads`. */
  method CollectCompany(rows: seq<VersionRow>, w: Window, cik: string)
    returns (payloads: seq<Payload>, ghost places: seq<Place>)
    ensures OneEach(payloads, places, rows, w, cik, w.toDate.year + 1)
    ensures forall p: Payload :: p in payloads <==> exists year, key :: Chosen(rows, w, cik, year, key, p)
  {
    payloads, places := [], [];
    hide Candidates, Keeps;
    var year: int := w.fromDate.year;
    assert OneEach(payloads, places, rows, w, cik, year);
    hide OneEach, Chosen;
    while year <= w.toDate.year
      invariant w.fromDate.year <= year
      invariant year <= w.toDate.year + 1 || w.toDate.year < w.fromDate.year
      invariant OneEach(payloads, places, rows, w, cik, year)
    {
      var latest, keys := LatestPayloads(Candidates(rows, w, cik, year));
      LatestAreChosen(rows, w, cik, year, latest, keys);
      NextYear(payloads, places, rows, w, cik, year, latest, keys);
      payloads, places := payloads + latest, places + PlacesOf(year, keys);
      year := year + 1;
    }
    EndsAtWindow(payloads, places, rows, w, cik, year);
    PlacedAreChosen(payloads, places, rows, w, cik);
  }

  /** A version the window wants, told from its columns. */
  predicate InCollection(row: VersionRow, w: Window, cik: string, year: int) {
    && row.cik == cik && row.fiscalYear == year && row.fiscalPeriod in w.allowed
    && Ordinal(w.fromDate) <= Ordinal(row.statementDate) <= Ordinal(w.toDate)
    && row.payload.Some?
  }

  lemma CandidatesAreExactly(rows: seq<VersionRow>, w: Window, cik: string, year: int, row: VersionRow)
    ensures row in Candidates(rows, w, cik, year) <==> row in rows && InCollection(row, w, cik, year)
  {
    FilterMembers(rows, CandidateFor(w, cik, year), row);
    OrdinalOrders(row.statementDate, w.fromDate);
    OrdinalOrders(w.toDate, row.statementDate);
    hide Ordinal, Before;
  }

  /** The row's payload is kept: no wanted version of its company, year, date and period
      has a greater sequence. */
  predicate KeptRow(rows: seq<VersionRow>, w: Window, row: VersionRow) {
    && row in rows && InCollection(row, w, row.cik, row.fiscalYear)
    && forall other <- rows | InCollection(other, w, row.cik, row.fiscalYear)
                              && other.statementDate == row.statementDate && other.fiscalPeriod == row.fiscalPeriod ::
         other.sequence <= row.sequence
  }

  /** What is kept for a key, told from the rows: the payload of a kept row, if there is a
      wanted version for the key at all. */
  lemma ChosenIsKept(rows: seq<VersionRow>, w: Window, cik: string, year: int, key: PeriodKey, p: Payload)
    ensures Chosen(rows, w, cik, year, key, p) ==>
              && w.fromDate.year <= year <= w.toDate.year
              && exists row <- rows ::
                   && KeptRow(rows, w, row) && row.cik == cik && row.fiscalYear == year
                   && row.statementDate == key.date && row.fiscalPeriod == key.period && row.payload == Some(p)
  {
    if Chosen(rows, w, cik, year, key, p) {
      var candidates := Candidates(rows, w, cik, year);
      BestIsGreatest(candidates, key);
      var best := BestOf(candidates, key).value;
      CandidatesAreExactly(rows, w, cik, year, best);
      forall other | other in rows && InCollection(other, w, cik, year)
        ensures other in candidates
      {
        CandidatesAreExactly(rows, w, cik, year, other);
      }
      hide BestOf, Candidates, InCollection;
      WantedPayload(best, w, cik, year);
      forall other | other in rows && InCollection(other, w, cik, year)
                     && other.statementDate == best.statementDate && other.fiscalPeriod == best.fiscalPeriod
        ensures other.sequence <= best.sequence
      {
        WantedPayload(other, w, cik, year);
      }
      assert KeptRow(rows, w, best);
    }
  }

  lemma WantedPayload(row: VersionRow, w: Window, cik: string, year: int)
    requires InCollection(row, w, cik, year)
    ensures row.payload.Some? && row.cik == cik && row.fiscalYear == year
  {
  }

  /** Every wanted version's key has a payload kept for it. */
  lemma EveryKeyIsKept(rows: seq<VersionRow>, w: Window, row: VersionRow) returns (p: Payload)
    requires row in rows && InCollection(row, w, row.cik, row.fiscalYear)
    requires w.fromDate.year <= row.fiscalYear <= w.toDate.year
    ensures Chosen(rows, w, row.cik, row.fiscalYear, PeriodKey(row.statementDate, row.fiscalPeriod), p)
  {
    var candidates := Candidates(rows, w, row.cik, row.fiscalYear);
    var key := PeriodKey(row.statementDate, row.fiscalPeriod);
    CandidatesAreExactly(rows, w, row.cik, row.fiscalYear, row);
    BestIsGreatest(candidates, key);
    hide BestOf, Candidates;
    p := BestOf(candidates, key).value.payload.value;
  }

  /** What collecting a list of companies gives. */
  ghost predicate CollectedFrom(payloads: seq<Payload>, rows: seq<VersionRow>, w: Window, ciks: seq<string>) {
    forall p: Payload ::
      p in payloads <==> exists cik, year, key :: cik in ciks && Chosen(rows, w, cik, year, key, p)
  }

  /** A place of the company listed under an index. */
  datatype Entry = Entry(company: nat, place: Place)

  predicate Fits(e: Entry, p: Payload, rows: seq<VersionRow>, w: Window, ciks: seq<string>) {
    e.company < |ciks| && Chosen(rows, w, ciks[e.company], e.place.year, e.place.key, p)
  }

  predicate PairwiseDistinct(entries: seq<Entry>) {
    forall i, j | 0 <= i < j < |entries| :: entries[i] != entries[j]
  }

  /** Every payload chosen for a listed company has its entry. */
  ghost predicate AllListed(entries: seq<Entry>, rows: seq<VersionRow>, w: Window, ciks: seq<string>) {
    forall e: Entry, p | Fits(e, p, rows, w, ciks) :: e in entries
  }

  /** One payload, in some order, for each listed company, year and key with one. */
  ghost predicate OneEachOf(payloads: seq<Payload>, entries: seq<Entry>, rows: seq<VersionRow>, w: Window,
                            ciks: seq<string>) {
    && |entries| == |payloads| && PairwiseDistinct(entries)
    && (forall i | 0 <= i < |entries| :: Fits(entries[i], payloads[i], rows, w, ciks))
    && AllListed(entries, rows, w, ciks)
  }

  function EntriesOf(c: nat, places: seq<Place>): (entries: seq<Entry>)
    ensures |entries| == |places| && forall i | 0 <= i < |places| :: entries[i] == Entry(c, places[i])
  {
    seq(|places|, i requires 0 <= i < |places| => Entry(c, places[i]))
  }

  lemma NextDistinct(entries: seq<Entry>, c: nat, places: seq<Place>)
    requires PairwiseDistinct(entries) && forall i | 0 <= i < |entries| :: entries[i].company < c
    requires forall i, j | 0 <= i < j < |places| :: places[i] != places[j]
    ensures PairwiseDistinct(entries + EntriesOf(c, places))
  {
  }

  /** An entry of the list up to and with company `c` is an earlier one or one of its own. */
  lemma FitsNext(e: Entry, p: Payload, rows: seq<VersionRow>, w: Window, ciks: seq<string>, c: nat)
    requires c < |ciks|
    ensures Fits(e, p, rows, w, ciks[..c + 1])
            <==> || Fits(e, p, rows, w, ciks[..c])
                 || (e.company == c && Chosen(rows, w, ciks[c], e.place.year, e.place.key, p))
  {
    hide Chosen;
  }

  lemma NextListed(entries: seq<Entry>, rows: seq<VersionRow>, w: Window, ciks: seq<string>, c: nat,
                   company: seq<Payload>, places: seq<Place>)
    requires c < |ciks| && AllListed(entries, rows, w, ciks[..c])
    requires OneEach(company, places, rows, w, ciks[c], w.toDate.year + 1)
    ensures AllListed(entries + EntriesOf(c, places), rows, w, ciks[..c + 1])
  {
    hide Chosen, Fits;
    var upTo := ciks[..c + 1];
    forall e: Entry, p | Fits(e, p, rows, w, upTo)
      ensures e in entries + EntriesOf(c, places)
    {
      FitsNext(e, p, rows, w, ciks, c);
      if !Fits(e, p, rows, w, ciks[..c]) {
        OneChosen(rows, w, ciks[c], e.place.year, e.place.key, p, p);
        var i :| 0 <= i < |places| && places[i] == e.place;
        assert EntriesOf(c, places)[i] == e;
      }
    }
  }

  lemma NextCompany(payloads: seq<Payload>, entries: seq<Entry>, rows: seq<VersionRow>, w: Window, ciks: seq<string>,
                    c: nat, company: seq<Payload>, places: seq<Place>)
    requires c < |ciks| && OneEachOf(payloads, entries, rows, w, ciks[..c])
    requires OneEach(company, places, rows, w, ciks[c], w.toDate.year + 1)
    ensures OneEachOf(payloads + company, entries + EntriesOf(c, places), rows, w, ciks[..c + 1])
  {
    var all, ps := entries + EntriesOf(c, places), payloads + company;
    NextListed(entries, rows, w, ciks, c, company, places);
    NextDistinct(entries, c, places);
    hide Chosen, Fits, AllListed, PairwiseDistinct;
    forall i | 0 <= i < |all|
      ensures Fits(all[i], ps[i], rows, w, ciks[..c + 1])
    {
      FitsNext(all[i], ps[i], rows, w, ciks, c);
    }
  }

  lemma EntriesAreChosen(payloads: seq<Payload>, entries: seq<Entry>, rows: seq<VersionRow>, w: Window,
                         ciks: seq<string>)
    requires OneEachOf(payloads, entries, rows, w, ciks)
    ensures CollectedFrom(payloads, rows, w, ciks)
  {
    hide Chosen;
    forall p: Payload
      ensures p in payloads <==> exists cik, year, key :: cik in ciks && Chosen(rows, w, cik, year, key, p)
    {
      if p in payloads {
        var i :| 0 <= i < |payloads| && payloads[i] == p;
        var e := entries[i];
        assert ciks[e.company] in ciks && Chosen(rows, w, ciks[e.company], e.place.year, e.place.key, p);
      }
      if cik, year, key :| cik in ciks && Chosen(rows, w, cik, year, key, p) {
        var c :| 0 <= c < |ciks| && ciks[c] == cik;
        assert Fits(Entry(c, Place(year, key)), p, rows, w, ciks);
        var i :| 0 <= i < |entries| && entries[i] == Entry(c, Place(year, key));
        OneChosen(rows, w, cik, year, key, p, payloads[i]);
      }
    }
  }

  /** The loop over the companies. */
  method Collect(rows: seq<VersionRow>, w: Window, ciks: seq<string>)
    returns (payloads: seq<Payload>, ghost entries: seq<Entry>)
    ensures OneEachOf(payloads, entries, rows, w, ciks) && CollectedFrom(payloads, rows, w, ciks)
  {
    payloads, entries := [], [];
    assert OneEachOf(payloads, entries, rows, w, ciks[..0]);
    hide Chosen, OneEach, OneEachOf, CollectedFrom;
    for i := 0 to |ciks|
      invariant OneEachOf(payloads, entries, rows, w, ciks[..i])
    {
      var company, places := CollectCompany(rows, w, ciks[i]);
      NextCompany(payloads, entries, rows, w, ciks, i, company, places);
      payloads, entries := payloads + company, entries + EntriesOf(i, places);
    }
    assert ciks[..|ciks|] == ciks;
    EntriesAreChosen(payloads, entries, rows, w, ciks);
  }

  /** Every payload says what its row says of company, date, year and period. */
  predicate PayloadsAgree(rows: seq<VersionRow>) {
    forall row <- rows | row.payload.Some? ::
      var p := row.payload.value;
      && p.cik == row.cik && p.statementDate == row.statementDate
      && p.fiscalYear == row.fiscalYear && p.fiscalPeriod == row.fiscalPeriod
  }

  lemma ChosenAgrees(rows: seq<VersionRow>, w: Window, cik: string, year: int, key: PeriodKey, p: Payload)
    requires PayloadsAgree(rows) && Chosen(rows, w, cik, year, key, p)
    ensures p.cik == cik && p.fiscalYear == year && PeriodKey(p.statementDate, p.fiscalPeriod) == key
  {
    BestIsGreatest(Candidates(rows, w, cik, year), key);
    FilterKeeps(rows, CandidateFor(w, cik, year));
    hide BestOf;
    var best := BestOf(Candidates(rows, w, cik, year), key).value;
    assert best in rows;
  }

  /** What the caller collects holds at most one payload for a company, date, year and
      period. */
  lemma CollectedIsOnePerPeriod(payloads: seq<Payload>, rows: seq<VersionRow>, w: Window, ciks: seq<string>)
    requires CollectedFrom(payloads, rows, w, ciks) && PayloadsAgree(rows)
    ensures OnePerPeriod(payloads)
  {
    forall p, q | p in payloads && q in payloads && p.cik == q.cik && p.statementDate == q.statementDate
                  && p.fiscalYear == q.fiscalYear && p.fiscalPeriod == q.fiscalPeriod
      ensures p == q
    {
      var cik, year, key :| cik in ciks && Chosen(rows, w, cik, year, key, p);
      var cik', year', key' :| cik' in ciks && Chosen(rows, w, cik', year', key', q);
      ChosenAgrees(rows, w, cik, year, key, p);
      ChosenAgrees(rows, w, cik', year', key', q);
    }
  }

  /** So the panel the use case returns does not depend on the order in which companies,
      years and dict entries come. */
  lemma CollectedHasOnePanel(payloads: seq<Payload>, rows: seq<VersionRow>, w: Window, ciks: seq<string>,
                             filter: Option<seq<Metric>>)
    requires CollectedFrom(payloads, rows, w, ciks) && PayloadsAgree(rows)
    ensures OrderFree(payloads, filter)
  {
    hide CollectedFrom, PayloadsAgree, OnePerPeriod, OrderFree;
    CollectedIsOnePerPeriod(payloads, rows, w, ciks);
    CollectedIsOrderFree(payloads, filter);
  }
}
