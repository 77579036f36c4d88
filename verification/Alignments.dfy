/** The statement alignment table: resolve a whole batch, then update each row in
    place or insert it. */
module Alignments {
  import opened Wrappers
  import opened Dates

  type Uuid = string

  /** What a record says beside the identity it is filed under. */
  datatype Detail = Detail(
    fyeDate: Option<Date>, is53WeekYear: bool, periodStart: Option<Date>, periodEnd: Option<Date>,
    alignmentStatus: string, isPartialPeriod: bool, isOffCyclePeriod: bool, isIrregularCalendar: bool,
    details: Option<string>)

  datatype Record = Record(cik: string, statementType: string, fiscalYear: int, fiscalPeriod: string,
                           statementDate: Date, versionSequence: int, detail: Detail)

  datatype VersionKey = VersionKey(companyId: Uuid, statementType: string, fiscalYear: int, fiscalPeriod: string,
                                   versionSequence: int)

  datatype StatementVersion = StatementVersion(versionId: Uuid, key: VersionKey, statementDate: Date)

  datatype Row = Row(alignmentId: Uuid, versionId: Uuid, companyId: Uuid, record: Record)

  datatype Error = CompanyNotFound(cik: string) | VersionNotFound(key: VersionKey)

  /** The two reference tables a batch is resolved against. */
  datatype Reference = Reference(companies: map<string, Uuid>, versions: seq<StatementVersion>)

  /** The lookup dict of versions: of several with one key, the last is kept. */
  function VersionOf(versions: seq<StatementVersion>, key: VersionKey): Option<Uuid> {
    if versions == [] then None
    else if versions[|versions| - 1].key == key then Some(versions[|versions| - 1].versionId)
    else VersionOf(versions[..|versions| - 1], key)
  }

  function KeyOf(r: Record, companyId: Uuid): VersionKey {
    VersionKey(companyId, r.statementType, r.fiscalYear, r.fiscalPeriod, r.versionSequence)
  }

  function Resolve(ref: Reference, r: Record, id: Uuid): Result<Row, Error> {
    if r.cik !in ref.companies then Err(CompanyNotFound(r.cik))
    else
      var companyId := ref.companies[r.cik];
      match VersionOf(ref.versions, KeyOf(r, companyId))
      case None => Err(VersionNotFound(KeyOf(r, companyId)))
      case Some(versionId) => Ok(Row(id, versionId, companyId, r))
  }

  /** The version a record names, field by field: the last of those in the table with
      its company, type, year, period and sequence. */
  predicate Names(r: Record, companyId: Uuid, v: StatementVersion) {
    && v.key.companyId == companyId && v.key.statementType == r.statementType && v.key.fiscalYear == r.fiscalYear
    && v.key.fiscalPeriod == r.fiscalPeriod && v.key.versionSequence == r.versionSequence
  }

  lemma {:induction false} LastVersion(versions: seq<StatementVersion>, key: VersionKey) returns (i: int)
    ensures -1 <= i < |versions| && forall j | i < j < |versions| :: versions[j].key != key
    ensures i >= 0 ==> versions[i].key == key && VersionOf(versions, key) == Some(versions[i].versionId)
    ensures i < 0 ==> VersionOf(versions, key) == None
  {
    var n := |versions| - 1;
    if versions == [] || versions[n].key == key {
      i := n;
    } else {
      i := LastVersion(versions[..n], key);
    }
  }

  /** What resolving a record gives: the error of an unknown company or version, or the
      row of the last version it names. */
  lemma ResolveMeans(ref: Reference, r: Record, id: Uuid)
    ensures r.cik !in ref.companies <==> Resolve(ref, r, id) == Err(CompanyNotFound(r.cik))
    ensures r.cik in ref.companies ==>
              var companyId, n := ref.companies[r.cik], |ref.versions|;
              && (Resolve(ref, r, id).Err? <==> forall i | 0 <= i < n :: !Names(r, companyId, ref.versions[i]))
              && forall i | 0 <= i < n && Names(r, companyId, ref.versions[i])
                            && forall j | i < j < n :: !Names(r, companyId, ref.versions[j]) ::
                   Resolve(ref, r, id) == Ok(Row(id, ref.versions[i].versionId, companyId, r))
  {
    hide VersionOf;
    if r.cik in ref.companies {
      var key := KeyOf(r, ref.companies[r.cik]);
      var last := LastVersion(ref.versions, key);
      assert forall v: StatementVersion :: v.key == key <==> Names(r, ref.companies[r.cik], v);
      if last >= 0 {
        assert Names(r, ref.companies[r.cik], ref.versions[last]);
      }
    }
  }

  /** UPDATE .. WHERE statement_version_id = row.versionId: every matching row
      takes all values but the alignment id. */
  function UpdateWhere(rows: seq<Row>, row: Row): (updated: seq<Row>)
    ensures |updated| == |rows|
    ensures forall i | 0 <= i < |rows| ::
              updated[i]
              == if rows[i].versionId == row.versionId then row.(alignmentId := rows[i].alignmentId) else rows[i]
  {
    seq(|rows|, i requires 0 <= i < |rows| =>
      if rows[i].versionId == row.versionId then row.(alignmentId := rows[i].alignmentId) else rows[i])
  }

  predicate Matches(rows: seq<Row>, versionId: Uuid) {
    exists i | 0 <= i < |rows| :: rows[i].versionId == versionId
  }

  /** Update first, then insert what is missing. */
  function Upsert(rows: seq<Row>, row: Row): seq<Row> {
    if Matches(rows, row.versionId) then UpdateWhere(rows, row) else rows + [row]
  }

  function UpsertAll(rows: seq<Row>, payload: seq<Row>): seq<Row> {
    if payload == [] then rows else Upsert(UpsertAll(rows, payload[..|payload| - 1]), payload[|payload| - 1])
  }

  class AlignmentRepository {
    const ref: Reference
    var rows: seq<Row>

    constructor (ref: Reference)
      ensures this.ref == ref && rows == []
    {
      this.ref := ref;
      rows := [];
    }

    /** The rows of a batch, or the error of its first record that cannot be
        resolved. `ids` are the ids drawn for the records. */
    method BuildPayload(records: seq<Record>, ids: seq<Uuid>) returns (r: Result<seq<Row>, Error>)
      requires |ids| == |records|
      ensures r.Ok? ==>
                && |r.value| == |records|
                && forall i | 0 <= i < |records| :: Resolve(ref, records[i], ids[i]) == Ok(r.value[i])
      ensures r.Err? ==> exists i | 0 <= i < |records| ::
                           && Resolve(ref, records[i], ids[i]) == Err(r.error)
                           && forall j | 0 <= j < i :: Resolve(ref, records[j], ids[j]).Ok?
    {
      var payload: seq<Row> := [];
      for i := 0 to |records|
        invariant |payload| == i && forall j | 0 <= j < i :: Resolve(ref, records[j], ids[j]) == Ok(payload[j])
      {
        var row := Resolve(ref, records[i], ids[i]);
        match row {
          case Err(e) => return Err(e);
          case Ok(value) => payload := payload + [value];
        }
      }
      r := Ok(payload);
    }

    /** `upsert_alignments`: all rows or, when one record cannot be resolved, none. */
    method UpsertAlignments(records: seq<Record>, ids: seq<Uuid>) returns (r: Result<(), Error>)
      requires |ids| == |records|
      modifies this
      ensures r.Err? <==> exists i | 0 <= i < |records| :: Resolve(ref, records[i], ids[i]).Err?
      ensures r.Err? ==> rows == old(rows)
      ensures r.Err? ==> exists i | 0 <= i < |records| ::
                           && Resolve(ref, records[i], ids[i]) == Err(r.error)
                           && forall j | 0 <= j < i :: Resolve(ref, records[j], ids[j]).Ok?
      ensures r.Ok? ==> rows == UpsertAll(old(rows), Resolved(ref, records, ids))
    {
      var built := BuildPayload(records, ids);
      match built {
        case Err(e) => return Err(e);
        case Ok(payload) =>
          ResolvedIs(ref, records, ids, payload);
          for i := 0 to |payload|
            invariant rows == UpsertAll(old(rows), payload[..i])
          {
            var row := payload[i];
            var affected := |set j | 0 <= j < |rows| && rows[j].versionId == row.versionId|;
            NoneAffected(rows, row.versionId);
            if affected == 0 {
              rows := rows + [row];
            } else {
              rows := UpdateWhere(rows, row);
            }
            assert payload[..i + 1][..i] == payload[..i];
          }
          assert payload[..|payload|] == payload;
          r := Ok(());
      }
    }
  }

  lemma NoneAffected(rows: seq<Row>, versionId: Uuid)
    ensures |set j | 0 <= j < |rows| && rows[j].versionId == versionId| == 0 <==> !Matches(rows, versionId)
  {
    var hits := set j | 0 <= j < |rows| && rows[j].versionId == versionId;
    if i: int :| 0 <= i < |rows| && rows[i].versionId == versionId {
      assert i in hits;
    } else {
      assert hits == {};
    }
  }

  /** The payload of a batch that can be resolved. */
  function Resolved(ref: Reference, records: seq<Record>, ids: seq<Uuid>): seq<Row>
    requires |ids| == |records|
  {
    if records == [] then []
    else
      var n := |records| - 1;
      match Resolve(ref, records[n], ids[n])
      case Ok(row) => Resolved(ref, records[..n], ids[..n]) + [row]
      case Err(_) => []
  }

  lemma {:induction false} ResolvedIs(ref: Reference, records: seq<Record>, ids: seq<Uuid>, payload: seq<Row>)
    requires |ids| == |records| == |payload|
    requires forall i | 0 <= i < |records| :: Resolve(ref, records[i], ids[i]) == Ok(payload[i])
    ensures Resolved(ref, records, ids) == payload
  {
    if records != [] {
      var n := |records| - 1;
      ResolvedIs(ref, records[..n], ids[..n], payload[..n]);
    }
  }

  // ----------------------------------------------------------- which version is meant

  /** The keys of the versions table: the id; and company, type, date and sequence. */
  predicate VersionsTable(versions: seq<StatementVersion>) {
    forall i, j | 0 <= i < j < |versions| ::
      && versions[i].versionId != versions[j].versionId
      && !(versions[i].statementDate == versions[j].statementDate
           && versions[i].key.companyId == versions[j].key.companyId
           && versions[i].key.statementType == versions[j].key.statementType
           && versions[i].key.versionSequence == versions[j].key.versionSequence)
  }

  lemma {:induction false} FoundAt(versions: seq<StatementVersion>, i: nat)
    requires i < |versions| && forall j | i < j < |versions| :: versions[j].key != versions[i].key
    ensures VersionOf(versions, versions[i].key) == Some(versions[i].versionId)
  {
    var n := |versions| - 1;
    if i < n {
      FoundAt(versions[..n], i);
    }
  }

  /** Every version is found under its key exactly when no two versions that share a key
      differ in their date; a record's own date is not looked at. */
  lemma EveryVersionFoundIff(versions: seq<StatementVersion>)
    requires VersionsTable(versions)
    ensures (forall i | 0 <= i < |versions| :: VersionOf(versions, versions[i].key) == Some(versions[i].versionId))
            <==> forall i, j | 0 <= i < |versions| && 0 <= j < |versions| && versions[i].key == versions[j].key ::
                   versions[i].statementDate == versions[j].statementDate
  {
    hide VersionOf;
    if forall i, j | 0 <= i < |versions| && 0 <= j < |versions| && versions[i].key == versions[j].key ::
         versions[i].statementDate == versions[j].statementDate {
      forall i | 0 <= i < |versions|
        ensures VersionOf(versions, versions[i].key) == Some(versions[i].versionId)
      {
        FoundAt(versions, i);
      }
    }
  }

  // ---------------------------------------------------------------- what is kept

  /** At most one row for each statement version. */
  predicate OnePerVersion(rows: seq<Row>) {
    forall i, j | 0 <= i < j < |rows| :: rows[i].versionId != rows[j].versionId
  }

  /** Every row of `before` is still there, at its place, with its id and version. */
  predicate IdsKept(before: seq<Row>, after: seq<Row>) {
    && |before| <= |after|
    && forall i | 0 <= i < |before| ::
         after[i].alignmentId == before[i].alignmentId && after[i].versionId == before[i].versionId
  }

  lemma {:induction false} UpsertAllKeeps(rows: seq<Row>, payload: seq<Row>)
    ensures IdsKept(rows, UpsertAll(rows, payload))
    ensures OnePerVersion(rows) ==> OnePerVersion(UpsertAll(rows, payload))
  {
    if payload != [] {
      UpsertAllKeeps(rows, payload[..|payload| - 1]);
    }
  }

  function Find(rows: seq<Row>, versionId: Uuid): Option<Row> {
    if rows == [] then None
    else if rows[0].versionId == versionId then Some(rows[0])
    else Find(rows[1..], versionId)
  }

  lemma {:induction false} FindAppended(rows: seq<Row>, row: Row, v: Uuid)
    ensures Find(rows + [row], v)
            == if Find(rows, v).Some? then Find(rows, v) else if row.versionId == v then Some(row) else None
    ensures Find(rows, v).Some? <==> Matches(rows, v)
  {
    if rows != [] {
      FindAppended(rows[1..], row, v);
      assert (rows + [row])[1..] == rows[1..] + [row];
      if Matches(rows, v) && rows[0].versionId != v {
        var i :| 0 <= i < |rows| && rows[i].versionId == v;
        assert rows[1..][i - 1].versionId == v;
      }
    }
  }

  lemma {:induction false} FindUpdated(rows: seq<Row>, row: Row, v: Uuid)
    ensures Find(UpdateWhere(rows, row), v)
            == if v == row.versionId && Find(rows, v).Some? then
                 Some(row.(alignmentId := Find(rows, v).value.alignmentId))
               else Find(rows, v)
  {
    if rows != [] {
      FindUpdated(rows[1..], row, v);
      assert UpdateWhere(rows, row)[1..] == UpdateWhere(rows[1..], row);
    }
  }

  /** The payload row that decides a version's values: the last one for it. */
  function LastFor(payload: seq<Row>, v: Uuid): Option<Row> {
    if payload == [] then None
    else if payload[|payload| - 1].versionId == v then Some(payload[|payload| - 1])
    else LastFor(payload[..|payload| - 1], v)
  }

  /** The id a version's row carries: its own, or that of the batch's first row for it. */
  function IdFor(rows: seq<Row>, payload: seq<Row>, v: Uuid): Option<Uuid> {
    match Find(rows, v)
    case Some(row) => Some(row.alignmentId)
    case None => (match Find(payload, v) case Some(row) => Some(row.alignmentId) case None => None)
  }

  /** The table after a batch, version by version, also with duplicates in the
      batch: the last record decides the values, the id is the one first inserted,
      and a version the batch does not name keeps its row. */
  lemma {:induction false} BatchEffect(rows: seq<Row>, payload: seq<Row>, v: Uuid)
    ensures Find(UpsertAll(rows, payload), v)
            == match LastFor(payload, v)
               case None => Find(rows, v)
               case Some(last) => Some(last.(alignmentId := IdFor(rows, payload, v).GetOr(last.alignmentId)))
    ensures LastFor(payload, v).Some? <==> Find(payload, v).Some?
  {
    if payload != [] {
      var n := |payload| - 1;
      var init, last := payload[..n], payload[n];
      var before := UpsertAll(rows, init);
      BatchEffect(rows, init, v);
      assert init + [last] == payload;
      FindAppended(init, last, v);
      FindAppended(before, last, v);
      FindAppended(before, last, last.versionId);
      FindUpdated(before, last, v);
    }
  }

  // ------------------------------------------------------------------ whole runs

  /** A call: the records, the ids drawn for them, and the reference tables then. */
  datatype Batch = Batch(ref: Reference, records: seq<Record>, ids: seq<Uuid>)

  predicate Usable(b: Batch) {
    |b.ids| == |b.records|
  }

  function Apply(rows: seq<Row>, b: Batch): seq<Row>
    requires Usable(b)
  {
    if exists i | 0 <= i < |b.records| :: Resolve(b.ref, b.records[i], b.ids[i]).Err? then rows
    else UpsertAll(rows, Resolved(b.ref, b.records, b.ids))
  }

  function RunBatches(rows: seq<Row>, batches: seq<Batch>): seq<Row>
    requires forall b <- batches :: Usable(b)
  {
    if batches == [] then rows else Apply(RunBatches(rows, batches[..|batches| - 1]), batches[|batches| - 1])
  }

  /** Over every run of batches, failing ones included: at most one row for a
      version, and no row ever moves, disappears, or changes its id or version. */
  lemma {:induction false} RunsKeepRows(rows: seq<Row>, batches: seq<Batch>)
    requires OnePerVersion(rows) && forall b <- batches :: Usable(b)
    ensures OnePerVersion(RunBatches(rows, batches)) && IdsKept(rows, RunBatches(rows, batches))
  {
    if batches != [] {
      var init, b := batches[..|batches| - 1], batches[|batches| - 1];
      RunsKeepRows(rows, init);
      assert b in batches;
      UpsertAllKeeps(RunBatches(rows, init), Resolved(b.ref, b.records, b.ids));
    }
  }

  /** Once a version has a row, its alignment id is the same after any further run. */
  lemma IdNeverChanges(rows: seq<Row>, batches: seq<Batch>, v: Uuid)
    requires OnePerVersion(rows) && forall b <- batches :: Usable(b)
    requires Find(rows, v).Some?
    ensures Find(RunBatches(rows, batches), v).Some?
    ensures Find(RunBatches(rows, batches), v).value.alignmentId == Find(rows, v).value.alignmentId
  {
    RunsKeepRows(rows, batches);
    var after := RunBatches(rows, batches);
    FindAppended(rows, Find(rows, v).value, v);
    var i :| 0 <= i < |rows| && rows[i].versionId == v;
    FindAt(rows, i);
    FindAt(after, i);
  }

  lemma {:induction false} FindAt(rows: seq<Row>, i: nat)
    requires i < |rows| && OnePerVersion(rows)
    ensures Find(rows, rows[i].versionId) == Some(rows[i])
  {
    if i > 0 {
      assert rows[1..][i - 1] == rows[i];
      FindAt(rows[1..], i - 1);
    }
  }
}
