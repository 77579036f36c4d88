/** The idempotency-key store: one row per key, reset by every start and completed
    by a saved result. Times are naive UTC instants. */
module Idempotency {
  import opened Wrappers

  datatype RecordState = STARTED | COMPLETED

  datatype Row = Row(requestHash: string, verb: string, path: string,
                     statusCode: Option<int>, responseBody: Option<string>, state: RecordState,
                     createdAt: real, updatedAt: real, expiresAt: real)

  type Table = map<string, Row>

  datatype Op =
    | Started(key: string, requestHash: string, verb: string, path: string, ttl: int, now: real)
    | Saved(key: string, statusCode: int, responseBody: Option<string>, now: real)
    | Looked(key: string, now: real)

  function StartedRow(op: Op): Row
    requires op.Started?
  {
    Row(op.requestHash, op.verb, op.path, None, None, STARTED, op.now, op.now, op.now + op.ttl as real)
  }

  function CompletedRow(row: Row, op: Op): Row
    requires op.Saved?
  {
    row.(statusCode := Some(op.statusCode), responseBody := op.responseBody, state := COMPLETED, updatedAt := op.now)
  }

  /** The effect of one committed call. A result is saved on a record the store
      handed out, so its row exists. */
  function Step(table: Table, op: Op): Table {
    match op
    case Started(key, _, _, _, _, _) => table[key := StartedRow(op)]
    case Saved(key, _, _, _) => if key in table then table[key := CompletedRow(table[key], op)] else table
    case Looked(_, _) => table
  }

  function GetActive(table: Table, key: string, now: real): Option<Row> {
    if key in table && table[key].expiresAt >= now then Some(table[key]) else None
  }

  // ------------------------------------------------------------------ the objects

  /** The ORM record, mutated in place. */
  class IdempotencyKey {
    const key: string
    var row: Row

    constructor (key: string, row: Row)
      ensures this.key == key && this.row == row
    {
      this.key := key;
      this.row := row;
    }
  }

  class IdempotencyRepository {
    var records: map<string, IdempotencyKey>

    ghost predicate Valid()
      reads this
    {
      forall k <- records :: records[k].key == k
    }

    ghost function Abs(): Table
      reads this, records.Values
    {
      map k | k in records :: records[k].row
    }

    constructor ()
      ensures Valid() && Abs() == map[]
    {
      records := map[];
    }

    method FindActive(key: string, now: real) returns (r: IdempotencyKey?)
      requires Valid()
      ensures r == null <==> GetActive(Abs(), key, now) == None
      ensures r != null ==> key in records && r == records[key] && GetActive(Abs(), key, now) == Some(r.row)
    {
      r := null;
      if key in records && records[key].row.expiresAt >= now {
        r := records[key];
      }
    }

    method CreateStarted(key: string, requestHash: string, verb: string, path: string, ttl: int, now: real)
      returns (record: IdempotencyKey)
      requires Valid()
      modifies this, records.Values
      ensures Valid() && key in records && record == records[key]
      ensures key in old(records) ==> records == old(records)
      ensures Abs() == Step(old(Abs()), Started(key, requestHash, verb, path, ttl, now))
    {
      if key !in records {
        record := new IdempotencyKey(key, StartedRow(Started(key, requestHash, verb, path, ttl, now)));
        records := records[key := record];
      } else {
        record := records[key];
        record.row := record.row.(requestHash := requestHash, verb := verb, path := path);
        record.row := record.row.(statusCode := None, responseBody := None, state := STARTED);
        record.row := record.row.(createdAt := now, updatedAt := now, expiresAt := now + ttl as real);
      }
    }

    method SaveResult(record: IdempotencyKey, statusCode: int, responseBody: Option<string>, now: real)
      requires Valid() && record in records.Values
      modifies record
      ensures Valid()
      ensures Abs() == Step(old(Abs()), Saved(record.key, statusCode, responseBody, now))
    {
      record.row := record.row.(statusCode := Some(statusCode), responseBody := responseBody);
      record.row := record.row.(state := COMPLETED, updatedAt := now);
    }
  }

  // ------------------------------------------------------------ the operation log

  function Run(log: seq<Op>): Table {
    if log == [] then map[] else Step(Run(log[..|log| - 1]), log[|log| - 1])
  }

  predicate Starts(op: Op, key: string) {
    op.Started? && op.key == key
  }

  predicate Saves(op: Op, key: string) {
    op.Saved? && op.key == key
  }

  /** The index of the last start of `key`, or -1. */
  function LastStart(log: seq<Op>, key: string): (i: int)
    ensures -1 <= i < |log|
    ensures i >= 0 ==> Starts(log[i], key)
    ensures forall j | i < j < |log| :: !Starts(log[j], key)
  {
    var n := |log| - 1;
    if log == [] || Starts(log[n], key) then n else LastStart(log[..n], key)
  }

  /** The index of the last result saved for `key` after entry `i`, or `i`. */
  function LastSave(log: seq<Op>, key: string, i: nat): (j: nat)
    requires i < |log|
    ensures i <= j < |log|
    ensures j > i ==> Saves(log[j], key)
    ensures forall k | j < k < |log| :: !Saves(log[k], key)
  {
    var n := |log| - 1;
    if i == n || Saves(log[n], key) then n else LastSave(log[..n], key, i)
  }

  /** The row a log leaves for a key: that of the last start, completed by the
      last result saved since. */
  function RowOf(log: seq<Op>, key: string): Option<Row> {
    var i := LastStart(log, key);
    if i < 0 then None
    else
      var j := LastSave(log, key, i);
      Some(if j == i then StartedRow(log[i]) else CompletedRow(StartedRow(log[i]), log[j]))
  }

  function Lookup(table: Table, key: string): Option<Row> {
    if key in table then Some(table[key]) else None
  }

  /** The table refines its log: at most one row for a key, and that row. */
  lemma {:induction false} TableIsLog(log: seq<Op>, key: string)
    ensures Lookup(Run(log), key) == RowOf(log, key)
  {
    if log != [] {
      var n := |log| - 1;
      var init, last := log[..n], log[n];
      TableIsLog(init, key);
      if !Starts(last, key) && LastStart(log, key) >= 0 {
        assert LastStart(log, key) == LastStart(init, key);
      }
    }
  }

  /** A key is active exactly up to and including its last start plus the time to
      live given there. */
  lemma {:induction false} ActiveWindow(log: seq<Op>, key: string, now: real)
    ensures var i := LastStart(log, key);
            GetActive(Run(log), key, now).Some? <==> i >= 0 && now <= log[i].now + log[i].ttl as real
  {
    TableIsLog(log, key);
  }

  /** Column by column: what a started key's row holds after any log. Request, verb, path,
      creation and expiry are the last start's; status, body and state the last saved
      result's since, if any. */
  lemma {:induction false} ColumnsAfter(log: seq<Op>, key: string)
    requires LastStart(log, key) >= 0
    ensures key in Run(log)
    ensures var row, i := Run(log)[key], LastStart(log, key);
            var start, j := log[i], LastSave(log, key, i);
            && row.requestHash == start.requestHash && row.verb == start.verb && row.path == start.path
            && row.createdAt == start.now && row.expiresAt == start.now + start.ttl as real
            && (if j == i then
                  && row.state == STARTED && row.statusCode == None
                  && row.responseBody == None && row.updatedAt == start.now
                else
                  && row.state == COMPLETED && row.statusCode == Some(log[j].statusCode)
                  && row.responseBody == log[j].responseBody && row.updatedAt == log[j].now)
  {
    TableIsLog(log, key);
  }

  /** Saving a result moves no key's expiry, creates no row, and leaves the other
      keys alone. */
  lemma {:induction false} SaveKeepsExpiry(log: seq<Op>, save: Op, key: string)
    requires save.Saved?
    ensures var before, after := Lookup(Run(log), key), Lookup(Run(log + [save]), key);
            && (before.Some? <==> after.Some?)
            && (before.Some? ==>
                  && after.value.expiresAt == before.value.expiresAt
                  && after.value.createdAt == before.value.createdAt)
            && (key != save.key ==> after == before)
  {
    assert (log + [save])[..|log|] == log;
  }

  /** A record in state STARTED carries no status and no body; a completed one
      carries a status. */
  lemma {:induction false} StartedIsEmpty(log: seq<Op>, key: string)
    requires key in Run(log)
    ensures var row := Run(log)[key];
            if row.state.STARTED? then row.statusCode == None && row.responseBody == None else row.statusCode.Some?
  {
    TableIsLog(log, key);
  }

  /** The last result saved since the key was started is what is returned while
      the key is active, whatever happened to other keys meanwhile. */
  lemma SavedResultIsReturned(log: seq<Op>, key: string, j: nat, now: real)
    requires j < |log| && Saves(log[j], key) && LastStart(log, key) >= 0
    requires forall k | j < k < |log| :: !Starts(log[k], key) && !Saves(log[k], key)
    requires now <= log[LastStart(log, key)].now + log[LastStart(log, key)].ttl as real
    ensures var r := GetActive(Run(log), key, now);
            && r.Some? && r.value.state == COMPLETED
            && r.value.statusCode == Some(log[j].statusCode) && r.value.responseBody == log[j].responseBody
            && r.value.requestHash == log[LastStart(log, key)].requestHash
  {
    TableIsLog(log, key);
    var i := LastStart(log, key);
    assert i <= j && LastSave(log, key, i) == j;
  }
}
