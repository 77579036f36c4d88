/** The intraday bar table and its batch upsert by (symbol, timestamp). */
module IntradayBars {
  import opened Wrappers
  import opened Upserts

  datatype BarKey = BarKey(symbolId: string, ts: int)

  datatype BarRow = BarRow(symbolId: string, ts: int, open: string, high: string, low: string, close: string,
                           volume: string, provider: string)

  type Table = map<BarKey, BarRow>

  /** ON CONFLICT sets every column that is not part of the key. */
  function Conflict(row: BarRow, sent: BarRow): BarRow {
    row.(open := sent.open, high := sent.high, low := sent.low, close := sent.close, volume := sent.volume,
         provider := sent.provider)
  }

  const BARS: Schema<BarKey, BarRow, BarRow> :=
    Schema((r: BarRow) => BarKey(r.symbolId, r.ts), (r: BarRow) => r, (row: BarRow, r: BarRow) => Conflict(row, r))

  lemma BarsOverwrite()
    ensures Overwrites(BARS)
  {
  }

  class MarketDataRepository {
    var table: Table

    constructor ()
      ensures table == map[]
    {
      table := map[];
    }

    /** `upsert_intraday_bars`: returns the number of rows given, and leaves what
        upserting them one by one, left to right, would leave. */
    method UpsertIntradayBars(rows: seq<BarRow>) returns (r: Result<nat, SqlError>)
      modifies this
      ensures r == Ok(|rows|)
      ensures table == UpsertEach(BARS, old(table), rows)
    {
      if rows == [] {
        return Ok(0);
      }
      var dedup: map<BarKey, BarRow> := map[];
      for i := 0 to |rows|
        invariant dedup == LastByKey(BARS, rows[..i])
      {
        dedup := dedup[BarKey(rows[i].symbolId, rows[i].ts) := rows[i]];
        assert rows[..i + 1][..i] == rows[..i];
      }
      assert rows[..|rows|] == rows;
      hide Execute, Lists, Keyed, UpsertBatch, Overwrites;
      LastByKeyIsKeyed(BARS, rows);
      var payload := ListRows(BARS, dedup);
      ExecuteListed(BARS, table, payload, dedup);
      BarsOverwrite();
      BatchIsEach(BARS, table, rows);
      match Execute(BARS, table, payload) {
        case Ok(updated) => table := updated;
        case Err(e) => return Err(e);
      }
      r := Ok(|rows|);
    }
  }

  /** The rows of a table carry the key they are stored under. */
  predicate KeysMatch(table: Table) {
    forall k <- table :: BarKey(table[k].symbolId, table[k].ts) == k
  }

  lemma {:induction false} KeysStayMatched(table: Table, rows: seq<BarRow>)
    requires KeysMatch(table)
    ensures KeysMatch(UpsertEach(BARS, table, rows))
  {
    if rows != [] {
      KeysStayMatched(table, rows[..|rows| - 1]);
    }
  }

  /** Sending a batch in two parts, or sending it twice, changes nothing. */
  lemma BatchesCompose(table: Table, a: seq<BarRow>, b: seq<BarRow>)
    ensures UpsertEach(BARS, UpsertEach(BARS, table, a), b) == UpsertEach(BARS, table, a + b)
    ensures UpsertEach(BARS, UpsertEach(BARS, table, a), a) == UpsertEach(BARS, table, a)
  {
    BarsOverwrite();
    SplitBatch(BARS, table, a, b);
    RepeatBatch(BARS, table, a);
  }

  /** The table after a batch, key by key: the last bar sent for a key replaces
      whatever was stored for it, and a key that was not sent keeps its row. */
  lemma {:induction false} LastBarWins(table: Table, rows: seq<BarRow>, k: BarKey)
    requires KeysMatch(table)
    ensures var i := LastIndex(BARS, rows, k);
            Lookup(UpsertEach(BARS, table, rows), k) == if i < 0 then Lookup(table, k) else Some(rows[i])
  {
    hide UpsertEach, LastIndex, Overwrites;
    BarsOverwrite();
    EachEffect(BARS, table, rows, k);
  }

  // ------------------------------------------------------------------ whole runs

  /** The table after any batches, from empty. */
  function RunBatches(batches: seq<seq<BarRow>>): Table {
    if batches == [] then map[]
    else UpsertEach(BARS, RunBatches(batches[..|batches| - 1]), batches[|batches| - 1])
  }

  lemma {:induction false} RunsKeepKeys(batches: seq<seq<BarRow>>)
    ensures KeysMatch(RunBatches(batches))
  {
    if batches != [] {
      hide KeysMatch;
      RunsKeepKeys(batches[..|batches| - 1]);
      KeysStayMatched(RunBatches(batches[..|batches| - 1]), batches[|batches| - 1]);
    }
  }

  /** All bars sent, in order. */
  function Sent(batches: seq<seq<BarRow>>): seq<BarRow> {
    if batches == [] then [] else Sent(batches[..|batches| - 1]) + batches[|batches| - 1]
  }

  /** After any run, what is stored for a key is the last bar ever sent for it,
      whatever batches the bars came in. */
  lemma {:induction false} RunHoldsLastBar(batches: seq<seq<BarRow>>, k: BarKey)
    ensures var i := LastIndex(BARS, Sent(batches), k);
            Lookup(RunBatches(batches), k) == if i < 0 then None else Some(Sent(batches)[i])
  {
    if batches != [] {
      var n := |batches| - 1;
      hide UpsertEach, KeysMatch;
      RunHoldsLastBar(batches[..n], k);
      RunsKeepKeys(batches[..n]);
      LastBarWins(RunBatches(batches[..n]), batches[n], k);
      LastOfConcat(BARS, Sent(batches[..n]), batches[n], k);
    }
  }
}
