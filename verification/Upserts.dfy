/** Batch upserts: deduplicate a batch by key, last one wins, and send it as one
    INSERT .. ON CONFLICT DO UPDATE. */
module Upserts {
  import opened Wrappers

  /** How a record becomes a new row, and how it changes the row with its key. */
  datatype Schema<!K, !V, !R> = Schema(key: V -> K, insert: V -> R, update: (R, V) -> R)

  /** An update leaves no trace of the values an earlier one set. */
  ghost predicate Overwrites<K(!new), V(!new), R(!new)>(s: Schema<K, V, R>) {
    && (forall r, v, w | s.key(v) == s.key(w) :: s.update(s.update(r, v), w) == s.update(r, w))
    && (forall v, w | s.key(v) == s.key(w) :: s.update(s.insert(v), w) == s.insert(w))
  }

  function Row<K(==), V, R>(s: Schema<K, V, R>, table: map<K, R>, k: K, v: V): R {
    if k in table then s.update(table[k], v) else s.insert(v)
  }

  function UpsertOne<K(==), V, R>(s: Schema<K, V, R>, table: map<K, R>, v: V): map<K, R> {
    table[s.key(v) := Row(s, table, s.key(v), v)]
  }

  /** One-row upserts, left to right. */
  function UpsertEach<K(==), V, R>(s: Schema<K, V, R>, table: map<K, R>, vs: seq<V>): map<K, R> {
    if vs == [] then table else UpsertOne(s, UpsertEach(s, table, vs[..|vs| - 1]), vs[|vs| - 1])
  }

  /** The dict `{key: record}` filled from a batch in order. */
  function LastByKey<K(==), V, R>(s: Schema<K, V, R>, vs: seq<V>): map<K, V> {
    if vs == [] then map[] else LastByKey(s, vs[..|vs| - 1])[s.key(vs[|vs| - 1]) := vs[|vs| - 1]]
  }

  predicate PairwiseDistinct<K(==), V, R>(s: Schema<K, V, R>, rows: seq<V>) {
    forall i, j | 0 <= i < j < |rows| :: s.key(rows[i]) != s.key(rows[j])
  }

  datatype SqlError = CardinalityViolation

  /** One statement: every row is matched against the table as it was. The
      database refuses a statement that would touch a row twice. */
  function Execute<K(==), V, R>(s: Schema<K, V, R>, table: map<K, R>, rows: seq<V>): Result<map<K, R>, SqlError> {
    if !PairwiseDistinct(s, rows) then Err(CardinalityViolation) else Ok(table + RowsSent(s, table, rows))
  }

  function RowsSent<K(==), V, R>(s: Schema<K, V, R>, table: map<K, R>, rows: seq<V>): (sent: map<K, R>)
    requires PairwiseDistinct(s, rows)
    ensures forall i | 0 <= i < |rows| ::
              s.key(rows[i]) in sent && sent[s.key(rows[i])] == Row(s, table, s.key(rows[i]), rows[i])
    ensures forall k <- sent :: exists i | 0 <= i < |rows| :: s.key(rows[i]) == k
  {
    map i | 0 <= i < |rows| :: s.key(rows[i]) := Row(s, table, s.key(rows[i]), rows[i])
  }

  /** The state a deduplicated batch leads to. */
  function UpsertBatch<K(==), V, R>(s: Schema<K, V, R>, table: map<K, R>, dedup: map<K, V>): map<K, R> {
    table + map k | k in dedup :: Row(s, table, k, dedup[k])
  }

  predicate Keyed<K(==), V, R>(s: Schema<K, V, R>, dedup: map<K, V>) {
    forall k <- dedup :: s.key(dedup[k]) == k
  }

  lemma {:induction false} LastByKeyIsKeyed<K, V, R>(s: Schema<K, V, R>, vs: seq<V>)
    ensures Keyed(s, LastByKey(s, vs))
  {
    if vs != [] { LastByKeyIsKeyed(s, vs[..|vs| - 1]); }
  }

  /** A dict listed in any order. */
  predicate Lists<K(==), V(==), R>(s: Schema<K, V, R>, rows: seq<V>, dedup: map<K, V>) {
    && PairwiseDistinct(s, rows)
    && (forall i | 0 <= i < |rows| :: s.key(rows[i]) in dedup && dedup[s.key(rows[i])] == rows[i])
    && (forall k <- dedup :: dedup[k] in rows)
  }

  /** Listing the values of a dict as the rows of a statement. */
  method ListRows<K(==), V(==), R>(s: Schema<K, V, R>, dedup: map<K, V>) returns (rows: seq<V>)
    requires Keyed(s, dedup)
    ensures Lists(s, rows, dedup)
  {
    rows := [];
    var rest := dedup.Keys;
    while rest != {}
      invariant rest <= dedup.Keys && PairwiseDistinct(s, rows)
      invariant forall i | 0 <= i < |rows| :: s.key(rows[i]) in dedup.Keys - rest && dedup[s.key(rows[i])] == rows[i]
      invariant forall k | k in dedup.Keys - rest :: dedup[k] in rows
      decreases |rest|
    {
      var k :| k in rest;
      rows := rows + [dedup[k]];
      rest := rest - {k};
    }
  }

  /** The statement built from a dict is accepted and has the batch's effect,
      whatever order its rows are in. */
  lemma ExecuteListed<K(!new), V(!new), R(!new)>(s: Schema<K, V, R>, table: map<K, R>, rows: seq<V>, dedup: map<K, V>)
    requires Keyed(s, dedup) && Lists(s, rows, dedup)
    ensures Execute(s, table, rows) == Ok(UpsertBatch(s, table, dedup))
  {
    hide RowsSent, Row;
    var sent := RowsSent(s, table, rows);
    forall k <- dedup
      ensures k in sent && sent[k] == Row(s, table, k, dedup[k])
    {
      var i :| 0 <= i < |rows| && rows[i] == dedup[k];
    }
    forall k <- sent
      ensures k in dedup
    {
      var i :| 0 <= i < |rows| && s.key(rows[i]) == k;
    }
    assert sent == map k | k in dedup :: Row(s, table, k, dedup[k]);
  }

  lemma ListedAreDistinct<K, V, R>(s: Schema<K, V, R>, rows: seq<V>, dedup: map<K, V>)
    requires Lists(s, rows, dedup)
    ensures PairwiseDistinct(s, rows)
  {
  }

  /** Two statements whose rows have the same keys and do the same to the table. */
  ghost predicate Alike<K(!new), V, W, R(!new)>(s: Schema<K, V, R>, t: Schema<K, W, R>, rows: seq<V>, rows': seq<W>) {
    && |rows| == |rows'|
    && (forall i | 0 <= i < |rows| :: s.key(rows[i]) == t.key(rows'[i]) && s.insert(rows[i]) == t.insert(rows'[i]))
    && (forall i, r | 0 <= i < |rows| :: s.update(r, rows[i]) == t.update(r, rows'[i]))
  }

  lemma AlikeRow<K(!new), V, W, R(!new)>(s: Schema<K, V, R>, t: Schema<K, W, R>, table: map<K, R>, rows: seq<V>,
                                         rows': seq<W>, i: nat)
    requires Alike(s, t, rows, rows') && i < |rows|
    ensures s.key(rows[i]) == t.key(rows'[i])
    ensures Row(s, table, s.key(rows[i]), rows[i]) == Row(t, table, t.key(rows'[i]), rows'[i])
  {
  }

  lemma ExecuteAlike<K(!new), V, W, R(!new)>(s: Schema<K, V, R>, t: Schema<K, W, R>, table: map<K, R>, rows: seq<V>,
                                             rows': seq<W>)
    requires Alike(s, t, rows, rows') && PairwiseDistinct(s, rows)
    ensures PairwiseDistinct(t, rows') && Execute(s, table, rows) == Execute(t, table, rows')
  {
    SentAlike(s, t, table, rows, rows');
  }

  lemma AlikeDistinct<K(!new), V, W, R(!new)>(s: Schema<K, V, R>, t: Schema<K, W, R>, rows: seq<V>, rows': seq<W>)
    requires Alike(s, t, rows, rows') && PairwiseDistinct(s, rows)
    ensures PairwiseDistinct(t, rows') && |rows| == |rows'|
  {
  }

  lemma SentAlike<K(!new), V, W, R(!new)>(s: Schema<K, V, R>, t: Schema<K, W, R>, table: map<K, R>, rows: seq<V>,
                                          rows': seq<W>)
    requires Alike(s, t, rows, rows') && PairwiseDistinct(s, rows)
    ensures PairwiseDistinct(t, rows') && RowsSent(s, table, rows) == RowsSent(t, table, rows')
  {
    AlikeDistinct(s, t, rows, rows');
    hide Row, Alike, RowsSent, PairwiseDistinct;
    forall i | 0 <= i < |rows|
      ensures s.key(rows[i]) == t.key(rows'[i])
      ensures Row(s, table, s.key(rows[i]), rows[i]) == Row(t, table, t.key(rows'[i]), rows'[i])
    {
      AlikeRow(s, t, table, rows, rows', i);
    }
    var sent, sent' := RowsSent(s, table, rows), RowsSent(t, table, rows');
    forall k <- sent
      ensures k in sent' && sent'[k] == sent[k]
    {
      var i :| 0 <= i < |rows| && s.key(rows[i]) == k;
    }
    forall k <- sent'
      ensures k in sent
    {
      var i :| 0 <= i < |rows'| && t.key(rows'[i]) == k;
    }
  }

  predicate KeyIn<K(==), V, R>(s: Schema<K, V, R>, vs: seq<V>, k: K) {
    exists j | 0 <= j < |vs| :: s.key(vs[j]) == k
  }

  /** The keys of the dict are those of the batch. */
  lemma {:induction false} KeysOfBatch<K, V, R>(s: Schema<K, V, R>, vs: seq<V>, k: K)
    ensures k in LastByKey(s, vs) <==> KeyIn(s, vs, k)
  {
    if vs != [] {
      var init := vs[..|vs| - 1];
      KeysOfBatch(s, init, k);
      if j :| 0 <= j < |vs| && s.key(vs[j]) == k {
        assert j < |init| ==> init[j] == vs[j];
      }
    }
  }

  lemma KeysListed<K, V, R>(s: Schema<K, V, R>, rows: seq<V>, dedup: map<K, V>, k: K)
    requires Keyed(s, dedup) && Lists(s, rows, dedup)
    ensures KeyIn(s, rows, k) <==> k in dedup
  {
    if k in dedup {
      var i :| 0 <= i < |rows| && rows[i] == dedup[k];
    }
  }

  lemma KeysAlike<K(!new), V, W, R(!new)>(s: Schema<K, V, R>, t: Schema<K, W, R>, rows: seq<V>, rows': seq<W>, k: K)
    requires Alike(s, t, rows, rows')
    ensures KeyIn(s, rows, k) <==> KeyIn(t, rows', k)
  {
  }

  /** The rows sent carry the keys of the batch. */
  lemma SentKeys<K(!new), V, W, R(!new)>(s: Schema<K, V, R>, t: Schema<K, W, R>, vs: seq<V>, rows: seq<V>,
                                         rows': seq<W>, k: K)
    requires Lists(s, rows, LastByKey(s, vs)) && Alike(s, t, rows, rows')
    ensures KeyIn(t, rows', k) <==> KeyIn(s, vs, k)
  {
    hide Lists, Alike, KeyIn, LastByKey;
    LastByKeyIsKeyed(s, vs);
    KeysOfBatch(s, vs, k);
    KeysListed(s, rows, LastByKey(s, vs), k);
    KeysAlike(s, t, rows, rows', k);
  }

  lemma BatchStep<K(!new), V(!new), R(!new)>(s: Schema<K, V, R>, table: map<K, R>, dedup: map<K, V>, v: V)
    requires Overwrites(s) && Keyed(s, dedup)
    ensures UpsertBatch(s, table, dedup[s.key(v) := v]) == UpsertOne(s, UpsertBatch(s, table, dedup), v)
  {
    var k := s.key(v);
    if k in dedup {
      assert s.key(dedup[k]) == s.key(v);
      assert Row(s, UpsertBatch(s, table, dedup), k, v) == Row(s, table, k, v);
    }
  }

  /** A deduplicated batch does what one-row upserts in order would do. */
  lemma {:induction false} BatchIsEach<K(!new), V(!new), R(!new)>(s: Schema<K, V, R>, table: map<K, R>, vs: seq<V>)
    requires Overwrites(s)
    ensures UpsertBatch(s, table, LastByKey(s, vs)) == UpsertEach(s, table, vs)
  {
    if vs == [] {
      assert UpsertBatch(s, table, map[]) == table;
    } else {
      var init := vs[..|vs| - 1];
      BatchIsEach(s, table, init);
      LastByKeyIsKeyed(s, init);
      BatchStep(s, table, LastByKey(s, init), vs[|vs| - 1]);
    }
  }

  /** Splitting a batch leaves the same table. */
  lemma {:induction false} SplitBatch<K, V, R>(s: Schema<K, V, R>, table: map<K, R>, a: seq<V>, b: seq<V>)
    ensures UpsertEach(s, table, a + b) == UpsertEach(s, UpsertEach(s, table, a), b)
  {
    if b == [] {
      assert a + b == a;
    } else {
      SplitBatch(s, table, a, b[..|b| - 1]);
      assert (a + b)[..|a + b| - 1] == a + b[..|b| - 1];
    }
  }

  /** Repeating a batch leaves the same table. */
  lemma RepeatBatch<K(!new), V(!new), R(!new)>(s: Schema<K, V, R>, table: map<K, R>, vs: seq<V>)
    requires Overwrites(s)
    ensures UpsertEach(s, UpsertEach(s, table, vs), vs) == UpsertEach(s, table, vs)
  {
    var dedup := LastByKey(s, vs);
    var once := UpsertBatch(s, table, dedup);
    LastByKeyIsKeyed(s, vs);
    BatchIsEach(s, table, vs);
    BatchIsEach(s, once, vs);
    forall k <- dedup
      ensures Row(s, once, k, dedup[k]) == once[k]
    {
      assert s.key(dedup[k]) == s.key(dedup[k]);
    }
    assert UpsertBatch(s, once, dedup) == once;
  }

  /** The dict holds the last record of every key. */
  lemma {:induction false} LastOfKey<K, V, R>(s: Schema<K, V, R>, vs: seq<V>, i: nat)
    requires i < |vs|
    requires forall j | i < j < |vs| :: s.key(vs[j]) != s.key(vs[i])
    ensures s.key(vs[i]) in LastByKey(s, vs) && LastByKey(s, vs)[s.key(vs[i])] == vs[i]
  {
    var n := |vs| - 1;
    if i < n {
      assert s.key(vs[n]) != s.key(vs[i]) && vs[..n][i] == vs[i];
      LastOfKey(s, vs[..n], i);
    }
  }

  /** Keys outside the batch keep their rows. */
  lemma {:induction false} OtherKeysKept<K, V, R>(s: Schema<K, V, R>, table: map<K, R>, vs: seq<V>, k: K)
    requires forall v <- vs :: s.key(v) != k
    ensures k in UpsertEach(s, table, vs) <==> k in table
    ensures k in table ==> UpsertEach(s, table, vs)[k] == table[k]
  {
    if vs != [] {
      assert vs[|vs| - 1] in vs;
      OtherKeysKept(s, table, vs[..|vs| - 1], k);
    }
  }

  /** The index of the last `k`, or -1. */
  function LastAt<K(==)>(ks: seq<K>, k: K): (i: int)
    ensures -1 <= i < |ks|
    ensures i >= 0 ==> ks[i] == k
    ensures forall j | i < j < |ks| :: ks[j] != k
  {
    var n := |ks| - 1;
    if ks == [] || ks[n] == k then n else LastAt(ks[..n], k)
  }

  function Keys<K, V, R>(s: Schema<K, V, R>, vs: seq<V>): (ks: seq<K>)
    ensures |ks| == |vs| && forall i | 0 <= i < |vs| :: ks[i] == s.key(vs[i])
  {
    seq(|vs|, i requires 0 <= i < |vs| => s.key(vs[i]))
  }

  /** The index of the last record of key `k`, or -1. */
  function LastIndex<K(==), V, R>(s: Schema<K, V, R>, vs: seq<V>, k: K): (i: int)
    ensures -1 <= i < |vs|
    ensures i >= 0 ==> s.key(vs[i]) == k
    ensures forall j | i < j < |vs| :: s.key(vs[j]) != k
  {
    LastAt(Keys(s, vs), k)
  }

  lemma LastOfConcat<K, V, R>(s: Schema<K, V, R>, a: seq<V>, b: seq<V>, k: K)
    ensures var j := LastIndex(s, b, k);
            LastIndex(s, a + b, k) == if j >= 0 then |a| + j else LastIndex(s, a, k)
  {
    hide LastIndex;
    var i, j, l := LastIndex(s, a, k), LastIndex(s, b, k), LastIndex(s, a + b, k);
    forall n | 0 <= n < |a + b|
      ensures (a + b)[n] == if n < |a| then a[n] else b[n - |a|]
    {
    }
    var expected := if j >= 0 then |a| + j else i;
    assert expected >= 0 ==> s.key((a + b)[expected]) == k;
  }

  function Lookup<K(==), R>(table: map<K, R>, k: K): Option<R> {
    if k in table then Some(table[k]) else None
  }

  /** The effect of a batch on any one key: the last record of the key is applied to
      the row there was, and a key the batch does not name keeps its row. */
  lemma EachEffect<K(!new), V(!new), R(!new)>(s: Schema<K, V, R>, table: map<K, R>, vs: seq<V>, k: K)
    requires Overwrites(s)
    ensures var i := LastIndex(s, vs, k);
            Lookup(UpsertEach(s, table, vs), k) == if i < 0 then Lookup(table, k) else Some(Row(s, table, k, vs[i]))
  {
    hide Overwrites, UpsertEach, LastByKey, LastIndex;
    var i := LastIndex(s, vs, k);
    if i < 0 {
      forall v | v in vs
        ensures s.key(v) != k
      {
        var j :| 0 <= j < |vs| && vs[j] == v;
      }
      OtherKeysKept(s, table, vs, k);
    } else {
      BatchIsEach(s, table, vs);
      LastOfKey(s, vs, i);
    }
  }
}
