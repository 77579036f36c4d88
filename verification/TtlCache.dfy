/** The in-memory TTL cache: entries past their expiry are dropped only when a
    reader meets them. Times are readings of the event loop's clock. */
module TtlCache {
  import opened Wrappers

  datatype Entry<V> = Entry(expiresAt: real, value: V)
  type Store<V> = map<string, Entry<V>>

  function Expiry(ttl: int, now: real): real {
    if ttl <= 0 then now else now + ttl as real
  }

  /** A lookup at time `now`: the store it leaves, and its answer. */
  function GetStep<V>(store: Store<V>, key: string, now: real): (Store<V>, Option<V>) {
    if key !in store then (store, None)
    else if store[key].expiresAt <= now then (store - {key}, None)
    else (store, Some(store[key].value))
  }

  function SetStep<V>(store: Store<V>, key: string, value: V, ttl: int, now: real): Store<V> {
    store[key := Entry(Expiry(ttl, now), value)]
  }

  class InMemoryAsyncCache<V> {
    var store: Store<V>

    constructor ()
      ensures store == map[]
    {
      store := map[];
    }

    method GetJson(key: string, now: real) returns (r: Option<V>)
      modifies this
      ensures (store, r) == GetStep(old(store), key, now)
    {
      if key !in store {
        return None;
      }
      var entry := store[key];
      if entry.expiresAt <= now {
        store := store - {key};
        return None;
      }
      r := Some(entry.value);
    }

    /** `now` was read before the lock was taken, so a reader may already have
        seen a later time when the entry is stored. */
    method SetJson(key: string, value: V, ttl: int, now: real)
      modifies this
      ensures store == SetStep(old(store), key, value, ttl, now)
    {
      var expiresAt := if ttl <= 0 then now else now + ttl as real;
      store := store[key := Entry(expiresAt, value)];
    }
  }

  /** After a lookup its key is held exactly when it was answered: an expired entry is
      dropped. No other entry is touched. */
  lemma LookupDropsExpired<V>(store: Store<V>, key: string, now: real)
    ensures var (after, answer) := GetStep(store, key, now);
            && (key in after <==> answer.Some?) && after - {key} == store - {key}
            && (answer.Some? <==> key in store && now < store[key].expiresAt)
            && (answer.Some? ==> answer.value == store[key].value && after == store)
  {
  }

  // ------------------------------------------------------------------ whole runs

  datatype Op<V> =
    | Get(key: string, now: real)
    | Set(key: string, value: V, ttl: int, now: real)

  /** The store after a run that starts empty. */
  function Run<V>(ops: seq<Op<V>>): Store<V> {
    if ops == [] then map[]
    else
      var store := Run(ops[..|ops| - 1]);
      match ops[|ops| - 1]
      case Get(key, now) => GetStep(store, key, now).0
      case Set(key, value, ttl, now) => SetStep(store, key, value, ttl, now)
  }

  /** The last value set for `key`, with its expiry. */
  function LastSet<V>(ops: seq<Op<V>>, key: string): Option<Entry<V>> {
    if ops == [] then None
    else
      match ops[|ops| - 1]
      case Set(k, value, ttl, now) =>
        if k == key then Some(Entry(Expiry(ttl, now), value)) else LastSet(ops[..|ops| - 1], key)
      case Get(_, _) => LastSet(ops[..|ops| - 1], key)
  }

  /** What a cache that never dropped anything early or late would answer. */
  function Answer<V>(ops: seq<Op<V>>, key: string, now: real): Option<V> {
    match LastSet(ops, key)
    case Some(e) => if e.expiresAt > now then Some(e.value) else None
    case None => None
  }

  predicate IsLastSet<V>(ops: seq<Op<V>>, key: string, i: int) {
    && 0 <= i < |ops| && ops[i].Set? && ops[i].key == key
    && forall j | i < j < |ops| :: !(ops[j].Set? && ops[j].key == key)
  }

  lemma {:induction false} LastSetIsLast<V>(ops: seq<Op<V>>, key: string, i: nat)
    requires IsLastSet(ops, key, i)
    ensures LastSet(ops, key) == Some(Entry(Expiry(ops[i].ttl, ops[i].now), ops[i].value))
  {
    if i < |ops| - 1 {
      assert IsLastSet(ops[..|ops| - 1], key, i);
      LastSetIsLast(ops[..|ops| - 1], key, i);
    }
  }

  /** Every lookup so far happened at or before `now`. */
  predicate LookedUpBy<V>(ops: seq<Op<V>>, now: real) {
    forall i | 0 <= i < |ops| && ops[i].Get? :: ops[i].now <= now
  }

  /** An entry that is no longer held had expired at the time of some lookup. */
  ghost predicate Held<V>(ops: seq<Op<V>>, key: string) {
    var store, last := Run(ops), LastSet(ops, key);
    if key in store then last == Some(store[key])
    else last.None? || exists i | 0 <= i < |ops| && ops[i].Get? :: last.value.expiresAt <= ops[i].now
  }

  lemma {:induction false} AlwaysHeld<V>(ops: seq<Op<V>>, key: string)
    ensures Held(ops, key)
  {
    if ops != [] {
      var n := |ops| - 1;
      var init := ops[..n];
      AlwaysHeld(init, key);
      if ops[n].Get? && ops[n].key == key && key in Run(init) && key !in Run(ops) {
        assert LastSet(ops, key).value.expiresAt <= ops[n].now;
      } else if key !in Run(ops) && LastSet(ops, key).Some? {
        var i :| 0 <= i < |init| && init[i].Get? && LastSet(ops, key).value.expiresAt <= init[i].now;
        assert ops[i] == init[i];
      }
    }
  }

  /** At any point of any run, a lookup on a clock that does not go back answers the
      value last set for its key when that entry's expiry lies strictly ahead, and
      otherwise nothing; a key that was never set has no answer. */
  lemma {:induction false} AnswersFromHistory<V>(ops: seq<Op<V>>, key: string, now: real)
    requires LookedUpBy(ops, now)
    ensures GetStep(Run(ops), key, now).1 == Answer(ops, key, now)
    ensures forall i: nat | IsLastSet(ops, key, i) ::
              Answer(ops, key, now) == if Expiry(ops[i].ttl, ops[i].now) > now then Some(ops[i].value) else None
    ensures (forall i | 0 <= i < |ops| :: !(ops[i].Set? && ops[i].key == key)) ==> Answer(ops, key, now) == None
  {
    AlwaysHeld(ops, key);
    forall i: nat | IsLastSet(ops, key, i)
      ensures LastSet(ops, key) == Some(Entry(Expiry(ops[i].ttl, ops[i].now), ops[i].value))
    {
      LastSetIsLast(ops, key, i);
    }
    if forall i | 0 <= i < |ops| :: !(ops[i].Set? && ops[i].key == key) {
      NeverSet(ops, key);
    }
  }

  lemma {:induction false} NeverSet<V>(ops: seq<Op<V>>, key: string)
    requires forall i | 0 <= i < |ops| :: !(ops[i].Set? && ops[i].key == key)
    ensures LastSet(ops, key) == None
  {
    if ops != [] {
      NeverSet(ops[..|ops| - 1], key);
    }
  }

  function Sets<V>(ops: seq<Op<V>>): seq<Op<V>> {
    if ops == [] then []
    else Sets(ops[..|ops| - 1]) + if ops[|ops| - 1].Set? then [ops[|ops| - 1]] else []
  }

  lemma {:induction false} OnlySetsMatter<V>(ops: seq<Op<V>>, key: string)
    ensures LastSet(ops, key) == LastSet(Sets(ops), key)
  {
    if ops != [] {
      var n := |ops| - 1;
      OnlySetsMatter(ops[..n], key);
      if ops[n].Set? {
        assert Sets(ops)[..|Sets(ops)| - 1] == Sets(ops[..n]);
      } else {
        assert Sets(ops) == Sets(ops[..n]);
      }
    }
  }

  /** Evictions are invisible: runs with the same writes, whatever was looked up
      in between, give the same answer. */
  lemma EvictionIsInvisible<V>(ops: seq<Op<V>>, ops': seq<Op<V>>, key: string, now: real)
    requires Sets(ops) == Sets(ops') && LookedUpBy(ops, now) && LookedUpBy(ops', now)
    ensures GetStep(Run(ops), key, now).1 == GetStep(Run(ops'), key, now).1
  {
    AnswersFromHistory(ops, key, now);
    AnswersFromHistory(ops', key, now);
    OnlySetsMatter(ops, key);
    OnlySetsMatter(ops', key);
  }

  /** The value set last is answered exactly before its expiry; with a time to
      live of zero or less that is never. */
  lemma {:induction false} SeenExactlyUntilExpiry<V>(ops: seq<Op<V>>, key: string, value: V, ttl: int, storedAt: real,
                                                     now: real)
    requires LookedUpBy(ops, now) && storedAt <= now
    ensures var after := ops + [Set(key, value, ttl, storedAt)];
            && (GetStep(Run(after), key, now).1 == Some(value) <==> ttl > 0 && now < storedAt + ttl as real)
            && (GetStep(Run(after), key, now).1 == None <==> ttl <= 0 || storedAt + ttl as real <= now)
  {
    var after := ops + [Set(key, value, ttl, storedAt)];
    assert after[..|ops|] == ops;
    forall i | 0 <= i < |after| && after[i].Get?
      ensures after[i].now <= now
    {
      assert after[i] == ops[i];
    }
    AnswersFromHistory(after, key, now);
  }
}
