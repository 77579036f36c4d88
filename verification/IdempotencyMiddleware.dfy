/** The middleware's use of the store. A request is served in three repository
    calls, and between any two of them other requests may be served: it checks its
    key; if nothing is active it begins, which starts the key anew, and its handler
    runs; when the handler is done it finishes, which saves the result. */
module IdempotencyMiddleware {
  import opened Wrappers
  import opened Idempotency

  /** `now` is read once, before the check; the start uses the same instant. */
  datatype Request = Request(key: string, hash: string, verb: string, path: string, now: real)

  datatype Reply =
    | Proceed
    | Replay(statusCode: int, responseBody: Option<string>)
    | KeyConflict
    | InProgress

  function ReplyTo(table: Table, rq: Request): Reply {
    match GetActive(table, rq.key, rq.now)
    case None => Proceed
    case Some(row) =>
      if row.requestHash != rq.hash then KeyConflict
      else if row.state.COMPLETED? && row.statusCode.Some? then Replay(row.statusCode.value, row.responseBody)
      else InProgress
  }

  /** `check` and `begin` are the indices of the calls a later one belongs to. */
  datatype Event =
    | Check(rq: Request)
    | Begin(check: nat, rq: Request)
    | Finish(begin: nat, rq: Request, statusCode: int, responseBody: Option<string>, now: real)

  /** The repository call an event makes. */
  function CallOf(e: Event, ttl: int): Op {
    match e
    case Check(rq) => Looked(rq.key, rq.now)
    case Begin(_, rq) => Started(rq.key, rq.hash, rq.verb, rq.path, ttl, rq.now)
    case Finish(_, rq, statusCode, responseBody, now) => Saved(rq.key, statusCode, responseBody, now)
  }

  function After(table: Table, e: Event, ttl: int): Table {
    Step(table, CallOf(e, ttl))
  }

  // ------------------------------------------------------------------ the calls

  /** The lookup and what follows from it; the table is not touched. */
  method CheckRequest(repo: IdempotencyRepository, rq: Request) returns (reply: Reply)
    requires repo.Valid()
    ensures reply == ReplyTo(repo.Abs(), rq)
  {
    var existing := repo.FindActive(rq.key, rq.now);
    if existing == null {
      return Proceed;
    }
    if existing.row.requestHash != rq.hash {
      return KeyConflict;
    }
    if existing.row.state.COMPLETED? && existing.row.statusCode.Some? {
      return Replay(existing.row.statusCode.value, existing.row.responseBody);
    }
    reply := InProgress;
  }

  /** The start of a request whose check found nothing. */
  method BeginRequest(repo: IdempotencyRepository, rq: Request, ttl: int, ghost check: nat)
    returns (record: IdempotencyKey)
    requires repo.Valid()
    modifies repo, repo.records.Values
    ensures repo.Valid() && record in repo.records.Values && record.key == rq.key
    ensures repo.Abs() == After(old(repo.Abs()), Begin(check, rq), ttl)
  {
    record := repo.CreateStarted(rq.key, rq.hash, rq.verb, rq.path, ttl, rq.now);
    assert record == repo.records[rq.key];
  }

  /** A response's content, as decoding it and reading it as JSON finds it; `asDict`
      is what `dict` makes of a value that is no object, if it does not raise. */
  datatype Content =
    | Empty
    | Undecodable
    | NotJson
    | JsonNull
    | JsonObject(text: string)
    | JsonOther(asDict: Option<string>)

  /** The body that is stored, or None when storing it raises. */
  function Stored(content: Content): Option<Option<string>> {
    match content
    case Empty | NotJson | JsonNull => Some(None)
    case JsonObject(text) => Some(Some(text))
    case JsonOther(Some(text)) => Some(Some(text))
    case JsonOther(None) | Undecodable => None
  }

  /** What follows the handler: the result is saved and the response sent, unless its
      content cannot be stored. */
  method FinishRequest(repo: IdempotencyRepository, record: IdempotencyKey, statusCode: int, content: Content,
                       now: real, ghost begin: nat, ghost rq: Request, ghost ttl: int)
    returns (sent: bool)
    requires repo.Valid() && record in repo.records.Values && record.key == rq.key
    modifies record
    ensures repo.Valid()
    ensures sent <==> Stored(content).Some?
    ensures repo.Abs()
            == if sent then After(old(repo.Abs()), Finish(begin, rq, statusCode, Stored(content).value, now), ttl)
               else old(repo.Abs())
    ensures !sent <==> content.Undecodable? || content == JsonOther(None)
  {
    var responseBody: Option<string> := None;
    match content {
      case Undecodable => return false;
      case Empty | NotJson | JsonNull =>
      case JsonObject(text) => responseBody := Some(text);
      case JsonOther(asDict) =>
        if asDict.None? {
          return false;
        }
        responseBody := asDict;
    }
    repo.SaveResult(record, statusCode, responseBody, now);
    sent := true;
  }

  // ------------------------------------------------------------------ whole runs

  /** The log of repository calls of a run. */
  function Log(es: seq<Event>, ttl: int): (log: seq<Op>)
    ensures |log| == |es| && forall i | 0 <= i < |es| :: log[i] == CallOf(es[i], ttl)
  {
    seq(|es|, i requires 0 <= i < |es| => CallOf(es[i], ttl))
  }

  /** The table after a run of any length that starts empty. */
  function RunEvents(es: seq<Event>, ttl: int): Table {
    Run(Log(es, ttl))
  }

  function ReplyAt(es: seq<Event>, ttl: int, c: nat): Reply
    requires c < |es| && es[c].Check?
  {
    ReplyTo(RunEvents(es[..c], ttl), es[c].rq)
  }

  predicate Starts(e: Event, key: string) {
    e.Begin? && e.rq.key == key
  }

  predicate Finishes(e: Event, key: string) {
    e.Finish? && e.rq.key == key
  }

  /** A start follows its own check, which found nothing. */
  predicate OwnCheck(es: seq<Event>, ttl: int, b: nat)
    requires b < |es|
  {
    es[b].Begin? ==>
      es[b].check < b && es[es[b].check] == Check(es[b].rq) && ReplyAt(es, ttl, es[b].check) == Proceed
  }

  /** A finish follows its own start. */
  predicate OwnStart(es: seq<Event>, m: nat)
    requires m < |es|
  {
    es[m].Finish? ==> es[m].begin < m && es[es[m].begin].Begin? && es[es[m].begin].rq == es[m].rq
  }

  /** Each check is followed by one start at most, and each start by one finish. Nothing
      else is said about the order of the events. */
  predicate Genuine(es: seq<Event>, ttl: int) {
    && (forall b: nat | b < |es| :: OwnCheck(es, ttl, b))
    && (forall a, b | 0 <= a < b < |es| && es[a].Begin? && es[b].Begin? :: es[a].check != es[b].check)
    && (forall m: nat | m < |es| :: OwnStart(es, m))
    && (forall l, m | 0 <= l < m < |es| && es[l].Finish? && es[m].Finish? :: es[l].begin != es[m].begin)
  }

  /** The index of the last start of `key`, or -1. */
  function LastBegin(es: seq<Event>, ttl: int, key: string): (i: int)
    ensures -1 <= i < |es|
    ensures i >= 0 ==> Starts(es[i], key)
    ensures forall j | i < j < |es| :: !Starts(es[j], key)
  {
    var log := Log(es, ttl);
    assert forall j | 0 <= j < |es| :: Idempotency.Starts(log[j], key) <==> Starts(es[j], key);
    LastStart(log, key)
  }

  /** The index of the last finish for `key` after entry `i`, or `i`. */
  function LastFinish(es: seq<Event>, ttl: int, key: string, i: nat): (m: nat)
    requires i < |es|
    ensures i <= m < |es|
    ensures m > i ==> Finishes(es[m], key)
    ensures forall k | m < k < |es| :: !Finishes(es[k], key)
  {
    var log := Log(es, ttl);
    assert forall j | 0 <= j < |es| :: Saves(log[j], key) <==> Finishes(es[j], key);
    LastSave(log, key, i)
  }

  /** What any check answers, in any run: it is decided by the last start of its key
      and the last finish since. A replayed response is thus always one that some
      handler produced after a request with the same hash was last started. */
  lemma WhatACheckAnswers(es: seq<Event>, ttl: int, c: nat)
    requires c < |es| && es[c].Check?
    ensures var rq, before := es[c].rq, es[..c];
            var i := LastBegin(before, ttl, rq.key);
            ReplyAt(es, ttl, c)
            == if i < 0 || es[i].rq.now + ttl as real < rq.now then Proceed
               else if es[i].rq.hash != rq.hash then KeyConflict
               else
                 var m := LastFinish(before, ttl, rq.key, i);
                 if m == i then InProgress else Replay(es[m].statusCode, es[m].responseBody)
  {
    TableIsLog(Log(es[..c], ttl), es[c].rq.key);
    hide Run, LastStart, LastSave;
  }

  /** What the row of a key holds after any run: the last start's request, under the
      instant read before its check. */
  lemma RowAfter(es: seq<Event>, ttl: int, key: string)
    requires LastBegin(es, ttl, key) >= 0
    ensures key in RunEvents(es, ttl)
    ensures var row, rq := RunEvents(es, ttl)[key], es[LastBegin(es, ttl, key)].rq;
            && row.requestHash == rq.hash && row.verb == rq.verb && row.path == rq.path
            && row.createdAt == rq.now && row.expiresAt == rq.now + ttl as real
  {
    ColumnsAfter(Log(es, ttl), key);
    hide Run, LastStart, LastSave;
  }

  // ------------------------------------------------------ how often a handler runs

  /** The later start falls into the window the earlier one opened. */
  predicate InWindow(es: seq<Event>, ttl: int, a: nat, b: nat)
    requires a < |es| && b < |es| && es[a].Begin? && es[b].Begin?
  {
    es[b].rq.now <= es[a].rq.now + ttl as real
  }

  /** The later start's check came before the earlier start: both passed together. */
  predicate Races(es: seq<Event>, a: nat, b: nat)
    requires a < |es| && b < |es| && es[a].Begin? && es[b].Begin?
  {
    es[b].check < a
  }

  /** No two handlers run for a key within one window. */
  predicate OncePerWindow(es: seq<Event>, ttl: int, key: string) {
    forall a: nat, b: nat | a < b < |es| && Starts(es[a], key) && Starts(es[b], key) :: !InWindow(es, ttl, a, b)
  }

  predicate NoRace(es: seq<Event>, key: string) {
    forall a: nat, b: nat | a < b < |es| && Starts(es[a], key) && Starts(es[b], key) :: !Races(es, a, b)
  }

  /** No two starts that race lie within a window. */
  predicate RacersApart(es: seq<Event>, ttl: int, key: string) {
    forall a: nat, b: nat | a < b < |es| && Starts(es[a], key) && Starts(es[b], key) && Races(es, a, b) ::
      !InWindow(es, ttl, a, b)
  }

  /** A start whose check came after an earlier start found that one's row, or the
      row of a start in between, expired. */
  lemma CheckedAgainst(es: seq<Event>, ttl: int, a: nat, b: nat) returns (l: nat)
    requires Genuine(es, ttl) && a < b < |es| && Starts(es[b], es[b].rq.key) && Starts(es[a], es[b].rq.key)
    requires !Races(es, a, b)
    ensures a <= l < es[b].check < b && Starts(es[l], es[b].rq.key) && !InWindow(es, ttl, l, b)
  {
    hide ReplyAt, RunEvents, LastBegin, LastFinish;
    var c := es[b].check;
    BeginFollowsCheck(es, ttl, b);
    BeginProceeded(es, ttl, b);
    hide Genuine;
    WhatACheckAnswers(es, ttl, c);
    var before := es[..c];
    assert a < c && Starts(before[a], es[b].rq.key);
    l := LastBegin(before, ttl, es[b].rq.key);
    assert es[l] == before[l];
  }

  lemma {:induction false} Separated(es: seq<Event>, ttl: int, key: string, a: nat, b: nat)
    requires Genuine(es, ttl) && ttl >= 0 && RacersApart(es, ttl, key)
    requires a < b < |es| && Starts(es[a], key) && Starts(es[b], key)
    ensures !InWindow(es, ttl, a, b)
    decreases b
  {
    hide Genuine;
    if !Races(es, a, b) {
      var l := CheckedAgainst(es, ttl, a, b);
      assert l < b by { BeginFollowsCheck(es, ttl, b); }
      if a < l {
        Separated(es, ttl, key, a, l);
      }
    }
  }

  lemma BeginProceeded(es: seq<Event>, ttl: int, b: nat)
    requires Genuine(es, ttl) && b < |es| && es[b].Begin?
    ensures es[b].check < b && es[es[b].check].Check? && ReplyAt(es, ttl, es[b].check) == Proceed
  {
    hide ReplyAt;
    assert OwnCheck(es, ttl, b);
  }

  lemma BeginFollowsCheck(es: seq<Event>, ttl: int, b: nat)
    requires Genuine(es, ttl) && b < |es| && es[b].Begin?
    ensures es[b].check < b && es[es[b].check] == Check(es[b].rq)
  {
    hide ReplyAt;
    assert OwnCheck(es, ttl, b);
  }

  /** Exactly when a handler can run twice in a window: only when two requests that
      race, both passing the check before either started, are themselves that close. */
  lemma TwiceOnlyByARace(es: seq<Event>, ttl: int, key: string)
    requires Genuine(es, ttl) && ttl >= 0
    ensures OncePerWindow(es, ttl, key) <==> RacersApart(es, ttl, key)
  {
    hide Genuine;
    if RacersApart(es, ttl, key) {
      forall a: nat, b: nat | a < b < |es| && Starts(es[a], key) && Starts(es[b], key)
        ensures !InWindow(es, ttl, a, b)
      {
        Separated(es, ttl, key, a, b);
      }
    }
  }

  /** Until a request starts, no check reads a time past the window it will open. */
  predicate StartsPromptly(es: seq<Event>, ttl: int) {
    forall c, b | 0 <= c < b < |es| && es[c].Check? && es[b].Begin? :: es[c].rq.now <= es[b].rq.now + ttl as real
  }

  /** When starts follow their checks within the time to live, a handler runs at most
      once in every window exactly when no two requests race. */
  lemma OncePerWindowIffNoRace(es: seq<Event>, ttl: int, key: string)
    requires Genuine(es, ttl) && ttl >= 0 && StartsPromptly(es, ttl)
    ensures OncePerWindow(es, ttl, key) <==> NoRace(es, key)
  {
    TwiceOnlyByARace(es, ttl, key);
    forall a: nat, b: nat | a < b < |es| && Starts(es[a], key) && Starts(es[b], key) && Races(es, a, b)
      ensures InWindow(es, ttl, a, b)
    {
      RacersAreClose(es, ttl, a, b);
    }
    hide Genuine, StartsPromptly;
  }

  lemma RacersAreClose(es: seq<Event>, ttl: int, a: nat, b: nat)
    requires Genuine(es, ttl) && StartsPromptly(es, ttl)
    requires a < b < |es| && es[a].Begin? && es[b].Begin? && Races(es, a, b)
    ensures InWindow(es, ttl, a, b)
  {
    BeginFollowsCheck(es, ttl, b);
    hide Genuine;
    assert es[es[b].check].Check?;
  }

  /** For two starts of a key with none in between: the second falls into the window
      of the first exactly when its check came before the first had started. */
  lemma NextStartInWindowIffRace(es: seq<Event>, ttl: int, a: nat, b: nat)
    requires Genuine(es, ttl) && StartsPromptly(es, ttl)
    requires a < b < |es| && es[a].Begin? && Starts(es[b], es[a].rq.key)
    requires forall k | a < k < b :: !Starts(es[k], es[a].rq.key)
    ensures InWindow(es, ttl, a, b) <==> Races(es, a, b)
  {
    hide Genuine, StartsPromptly, InWindow;
    BeginFollowsCheck(es, ttl, b);
    if Races(es, a, b) {
      RacersAreClose(es, ttl, a, b);
    } else {
      var l := CheckedAgainst(es, ttl, a, b);
    }
  }

  /** Where no requests race, a check within the window of a start never proceeds. */
  lemma RepeatIsNotExecuted(es: seq<Event>, ttl: int, i: nat, c: nat)
    requires Genuine(es, ttl) && ttl >= 0 && i < c < |es| && es[i].Begin? && es[c].Check?
    requires es[c].rq.key == es[i].rq.key && NoRace(es, es[i].rq.key)
    requires es[c].rq.now <= es[i].rq.now + ttl as real
    ensures ReplyAt(es, ttl, c) != Proceed
  {
    hide Genuine, ReplyAt, RunEvents, LastBegin, LastFinish, NoRace, RacersApart;
    var key := es[i].rq.key;
    NoRaceApart(es, ttl, key);
    TwiceOnlyByARace(es, ttl, key);
    WhatACheckAnswers(es, ttl, c);
    var before := es[..c];
    assert Starts(before[i], key);
    var l := LastBegin(before, ttl, key);
    assert es[l] == before[l];
    if i < l {
      assert !InWindow(es, ttl, i, l);
    }
  }

  lemma NoRaceApart(es: seq<Event>, ttl: int, key: string)
    requires NoRace(es, key)
    ensures RacersApart(es, ttl, key)
  {
  }

  /** The run goes on with what finishing adds to it: a finish, or nothing. */
  function Settled(es: seq<Event>, begin: nat, rq: Request, statusCode: int, content: Content, now: real): seq<Event> {
    if Stored(content).Some? then es + [Finish(begin, rq, statusCode, Stored(content).value, now)] else es
  }

  /** The response a repeated request gets, by the content of the first response. The
      same request within the window is answered with the stored status, and with the
      JSON when that was an object or `dict` accepts it, and otherwise without a body;
      content that cannot be stored leaves the key in progress. */
  lemma ReplayByContent(es: seq<Event>, ttl: int, i: nat, statusCode: int, content: Content, now: real, again: Request)
    requires i < |es| && Starts(es[i], again.key) && es[i].rq.hash == again.hash
    requires forall k | i < k < |es| :: !Starts(es[k], again.key) && !Finishes(es[k], again.key)
    requires again.now <= es[i].rq.now + ttl as real
    ensures var run := Settled(es, i, es[i].rq, statusCode, content, now);
            ReplyAt(run + [Check(again)], ttl, |run|)
            == match content
               case JsonObject(text) => Replay(statusCode, Some(text))
               case JsonOther(Some(text)) => Replay(statusCode, Some(text))
               case Empty | NotJson | JsonNull => Replay(statusCode, None)
               case Undecodable => InProgress
               case JsonOther(None) => InProgress
  {
    hide ReplyAt, RunEvents, LastBegin, LastFinish;
    var run := Settled(es, i, es[i].rq, statusCode, content, now);
    var all := run + [Check(again)];
    assert all[|run|] == Check(again);
    assert forall k | 0 <= k < |es| :: all[k] == es[k];
    if Stored(content).Some? {
      LastWordIs(all, ttl, |run|, i, |es|);
    } else {
      UnfinishedStaysInProgress(all, ttl, i, |run|);
    }
  }

  /** While a handler has not finished, or when its response could not be stored, the
      same request is told to wait until the window ends. */
  lemma UnfinishedStaysInProgress(es: seq<Event>, ttl: int, i: nat, c: nat)
    requires i < c < |es| && es[c].Check? && Starts(es[i], es[c].rq.key) && es[i].rq.hash == es[c].rq.hash
    requires forall k | i < k < c :: !Starts(es[k], es[c].rq.key) && !Finishes(es[k], es[c].rq.key)
    ensures ReplyAt(es, ttl, c) == if es[c].rq.now <= es[i].rq.now + ttl as real then InProgress else Proceed
  {
    hide ReplyAt, RunEvents, LastBegin, LastFinish;
    WhatACheckAnswers(es, ttl, c);
    var before, key := es[..c], es[c].rq.key;
    assert Starts(before[i], key);
    assert LastBegin(before, ttl, key) == i;
    var m := LastFinish(before, ttl, key, i);
    assert es[m] == before[m];
  }

  /** Two requests for one key, close together, that both check before either starts:
      both handlers run. */
  lemma BothExecute(first: Request, second: Request, ttl: int)
    requires first.key == second.key && first.now <= second.now <= first.now + ttl as real
    ensures var es := [Check(first), Check(second), Begin(0, first), Begin(1, second)];
            && Genuine(es, ttl) && StartsPromptly(es, ttl)
            && !OncePerWindow(es, ttl, first.key)
  {
    var es := [Check(first), Check(second), Begin(0, first), Begin(1, second)];
    hide ReplyAt, RunEvents;
    NothingStarted(es, ttl, 0);
    NothingStarted(es, ttl, 1);
    assert InWindow(es, ttl, 2, 3);
  }

  // ------------------------------------------------------- whose response is replayed

  /** The key was started again before the handler finished. */
  predicate Overtaken(es: seq<Event>, m: nat)
    requires m < |es| && es[m].Finish?
  {
    exists k | es[m].begin < k < m :: Starts(es[k], es[m].rq.key)
  }

  /** A replayed response comes from a finish that follows the last start of the key,
      and that start had the request's hash. It is that start's own response exactly
      when the finishing handler was not overtaken. */
  lemma ReplayIsOwnIffNotOvertaken(es: seq<Event>, ttl: int, c: nat) returns (i: nat, m: nat)
    requires Genuine(es, ttl) && c < |es| && es[c].Check? && ReplyAt(es, ttl, c).Replay?
    ensures i < m < c && Starts(es[i], es[c].rq.key) && es[i].rq.hash == es[c].rq.hash
    ensures forall k | i < k < c :: !Starts(es[k], es[c].rq.key)
    ensures Finishes(es[m], es[c].rq.key) && ReplyAt(es, ttl, c) == Replay(es[m].statusCode, es[m].responseBody)
    ensures es[m].begin == i <==> !Overtaken(es, m)
  {
    hide ReplyAt, RunEvents, LastBegin, LastFinish;
    var before, key := es[..c], es[c].rq.key;
    WhatACheckAnswers(es, ttl, c);
    i := LastBegin(before, ttl, key);
    m := LastFinish(before, ttl, key, i);
    assert es[i] == before[i] && es[m] == before[m];
    forall k | i < k < c
      ensures !Starts(es[k], key)
    {
      assert es[k] == before[k];
    }
    FinishFollowsBegin(es, ttl, m);
    hide Genuine;
    if es[m].begin < i {
      assert Overtaken(es, m);
    }
  }

  lemma FinishFollowsBegin(es: seq<Event>, ttl: int, m: nat)
    requires Genuine(es, ttl) && m < |es| && es[m].Finish?
    ensures es[m].begin < m && es[es[m].begin].Begin? && es[es[m].begin].rq == es[m].rq
  {
    assert OwnStart(es, m);
  }

  /** No check before the finish read a later time than the finish. */
  predicate ClockForward(es: seq<Event>, m: nat)
    requires m < |es| && es[m].Finish?
  {
    forall c | 0 <= c < m && es[c].Check? :: es[c].rq.now <= es[m].now
  }

  /** A handler that finishes within the window it opened is overtaken exactly by a
      request that raced with its own start. */
  lemma PromptIsOvertakenIffRace(es: seq<Event>, ttl: int, m: nat)
    requires Genuine(es, ttl) && m < |es| && es[m].Finish? && ClockForward(es, m)
    requires es[m].now <= es[m].rq.now + ttl as real
    ensures es[m].begin < m && es[es[m].begin].Begin?
    ensures Overtaken(es, m)
            <==> exists k | es[m].begin < k < m :: Starts(es[k], es[m].rq.key) && Races(es, es[m].begin, k)
  {
    FinishFollowsBegin(es, ttl, m);
    if Overtaken(es, m) {
      var k: nat :| es[m].begin < k < m && Starts(es[k], es[m].rq.key);
      var racer := FirstRacer(es, ttl, m, k);
    }
  }

  lemma {:induction false} FirstRacer(es: seq<Event>, ttl: int, m: nat, k: nat) returns (racer: nat)
    requires Genuine(es, ttl) && m < |es| && es[m].Finish? && ClockForward(es, m)
    requires es[m].begin < m && es[es[m].begin].Begin? && es[es[m].begin].rq == es[m].rq
    requires es[m].now <= es[m].rq.now + ttl as real
    requires es[m].begin < k < m && Starts(es[k], es[m].rq.key)
    ensures es[m].begin < racer < m && Starts(es[racer], es[m].rq.key) && Races(es, es[m].begin, racer)
    decreases k
  {
    hide Genuine;
    var e := es[m].begin;
    if Races(es, e, k) {
      racer := k;
    } else {
      var l := CheckedAgainst(es, ttl, e, k);
      BeginFollowsCheck(es, ttl, k);
      assert es[es[k].check].rq.now <= es[m].now;
      racer := FirstRacer(es, ttl, m, l);
    }
  }

  function RaceRun(first: Request, second: Request, statusCode: int, body: Option<string>): seq<Event> {
    [Check(first), Check(second), Begin(0, first), Begin(1, second),
     Finish(2, first, statusCode, body, second.now), Check(second)]
  }

  /** A prompt response under the wrong request: two requests with different hashes
      race, the first finishes within its window, and its response is replayed as the
      answer to the second. */
  lemma RaceAnswersAnother(first: Request, second: Request, ttl: int, statusCode: int, body: Option<string>)
    requires first.key == second.key && first.hash != second.hash && ttl >= 0
    requires first.now <= second.now <= first.now + ttl as real
    ensures var es := RaceRun(first, second, statusCode, body);
            && Genuine(es, ttl) && ClockForward(es, 4) && es[4].now <= es[4].rq.now + ttl as real
            && ReplyAt(es, ttl, 5) == Replay(statusCode, body)
            && es[4].rq == first && es[5].rq == second
  {
    hide ReplyAt, RunEvents, LastBegin, LastFinish;
    var es := RaceRun(first, second, statusCode, body);
    NothingStarted(es, ttl, 0);
    NothingStarted(es, ttl, 1);
    LastWordIs(es, ttl, 5, 3, 4);
  }

  function LateRun(first: Request, second: Request, statusCode: int, body: Option<string>): seq<Event> {
    [Check(first), Begin(0, first), Check(second), Begin(2, second),
     Finish(1, first, statusCode, body, second.now), Check(second)]
  }

  /** Without any race: a handler that finishes after its window, when the key has
      been started again. */
  lemma LateFinishAnswersAnother(first: Request, second: Request, ttl: int, statusCode: int, body: Option<string>)
    requires first.key == second.key && first.hash != second.hash
    requires ttl >= 0 && second.now > first.now + ttl as real
    ensures var es := LateRun(first, second, statusCode, body);
            && Genuine(es, ttl) && ClockForward(es, 4) && NoRace(es, first.key)
            && ReplyAt(es, ttl, 5) == Replay(statusCode, body)
            && es[4].rq == first && es[5].rq == second
  {
    hide ReplyAt, RunEvents, LastBegin, LastFinish;
    var es := LateRun(first, second, statusCode, body);
    NothingStarted(es, ttl, 0);
    LastStartExpired(es, ttl, 2, 1);
    LastWordIs(es, ttl, 5, 3, 4);
  }

  lemma NothingStarted(es: seq<Event>, ttl: int, c: nat)
    requires c < |es| && es[c].Check? && forall k | 0 <= k < c :: !Starts(es[k], es[c].rq.key)
    ensures ReplyAt(es, ttl, c) == Proceed
  {
    hide ReplyAt, RunEvents, LastBegin, LastFinish;
    WhatACheckAnswers(es, ttl, c);
    var i := LastBegin(es[..c], ttl, es[c].rq.key);
  }

  lemma LastStartExpired(es: seq<Event>, ttl: int, c: nat, i: nat)
    requires i < c < |es| && es[c].Check? && Starts(es[i], es[c].rq.key)
    requires forall k | i < k < c :: !Starts(es[k], es[c].rq.key)
    requires es[i].rq.now + ttl as real < es[c].rq.now
    ensures ReplyAt(es, ttl, c) == Proceed
  {
    hide ReplyAt, RunEvents, LastBegin, LastFinish;
    WhatACheckAnswers(es, ttl, c);
    var before := es[..c];
    assert Starts(before[i], es[c].rq.key);
    assert LastBegin(before, ttl, es[c].rq.key) == i;
  }

  lemma LastWordIs(es: seq<Event>, ttl: int, c: nat, i: nat, m: nat)
    requires i < m < c < |es| && es[c].Check? && Starts(es[i], es[c].rq.key) && Finishes(es[m], es[c].rq.key)
    requires forall k | i < k < c :: !Starts(es[k], es[c].rq.key)
    requires forall k | m < k < c :: !Finishes(es[k], es[c].rq.key)
    requires es[c].rq.now <= es[i].rq.now + ttl as real && es[i].rq.hash == es[c].rq.hash
    ensures ReplyAt(es, ttl, c) == Replay(es[m].statusCode, es[m].responseBody)
  {
    hide ReplyAt, RunEvents, LastBegin, LastFinish;
    WhatACheckAnswers(es, ttl, c);
    var before, key := es[..c], es[c].rq.key;
    assert Starts(before[i], key) && Finishes(before[m], key);
    assert LastBegin(before, ttl, key) == i;
    assert LastFinish(before, ttl, key, i) == m;
  }
}
