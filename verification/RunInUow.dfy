/** `run_in_uow`: enter the unit of work, run a body, commit when it completes,
    roll back when it raises, and leave the scope on every path. */
module RunInUow {
  import opened Wrappers
  import opened UnitOfWork

  /** One thing the body does inside the scope. A body that reacts to what it
      sees still performs some sequence of these. */
  datatype BodyCall =
    | Use(kind: RepoKind, write: Write, call: Call)  // look a repository up and write through it
    | TryCommit(call: Call)
    | TryRollback(call: Call)

  /** How the body ends. A cancellation is not caught by `except Exception`. */
  datatype Ending = Completes | RaisesException | Cancelled

  /** What the session calls made by `run_in_uow` itself do. */
  datatype Calls = Calls(factory: Call, commit: Call, rollback: Call, exitRollback: Call, close: Call)

  function BodyStep(s: State, b: BodyCall): State {
    match b
    case Use(kind, w, call) =>
      var (s', found) := StepLookup(s, kind);
      if found != Done then s' else StepWork(s', s'.session.value.id, w, call).0
    case TryCommit(call) => StepCommit(s, call).0
    case TryRollback(call) => StepRollback(s, call).0
  }

  function BodyRun(s: State, body: seq<BodyCall>): State
    decreases |body|
  {
    if body == [] then s else BodyRun(BodyStep(s, body[0]), body[1..])
  }

  /** What follows the body: settle the scope and leave it. */
  function Finish(s: State, end: Ending, calls: Calls): (State, bool) {
    var (s1, ended) :=
      match end
      case Completes => StepCommit(s, calls.commit)
      case RaisesException => (StepRollback(s, calls.rollback).0, SessionError)
      case Cancelled => (s, SessionError);
    var (s2, left) := StepExit(s1, ended != Done, calls.exitRollback, calls.close);
    (s2, ended == Done && left == Done)
  }

  /** The state afterwards, and whether the call returned a result. */
  function RunSpec(s: State, body: seq<BodyCall>, end: Ending, calls: Calls): (State, bool) {
    var (s1, entered) := StepEnter(s, calls.factory);
    if entered != Done then (s1, false) else Finish(BodyRun(s1, body), end, calls)
  }

  /** The body of `fn`, carried out on the objects. */
  method RunBody(uow: SqlAlchemyUnitOfWork, body: seq<BodyCall>)
    requires uow.Valid() && uow.session != null
    modifies uow, uow.session, uow.db
    ensures uow.Valid() && uow.session == old(uow.session)
    ensures uow.Abs() == BodyRun(old(uow.Abs()), body)
  {
    for i := 0 to |body|
      invariant uow.Valid() && uow.session == old(uow.session)
      invariant BodyRun(uow.Abs(), body[i..]) == BodyRun(old(uow.Abs()), body)
    {
      ghost var before := uow.Abs();
      match body[i] {
        case Use(kind, w, call) =>
          var found, repo := uow.GetRepository(kind);
          if repo != null {
            ghost var looked := uow.Abs();
            var _ := repo.Execute(w, call);
            assert uow.Abs() == StepWork(looked, looked.session.value.id, w, call).0;
          }
        case TryCommit(call) =>
          var _ := uow.Commit(call);
        case TryRollback(call) =>
          var _ := uow.Rollback(call);
      }
      assert uow.Abs() == BodyStep(before, body[i]);
      assert body[i..][0] == body[i] && body[i..][1..] == body[i + 1..];
    }
  }

  method RunInUow(uow: SqlAlchemyUnitOfWork, body: seq<BodyCall>, end: Ending, calls: Calls) returns (returned: bool)
    requires uow.Valid()
    modifies uow, uow.session, uow.db
    ensures uow.Valid()
    ensures (uow.Abs(), returned) == RunSpec(old(uow.Abs()), body, end, calls)
  {
    var entered := uow.Enter(calls.factory);
    if entered != Done {
      return false;
    }
    RunBody(uow, body);
    var failed := true;
    match end {
      case Completes =>
        var r := uow.Commit(calls.commit);
        failed := r != Done;
      case RaisesException =>
        var _ := uow.Rollback(calls.rollback);
      case Cancelled =>
    }
    var left := uow.Exit(failed, calls.exitRollback, calls.close);
    returned := !failed && left == Done;
  }

  // ---------------------------------------------------------------- the promise

  /** The durable database a scope that starts at `durable` must end with: the
      first commit or rollback that succeeds settles it, and nothing done after
      that call counts. */
  function Verdict(durable: Db, pending: Db, known: set<RepoKind>, body: seq<BodyCall>, end: Ending, calls: Calls): Db
    decreases |body|
  {
    if body == [] then
      if end.Completes? && calls.commit.Returns? then pending else durable
    else
      match body[0]
      case Use(kind, w, call) =>
        var next := if kind in known then After(call, Apply(pending, w)) else pending;
        Verdict(durable, next, known, body[1..], end, calls)
      case TryCommit(call) =>
        if call.Returns? then pending else Verdict(durable, call.left, known, body[1..], end, calls)
      case TryRollback(call) =>
        if call.Returns? then durable else Verdict(durable, call.left, known, body[1..], end, calls)
  }

  predicate InScope(s: State) {
    Inv(s) && s.session.Some?
  }

  lemma {:induction false} BodyStaysInScope(s: State, body: seq<BodyCall>)
    requires InScope(s)
    ensures InScope(BodyRun(s, body)) && BodyRun(s, body).factories == s.factories
    decreases |body|
  {
    if body != [] {
      BodyStaysInScope(BodyStep(s, body[0]), body[1..]);
    }
  }

  lemma {:induction false} SettledStaysSettled(s: State, body: seq<BodyCall>)
    requires InScope(s) && !Undecided(s)
    ensures BodyRun(s, body).durable == s.durable && !Undecided(BodyRun(s, body))
    decreases |body|
  {
    if body != [] {
      SettledStaysSettled(BodyStep(s, body[0]), body[1..]);
    }
  }

  lemma FinishPlain(s: State, end: Ending, calls: Calls)
    requires InScope(s) && Undecided(s)
    ensures var (t, returned) := Finish(s, end, calls);
            var published := end.Completes? && calls.commit.Returns?;
            && t.durable == (if published then s.session.value.pending else s.durable)
            && (returned <==> published && calls.close.Returns?)
            && (t.session.None? <==> calls.close.Returns?)
            && (t.session.None? ==> t.repos == map[])
  {
  }

  lemma FinishSettled(s: State, end: Ending, calls: Calls)
    requires InScope(s) && !Undecided(s)
    ensures Finish(s, end, calls).0.durable == s.durable
  {
  }

  lemma FinishVerdict(s: State, end: Ending, calls: Calls)
    requires InScope(s)
    ensures Finish(s, end, calls).0.durable
            == if Undecided(s) && end.Completes? && calls.commit.Returns? then s.session.value.pending else s.durable
  {
    hide Finish, Undecided;
    if Undecided(s) { FinishPlain(s, end, calls); } else { FinishSettled(s, end, calls); }
  }

  lemma BodyStepVerdict(s: State, b: BodyCall)
    requires InScope(s) && Undecided(s)
    ensures var t := BodyStep(s, b);
            && InScope(t) && t.factories == s.factories
            && match b
               case Use(kind, w, call) =>
                 && Undecided(t) && t.durable == s.durable
                 && t.session.value.pending
                    == if kind in s.factories then After(call, Apply(s.session.value.pending, w))
                       else s.session.value.pending
               case TryCommit(call) =>
                 if call.Returns? then !Undecided(t) && t.durable == s.session.value.pending
                 else Undecided(t) && t.durable == s.durable && t.session.value.pending == call.left
               case TryRollback(call) =>
                 if call.Returns? then !Undecided(t) && t.durable == s.durable
                 else Undecided(t) && t.durable == s.durable && t.session.value.pending == call.left
  {
  }

  lemma {:induction false} ScopeVerdict(s: State, body: seq<BodyCall>, end: Ending, calls: Calls)
    requires InScope(s) && Undecided(s)
    ensures Finish(BodyRun(s, body), end, calls).0.durable
            == Verdict(s.durable, s.session.value.pending, s.factories, body, end, calls)
    decreases |body|
  {
    if body == [] {
      FinishVerdict(s, end, calls);
    } else {
      var t := BodyStep(s, body[0]);
      BodyStepVerdict(s, body[0]);
      if Undecided(t) {
        ScopeVerdict(t, body[1..], end, calls);
      } else {
        SettledStaysSettled(t, body[1..]);
        BodyStaysInScope(t, body[1..]);
        FinishVerdict(BodyRun(t, body[1..]), end, calls);
      }
    }
  }

  /** For every body, also one that commits or rolls back itself, the durable
      database afterwards is the verdict of the scope's first settling call. */
  lemma DurableIsTheVerdict(s: State, body: seq<BodyCall>, end: Ending, calls: Calls)
    requires Inv(s) && s.session.None? && calls.factory.Returns?
    ensures RunSpec(s, body, end, calls).0.durable
            == Verdict(s.durable, s.durable, s.factories, body, end, calls)
  {
    ScopeVerdict(StepEnter(s, calls.factory).0, body, end, calls);
  }

  predicate LeavesTransactionAlone(body: seq<BodyCall>) {
    forall b <- body :: b.Use?
  }

  /** The writes of the body, in order, on top of `db`. */
  function Written(db: Db, known: set<RepoKind>, body: seq<BodyCall>): Db
    requires LeavesTransactionAlone(body)
    decreases |body|
  {
    if body == [] then db
    else
      var last := body[|body| - 1];
      var before := Written(db, known, body[..|body| - 1]);
      if last.kind in known then After(last.call, Apply(before, last.write)) else before
  }

  lemma {:induction false} PlainBody(s: State, body: seq<BodyCall>)
    requires InScope(s) && Undecided(s) && LeavesTransactionAlone(body)
    ensures var t := BodyRun(s, body);
            InScope(t) && Undecided(t) && t.durable == s.durable
            && t.session.value.pending == Written(s.session.value.pending, s.factories, body)
    decreases |body|
  {
    if body != [] {
      var s' := BodyStep(s, body[0]);
      PlainBody(s', body[1..]);
      WrittenFromFront(s.session.value.pending, s.factories, body);
    }
  }

  lemma {:induction false} WrittenFromFront(db: Db, known: set<RepoKind>, body: seq<BodyCall>)
    requires body != [] && LeavesTransactionAlone(body)
    ensures Written(db, known, body) == Written(Written(db, known, body[..1]), known, body[1..])
  {
    if |body| == 1 {
      assert body[..1] == body;
    } else {
      var init := body[..|body| - 1];
      WrittenFromFront(db, known, init);
      assert init[..1] == body[..1] && init[1..] == body[1..][..|body| - 2];
    }
  }

  /** All or nothing: exactly the body's writes become durable when the body
      completes and the commit succeeds, and otherwise nothing does. A result is
      returned exactly when the close succeeds too, and the session is released
      exactly when the close succeeds. */
  lemma AllOrNothing(s: State, body: seq<BodyCall>, end: Ending, calls: Calls)
    requires Inv(s) && s.session.None? && calls.factory.Returns?
    requires LeavesTransactionAlone(body)
    ensures var (t, returned) := RunSpec(s, body, end, calls);
            var published := end.Completes? && calls.commit.Returns?;
            && t.durable == (if published then Written(s.durable, s.factories, body) else s.durable)
            && (returned <==> published && calls.close.Returns?)
            && (t.session.None? <==> calls.close.Returns?)
            && (t.session.None? ==> t.repos == map[])
  {
    hide Finish, BodyRun, Written;
    var s1 := StepEnter(s, calls.factory).0;
    PlainBody(s1, body);
    FinishPlain(BodyRun(s1, body), end, calls);
  }

  /** No settling call of the run returned: of the rollback of an exception and of the
      one on leaving, either would have done. */
  predicate NothingSettled(end: Ending, calls: Calls) {
    && calls.exitRollback.Raises?
    && (end.Completes? ==> calls.commit.Raises?) && (end.RaisesException? ==> calls.rollback.Raises?)
  }

  lemma FinishLeaves(s: State, end: Ending, calls: Calls)
    requires InScope(s) && Undecided(s)
    ensures Undecided(Finish(s, end, calls).0) <==> calls.close.Raises? && NothingSettled(end, calls)
  {
  }

  /** When a transaction is left undecided: the close raised, and no settling call of the
      run returned. */
  lemma LeftUndecidedIff(s: State, body: seq<BodyCall>, end: Ending, calls: Calls)
    requires Inv(s) && s.session.None? && calls.factory.Returns?
    requires LeavesTransactionAlone(body)
    ensures Undecided(RunSpec(s, body, end, calls).0) <==> calls.close.Raises? && NothingSettled(end, calls)
  {
    hide Finish, BodyRun, NothingSettled;
    var s1 := StepEnter(s, calls.factory).0;
    PlainBody(s1, body);
    FinishLeaves(BodyRun(s1, body), end, calls);
  }

  /** A scope that cannot be entered (nested use, or no session to be had)
      raises and changes nothing at all. */
  lemma RefusedEntry(s: State, body: seq<BodyCall>, end: Ending, calls: Calls)
    ensures (s.session.Some? || calls.factory.Raises?) <==> StepEnter(s, calls.factory).1 != Done
    ensures s.session.Some? || calls.factory.Raises? ==> RunSpec(s, body, end, calls) == (s, false)
  {
  }

  /** The one path on which an exception reaches the caller although the writes
      are durable: the commit succeeded and the close that follows it raised. */
  lemma RaisedButDurable(s: State, body: seq<BodyCall>, end: Ending, calls: Calls)
    requires Inv(s) && s.session.None? && calls.factory.Returns?
    requires LeavesTransactionAlone(body) && Written(s.durable, s.factories, body) != s.durable
    ensures var (t, returned) := RunSpec(s, body, end, calls);
            (!returned && t.durable != s.durable)
            <==> (end.Completes? && calls.commit.Returns? && calls.close.Raises?)
  {
    AllOrNothing(s, body, end, calls);
  }
}
