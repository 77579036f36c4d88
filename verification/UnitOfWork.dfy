/** The SQLAlchemy unit of work as a transaction protocol.

    `Step` gives the effect of one call on the flags, the session and the
    repository cache. The class `SqlAlchemyUnitOfWork` carries it out on objects.
    `Txn` is the reference the flags are meant to implement: a scope is idle,
    active with uncommitted work, or settled, and a settled scope cannot reach
    the durable database again. */
module UnitOfWork {
  import opened Wrappers

  type Db = map<string, string>
  type RepoKind = string

  datatype Write = Put(key: string, value: string) | Delete(key: string)

  function Apply(db: Db, w: Write): Db {
    match w
    case Put(k, v) => db[k := v]
    case Delete(k) => db - {k}
  }

  /** How one awaited session call ends. A call that raises (an error or a
      cancellation) may leave any uncommitted state behind. */
  datatype Call = Returns | Raises(left: Db)

  function After(call: Call, onReturn: Db): Db {
    match call
    case Returns => onReturn
    case Raises(left) => left
  }

  datatype Outcome = Done | RuntimeError | KeyError | SessionError

  datatype Scope = Scope(id: nat, pending: Db)
  datatype Repo = Repo(kind: RepoKind, session: nat)

  /** `issued` counts the sessions made so far, so ids are never reused. */
  datatype State = State(durable: Db, session: Option<Scope>, committed: bool, rolledBack: bool,
                         repos: map<RepoKind, Repo>, factories: set<RepoKind>, issued: nat)

  datatype Event =
    | Enter(factory: Call)
    | Work(id: nat, write: Write, call: Call)
    | Lookup(kind: RepoKind)
    | Commit(call: Call)
    | Rollback(call: Call)
    | Exit(failed: bool, rollback: Call, close: Call)

  predicate Inv(s: State) {
    && !(s.committed && s.rolledBack)
    && (s.session.Some? ==> s.session.value.id + 1 == s.issued)
    && (s.session.None? ==> s.repos == map[])
    && s.repos.Keys <= s.factories
    && forall k <- s.repos :: s.repos[k] == Repo(k, s.issued - 1)
  }

  // ---------------------------------------------------------------- the calls

  function StepEnter(s: State, factory: Call): (State, Outcome) {
    if s.session.Some? then (s, RuntimeError)
    else if factory.Raises? then (s, SessionError)
    else (s.(session := Some(Scope(s.issued, s.durable)), committed := false, rolledBack := false,
             repos := map[], issued := s.issued + 1), Done)
  }

  /** A repository bound to session `id` writes. Only the current session is
      visible to the unit of work; an older one was closed and is never committed. */
  function StepWork(s: State, id: nat, w: Write, call: Call): (State, Outcome) {
    if s.session.Some? && s.session.value.id == id then
      (s.(session := Some(Scope(id, After(call, Apply(s.session.value.pending, w))))),
       if call.Returns? then Done else SessionError)
    else (s, if call.Returns? then Done else SessionError)
  }

  function StepLookup(s: State, kind: RepoKind): (State, Outcome) {
    if s.session.None? then (s, RuntimeError)
    else if kind in s.repos then (s, Done)
    else if kind !in s.factories then (s, KeyError)
    else (s.(repos := s.repos[kind := Repo(kind, s.session.value.id)]), Done)
  }

  function StepCommit(s: State, call: Call): (State, Outcome) {
    if s.session.None? then (s, RuntimeError)
    else if s.committed || s.rolledBack then (s, Done)
    else
      match call
      case Returns => (s.(durable := s.session.value.pending, committed := true), Done)
      case Raises(left) => (s.(session := Some(s.session.value.(pending := left))), SessionError)
  }

  function StepRollback(s: State, call: Call): (State, Outcome) {
    if s.session.None? || s.rolledBack || s.committed then (s, Done)
    else
      match call
      case Returns => (s.(session := Some(s.session.value.(pending := s.durable)), rolledBack := true), Done)
      case Raises(left) => (s.(session := Some(s.session.value.(pending := left))), SessionError)
  }

  function StepClose(s: State, close: Call): (State, Outcome) {
    if s.session.None? then (s.(repos := map[]), Done)
    else
      match close
      case Returns => (s.(session := None, repos := map[]), Done)
      case Raises(left) => (s.(session := Some(s.session.value.(pending := left))), SessionError)
  }

  function StepExit(s: State, failed: bool, rollback: Call, close: Call): (State, Outcome) {
    var (s1, r) := if failed && !s.rolledBack then StepRollback(s, rollback) else (s, Done);
    var (s2, c) := StepClose(s1, close);
    (s2, if c != Done then c else r)
  }

  function Step(s: State, e: Event): (State, Outcome) {
    match e
    case Enter(factory) => StepEnter(s, factory)
    case Work(id, w, call) => StepWork(s, id, w, call)
    case Lookup(kind) => StepLookup(s, kind)
    case Commit(call) => StepCommit(s, call)
    case Rollback(call) => StepRollback(s, call)
    case Exit(failed, rollback, close) => StepExit(s, failed, rollback, close)
  }

  function Run(s: State, es: seq<Event>): State
    decreases |es|
  {
    if es == [] then s else Step(Run(s, es[..|es| - 1]), es[|es| - 1]).0
  }

  lemma InvStep(s: State, e: Event)
    requires Inv(s)
    ensures Inv(Step(s, e).0)
  {
    match e
    case Lookup(kind) =>
    case Exit(failed, rollback, close) =>
    case _ =>
  }

  lemma {:induction false} InvHolds(s: State, es: seq<Event>)
    requires Inv(s)
    ensures Inv(Run(s, es))
  {
    if es != [] {
      InvHolds(s, es[..|es| - 1]);
      InvStep(Run(s, es[..|es| - 1]), es[|es| - 1]);
    }
  }

  // ------------------------------------------------------------ the reference

  datatype Phase = Idle | Active(pending: Db) | Settled
  datatype Txn = Txn(durable: Db, phase: Phase, issued: nat)

  function TxnStep(t: Txn, e: Event): Txn {
    match e
    case Enter(factory) =>
      if t.phase.Idle? && factory.Returns? then Txn(t.durable, Active(t.durable), t.issued + 1) else t
    case Work(id, w, call) =>
      if t.phase.Active? && id + 1 == t.issued then t.(phase := Active(After(call, Apply(t.phase.pending, w)))) else t
    case Lookup(_) => t
    case Commit(call) => if t.phase.Active? then Decide(t, call, t.phase.pending) else t
    case Rollback(call) => if t.phase.Active? then Decide(t, call, t.durable) else t
    case Exit(failed, rollback, close) =>
      var t' := if t.phase.Active? && failed then Decide(t, rollback, t.durable) else t;
      if close.Returns? then t'.(phase := Idle)
      else if t'.phase.Active? then t'.(phase := Active(close.left))
      else t'
  }

  /** One attempt to settle a scope with `outcome` as the durable database. */
  function Decide(t: Txn, call: Call, outcome: Db): Txn
    requires t.phase.Active?
  {
    match call
    case Returns => Txn(outcome, Settled, t.issued)
    case Raises(left) => t.(phase := Active(left))
  }

  function TxnRun(t: Txn, es: seq<Event>): Txn
    decreases |es|
  {
    if es == [] then t else TxnStep(TxnRun(t, es[..|es| - 1]), es[|es| - 1])
  }

  function View(s: State): Txn {
    Txn(s.durable,
        if s.session.None? then Idle
        else if s.committed || s.rolledBack then Settled
        else Active(s.session.value.pending),
        s.issued)
  }

  lemma RefinesStep(s: State, e: Event)
    requires Inv(s)
    ensures View(Step(s, e).0) == TxnStep(View(s), e)
  {
    match e
    case Exit(failed, rollback, close) =>
    case _ =>
  }

  /** Every run of the flags and the session is a run of the three-phase
      transaction: what is written once a scope is settled, or through a
      repository of an earlier scope, has no effect on any later durable state. */
  lemma {:induction false} Refines(s: State, es: seq<Event>)
    requires Inv(s)
    ensures View(Run(s, es)) == TxnRun(View(s), es)
  {
    if es != [] {
      var prefix := es[..|es| - 1];
      Refines(s, prefix);
      InvHolds(s, prefix);
      RefinesStep(Run(s, prefix), es[|es| - 1]);
    }
  }

  // ------------------------------------------------------- laws over whole runs

  /** The call makes the session commit, and that commit succeeds. */
  predicate Publishes(s: State, e: Event) {
    s.session.Some? && !s.committed && !s.rolledBack && e.Commit? && e.call.Returns?
  }

  /** The call makes the session roll back, and that rollback succeeds. */
  predicate Discards(s: State, e: Event) {
    && s.session.Some? && !s.committed && !s.rolledBack
    && ((e.Rollback? && e.call.Returns?) || (e.Exit? && e.failed && e.rollback.Returns?))
  }

  predicate Opens(s: State, e: Event) {
    s.session.None? && e.Enter? && e.factory.Returns?
  }

  /** The durable database changes only at a successful commit, and then to the
      uncommitted state of that moment. */
  lemma DurableChange(s: State, es: seq<Event>, i: nat)
    requires i < |es|
    ensures var before, after := Run(s, es[..i]), Run(s, es[..i + 1]);
            after.durable == if Publishes(before, es[i]) then before.session.value.pending else before.durable
  {
    assert es[..i + 1][..i] == es[..i];
    DurableStep(Run(s, es[..i]), es[i]);
  }

  lemma DurableStep(s: State, e: Event)
    ensures Step(s, e).0.durable == if Publishes(s, e) then s.session.value.pending else s.durable
  {
    hide Apply, After;
    match e
    case Exit(failed, rollback, close) =>
    case _ =>
  }

  /** Two settling calls, be they commits or rollbacks, lie in different scopes. */
  lemma OneDecisionPerScope(s: State, es: seq<Event>, i: nat, j: nat)
    requires i < j < |es|
    requires Publishes(Run(s, es[..i]), es[i]) || Discards(Run(s, es[..i]), es[i])
    requires Publishes(Run(s, es[..j]), es[j]) || Discards(Run(s, es[..j]), es[j])
    ensures exists k | i < k < j :: Opens(Run(s, es[..k]), es[k])
  {
    var before := Run(s, es[..i]);
    SettlingStep(before, es[i]);
    assert es[..i + 1][..i] == es[..i];
    hide Step, Opens, Publishes, Discards;
    if forall k | i < k < j :: !Opens(Run(s, es[..k]), es[k]) {
      StaysClosed(s, es, i + 1, j);
      SettlingStep(Run(s, es[..j]), es[j]);
    }
  }

  predicate Undecided(s: State) {
    s.session.Some? && !s.committed && !s.rolledBack
  }

  lemma SettlingStep(s: State, e: Event)
    ensures Publishes(s, e) || Discards(s, e) ==> Undecided(s) && !Undecided(Step(s, e).0)
  {
  }

  lemma ClosedStep(s: State, e: Event)
    requires !Undecided(s) && !Opens(s, e)
    ensures !Undecided(Step(s, e).0)
  {
  }

  lemma {:induction false} StaysClosed(s: State, es: seq<Event>, i: nat, j: nat)
    requires i <= j <= |es|
    requires !Undecided(Run(s, es[..i]))
    requires forall k | i <= k < j :: !Opens(Run(s, es[..k]), es[k])
    ensures !Undecided(Run(s, es[..j]))
  {
    hide Step, Opens, Undecided;
    if i < j {
      StaysClosed(s, es, i, j - 1);
      assert es[..j][..j - 1] == es[..j - 1];
      ClosedStep(Run(s, es[..j - 1]), es[j - 1]);
    }
  }

  /** Every cached repository, at any point of any run, is bound to the session
      that is current then. */
  lemma CachedRepositoriesAreCurrent(s: State, es: seq<Event>, kind: RepoKind)
    requires Inv(s)
    requires kind in Run(s, es).repos
    ensures var t := Run(s, es);
            t.session.Some? && t.repos[kind] == Repo(kind, t.session.value.id)
  {
    InvHolds(s, es);
  }

  /** How each call ends, told from the phase of the transaction. Entering fails while a
      scope is open; committing fails when none is; a settled scope accepts both settling
      calls silently; leaving reports the close's failure before the rollback's. */
  lemma CallsEnd(s: State, e: Event)
    requires Inv(s)
    ensures var phase, r := View(s).phase, Step(s, e).1;
            match e
            case Enter(factory) =>
              r == if !phase.Idle? then RuntimeError else if factory.Returns? then Done else SessionError
            case Work(_, _, call) => r == if call.Returns? then Done else SessionError
            case Lookup(kind) =>
              r == if phase.Idle? then RuntimeError else if kind in s.factories then Done else KeyError
            case Commit(call) =>
              r == if phase.Idle? then RuntimeError else if phase.Settled? || call.Returns? then Done else SessionError
            case Rollback(call) => r == if phase.Active? && call.Raises? then SessionError else Done
            case Exit(failed, rollback, close) =>
              r == if (!phase.Idle? && close.Raises?) || (failed && phase.Active? && rollback.Raises?) then SessionError
                   else Done
  {
    match e
    case Lookup(kind) =>
    case Exit(failed, rollback, close) =>
    case _ =>
  }

  /** Looking a repository up caches it, for that kind only, until the scope is left or a
      new one entered. */
  lemma CacheChanges(s: State, e: Event)
    requires Inv(s)
    ensures Step(s, e).0.repos.Keys
            == match e
               case Lookup(kind) =>
                 if s.session.Some? && kind in s.factories then s.repos.Keys + {kind} else s.repos.Keys
               case Exit(_, _, close) => if s.session.None? || close.Returns? then {} else s.repos.Keys
               case Enter(factory) => if s.session.None? && factory.Returns? then {} else s.repos.Keys
               case _ => s.repos.Keys
  {
    match e
    case Lookup(kind) =>
    case Exit(failed, rollback, close) =>
    case _ =>
  }

  /** What the open session shows of the writes, while it stays open: a write puts or
      removes its key, a rollback brings back what is durable, a commit changes nothing,
      and a call that raises leaves whatever it left. */
  lemma SessionShows(s: State, e: Event)
    requires Inv(s) && s.session.Some?
    ensures Step(s, e).0.session.None? ==> e.Exit? && e.close.Returns?
    ensures Step(s, e).0.session.Some? ==>
            var pending, shown := s.session.value.pending, Step(s, e).0.session.value.pending;
            match e
            case Work(id, w, call) =>
              if id + 1 != s.issued then shown == pending
              else if call.Raises? then shown == call.left
              else if w.Put? then shown == pending[w.key := w.value]
              else shown == pending - {w.key}
            case Commit(call) => shown == if Undecided(s) && call.Raises? then call.left else pending
            case Rollback(call) =>
              shown == if !Undecided(s) then pending else if call.Raises? then call.left else s.durable
            case Exit(_, _, close) => close.Raises? && shown == close.left
            case _ => shown == pending
  {
    match e
    case Lookup(kind) =>
    case Exit(failed, rollback, close) =>
    case _ =>
  }

  // -------------------------------------------------------------- the objects

  class Database {
    var durable: Db

    constructor ()
      ensures durable == map[]
    {
      durable := map[];
    }
  }

  class Session {
    ghost const id: nat
    var pending: Db

    constructor (ghost id: nat, pending: Db)
      ensures this.id == id && this.pending == pending
    {
      this.id := id;
      this.pending := pending;
    }
  }

  class Repository {
    const kind: RepoKind
    const session: Session

    constructor (kind: RepoKind, session: Session)
      ensures this.kind == kind && this.session == session
    {
      this.kind := kind;
      this.session := session;
    }

    method Execute(w: Write, call: Call) returns (r: Outcome)
      modifies session
      ensures session.pending == After(call, Apply(old(session.pending), w))
      ensures r == if call.Returns? then Done else SessionError
    {
      match call {
        case Returns =>
          session.pending := Apply(session.pending, w);
          r := Done;
        case Raises(left) =>
          session.pending := left;
          r := SessionError;
      }
    }
  }

  class SqlAlchemyUnitOfWork {
    const db: Database
    const factories: set<RepoKind>
    var session: Session?
    var committed: bool
    var rolledBack: bool
    var repos: map<RepoKind, Repository>
    ghost var issued: nat

    ghost function Abs(): State
      reads this, db, session
    {
      State(db.durable,
            if session == null then None else Some(Scope(session.id, session.pending)),
            committed, rolledBack,
            map k | k in repos :: Repo(repos[k].kind, repos[k].session.id),
            factories, issued)
    }

    ghost predicate Valid()
      reads this, db, session
    {
      Inv(Abs()) && forall k <- repos :: repos[k].session == session
    }

    constructor (db: Database, factories: set<RepoKind>)
      ensures Valid() && this.db == db
      ensures Abs() == State(db.durable, None, false, false, map[], factories, 0)
    {
      this.db := db;
      this.factories := factories;
      session, committed, rolledBack, repos, issued := null, false, false, map[], 0;
    }

    method Enter(factory: Call) returns (r: Outcome)
      requires Valid()
      modifies this
      ensures Valid() && (session == old(session) || fresh(session))
      ensures (Abs(), r) == StepEnter(old(Abs()), factory)
    {
      if session != null {
        return RuntimeError;
      }
      if factory.Raises? {
        return SessionError;
      }
      session := new Session(issued, db.durable);
      issued := issued + 1;
      committed := false;
      rolledBack := false;
      repos := map[];
      r := Done;
    }

    method Exit(failed: bool, rollbackCall: Call, close: Call) returns (r: Outcome)
      requires Valid()
      modifies this, session
      ensures Valid() && (session == old(session) || session == null)
      ensures (Abs(), r) == StepExit(old(Abs()), failed, rollbackCall, close)
    {
      r := Done;
      if failed && !rolledBack {
        r := Rollback(rollbackCall);
      }
      if session != null {
        if close.Raises? {
          session.pending := close.left;
          return SessionError;
        }
        session := null;
      }
      repos := map[];
    }

    method Commit(call: Call) returns (r: Outcome)
      requires Valid()
      modifies this, session, db
      ensures Valid() && session == old(session)
      ensures (Abs(), r) == StepCommit(old(Abs()), call)
    {
      if session == null {
        return RuntimeError;
      }
      if committed || rolledBack {
        return Done;
      }
      if call.Raises? {
        session.pending := call.left;
        return SessionError;
      }
      db.durable := session.pending;
      committed := true;
      r := Done;
    }

    method Rollback(call: Call) returns (r: Outcome)
      requires Valid()
      modifies this, session
      ensures Valid() && session == old(session)
      ensures (Abs(), r) == StepRollback(old(Abs()), call)
    {
      if session == null || rolledBack || committed {
        return Done;
      }
      if call.Raises? {
        session.pending := call.left;
        return SessionError;
      }
      session.pending := db.durable;
      rolledBack := true;
      r := Done;
    }

    method GetRepository(kind: RepoKind) returns (r: Outcome, repo: Repository?)
      requires Valid()
      modifies this
      ensures Valid() && session == old(session)
      ensures (Abs(), r) == StepLookup(old(Abs()), kind)
      ensures r == Done <==> repo != null
      ensures repo != null ==> kind in repos && repos[kind] == repo && repo.session == session
      ensures kind in old(repos) ==> repos == old(repos)
    {
      if session == null {
        return RuntimeError, null;
      }
      if kind in repos {
        return Done, repos[kind];
      }
      if kind !in factories {
        return KeyError, null;
      }
      repo := new Repository(kind, session);
      repos := repos[kind := repo];
      r := Done;
      assert Abs().repos == old(Abs()).repos[kind := Repo(kind, session.id)];
    }
  }
}
