# Arche API: verified model

A Dafny model of the parts of the EDGAR and market-data service where state,
ordering or arithmetic carries an obligation, and proofs of what those parts
promise. `dafny verify dfyconfig.toml` checks all of it.

## What is modelled

- **Transactions** (`UnitOfWork.dfy`, `RunInUow.dfy`). The SQLAlchemy unit of
  work is a class over a session, two flags and a repository cache, with an
  outcome given for every awaited session call. Its steps refine a transaction
  with three phases (idle, active, settled) over runs of any length, with
  re-entry. `run_in_uow` is proved against the verdict of the scope's first
  settling call, for every body, ending and failure.
- **Restatement deltas** (`RestatementDelta.dfy`, `EdgarRestatementDelta.dfy`,
  `RoundedDeltas.dfy`).
  The zero-filled engine and the present-on-both-sides engine, their patch,
  inverse and composition laws, and where they agree. Amounts are compared and
  subtracted as exact numbers (`Decimals.Worth`); what the context's rounding
  leaves of the laws is proved separately.
- **Text forms** (`Decimals.dfy`, `CanonicalText.dfy`, `Dates.dfy`,
  `Payloads.dfy`). A finite decimal is a sign, a coefficient and an exponent;
  texts are character sequences. `to-scientific-string`, `to-number` and `reduce`
  follow the General Decimal Arithmetic Specification (its Conversions section
  and the operation `reduce`); dates follow `full-date` of section 5.6 of RFC 3339.
- **Stores** (`Upserts.dfy`, `Filings.dfy`, `IntradayBars.dfy`,
  `Alignments.dfy`, `Facts.dfy`, `Idempotency.dfy`, `IdempotencyMiddleware.dfy`,
  `TtlCache.dfy`). Each table is a class field that the methods reassign, proved
  against a left fold of one-row operations or against an operation log.
- **Selection, order, pages** (`StatementVersions.dfy`, `FilingsGateway.dfy`,
  `FundamentalsCollection.dfy`, `Fundamentals.dfy`), on the stable sort of
  `Sorting.dfy`.
- **XBRL links** (`XbrlLinks.dfy`, `XbrlDocuments.dfy`). Label and presentation
  links of one document as a join scoped to each link (section 5.2 of XBRL 2.1),
  told from the paths at which the document's tree holds them.

A `method` carries out an operation the way the code does, with its loops and
field updates, and its `ensures` ties it to a function of the inputs or of the
old state. The lemmas are about those functions.

## Where the code falls short of its documentation

The lemmas named give failing inputs, and the exact condition under which the
promise holds.

- The idempotency middleware promises one execution for a key and a 409 for
  requests in progress. Its check and its start are separate repository calls, and
  a start resets whatever row is there: two requests that both check before either
  starts both execute (`BothExecute`), and the prompt response of one is replayed
  as the answer to the other (`RaceAnswersAnother`). A handler runs twice in a
  window exactly by such a race (`TwiceOnlyByARace`, `OncePerWindowIffNoRace`), and
  a handler that finishes within its window loses its row exactly to one
  (`PromptIsOvertakenIffRace`). Without a race, a handler that finishes after its
  window can still answer another request (`LateFinishAnswersAnother`).
- The canonical decimal text reads back to the same number exactly when its
  significant digits fit the context precision (`ReadBack`), and two decimals share
  a text exactly when they round to equal numbers (`SameTextIff`), which past the
  precision different numbers do (`AmbiguousBeyondPrecision`).
- `run_in_uow` can raise although its writes are durable, exactly when the commit
  succeeded and the close that follows raised (`RaisedButDurable`).
- The fundamentals panel is independent of the input order exactly when payloads
  that tie on the sort key give the same point (`OrderFreeIff`). The key does not
  name the statement type, so two statement types of one filing tie
  (`StatementTypesTie`). The one caller collects a single type and, when payloads
  agree with their rows, one payload for a period, and its panel is independent of
  order (`CollectedHasOnePanel`).
- Label entities refuse a blank role and presentation entities an order that is not
  finite, so one label without a role, or one order of "nan", fails the whole
  document (`MissingRoleFails`, `EndlessOrderFails`); exactly then does parsing fail
  (`RefusedForTheRole`, `RefusedForRoleOrOrder`).
- The deltas of `compute_restatement_delta` need not add up over a chain of
  versions: a metric that one version leaves out changes overall but in no hop
  (`GapLosesChange`). They add up exactly when the jumps across gaps cancel, or,
  where an end leaves the metric out, account for all of its change (`HopsAddUpIff`).
- The filters of a filings fetch do not shield it from the rows they drop: a form
  outside the enumeration anywhere in the document, or an unreadable date, ends it
  (`InsiderFormEndsFetch`). `FetchSucceedsIff` and `DroppedRowsDecide` say exactly
  when.
- Decimal differences are rounded to the context precision. The reported metrics and
  the changed count never depend on that (`RoundingKeepsChanges`); when the hops of a
  chain fit the precision they add up to the direct difference exactly when that
  fits too (`RoundedHopsAddUpIff`), and on any chain they are off by at most the
  half units of what does not fit (`RoundedHopsNearDirect`).
- Facts and alignments look a version up without its date, which the versions
  table's unique key contains: every version is the one found for it exactly when no
  two versions that share the rest differ in their date (`EveryVersionResolvesIff`,
  `EveryVersionFoundIff`).
- Splitting a batch of filings leaves the same table when the whole batch goes
  through, which it does exactly when its parts do (`PartsGoThroughIff`). When an
  existing row already has a derived id, it need not (`SplitWritesMore`); on tables
  that batch upserts alone have built that never happens (`BatchesCompose`).
- A JSON response that is no object, and that `dict` refuses, raises after the
  handler has run: nothing is saved, no response is sent (`FinishRequest`), and the
  key stays in progress until its window ends (`UnfinishedStaysInProgress`).

## Model

| member | source | states |
|---|---|---|
| UnitOfWork.SqlAlchemyUnitOfWork.Enter | src/arche_api/adapters/uow/sqlalchemy_uow.py:141-154 | refuses nested use; otherwise a fresh session on the durable state, both flags down, no cached repository |
| UnitOfWork.SqlAlchemyUnitOfWork.Exit | src/arche_api/adapters/uow/sqlalchemy_uow.py:156-185 | rolls back a failed undecided scope, closes on every path; a failed close keeps session and cache and is what propagates |
| UnitOfWork.SqlAlchemyUnitOfWork.Commit | src/arche_api/adapters/uow/sqlalchemy_uow.py:191-206 | error without a session; idle after a decision; publishes the pending state only when the session commit returns |
| UnitOfWork.SqlAlchemyUnitOfWork.Rollback | src/arche_api/adapters/uow/sqlalchemy_uow.py:208-220 | idle without a session or after a decision; otherwise drops the pending state when the session rollback returns |
| UnitOfWork.SqlAlchemyUnitOfWork.GetRepository | src/arche_api/adapters/uow/sqlalchemy_uow.py:226-260 | the cached repository or a new one bound to the current session; errors without a session and for an unknown kind |
| UnitOfWork.InvHolds | src/arche_api/adapters/uow/sqlalchemy_uow.py:141-260 | every run keeps: never both flags, cached repositories bound to the newest session, nothing cached without a session |
| UnitOfWork.Refines | src/arche_api/adapters/uow/sqlalchemy_uow.py:141-260 | every run of calls is a run of the three-phase transaction: nothing written after a decision or through an old session ever becomes durable |
| UnitOfWork.DurableChange | src/arche_api/adapters/uow/sqlalchemy_uow.py:191-206 | in any run the durable state changes only at a successful commit of an undecided scope, and to exactly its pending state |
| UnitOfWork.OneDecisionPerScope | src/arche_api/adapters/uow/sqlalchemy_uow.py:191-220 | between any two successful commits or rollbacks of a run lies the opening of a new scope |
| UnitOfWork.CachedRepositoriesAreCurrent | src/arche_api/adapters/uow/sqlalchemy_uow.py:226-260 | at any point of any run a cached repository belongs to the session that is open then |
| UnitOfWork.CallsEnd | src/arche_api/adapters/uow/sqlalchemy_uow.py:141-260 | how every call ends, told from the phase of the transaction; a failed close is what leaving reports, before a failed rollback |
| UnitOfWork.CacheChanges | src/arche_api/adapters/uow/sqlalchemy_uow.py:141-260 | a lookup caches its kind and no other; the cache is emptied exactly by leaving or entering |
| UnitOfWork.SessionShows | src/arche_api/adapters/uow/sqlalchemy_uow.py:191-220 | what the open session shows: a write puts or removes its key, a rollback brings back the durable state, a commit changes nothing |
| RunInUow.RunInUow | src/arche_api/application/uow.py:92-100 | carries out enter, body, commit or rollback, and exit on the objects exactly as specified, for every failure |
| RunInUow.DurableIsTheVerdict | src/arche_api/application/uow.py:70-100 | for every body, also one that commits or rolls back itself, durable state is the verdict of the first settling call that succeeds |
| RunInUow.AllOrNothing | src/arche_api/application/uow.py:76-100 | a body that leaves the transaction alone: all its writes are durable iff it completes and the commit succeeds, else none; a result is returned iff the close succeeds too; the session is released iff the close succeeds |
| RunInUow.LeftUndecidedIff | src/arche_api/application/uow.py:92-100 | a transaction is left undecided exactly when the close raises and no settling call returns: not the commit, nor the rollback of an exception, nor the one on leaving |
| RunInUow.RefusedEntry | src/arche_api/adapters/uow/sqlalchemy_uow.py:147-150 | a scope that cannot be entered raises and changes nothing |
| RunInUow.RaisedButDurable | src/arche_api/application/uow.py:78-100 | an exception comes out although writes became durable exactly when the commit returned and the close raised |
| Decimals.ScientificRoundTrip | src/arche_api/adapters/repositories/edgar_statements_repository.py:717-720 | reading the text of a decimal gives the same sign, coefficient and exponent |
| Decimals.ScientificInjective | src/arche_api/adapters/repositories/edgar_statements_repository.py:711-714 | two decimals with one text are the same decimal |
| Decimals.NumeralReads | src/arche_api/adapters/repositories/edgar_statements_repository.py:846-852 | a numeral reads as its digits without the point, under the written exponent less the fraction digits |
| Decimals.ExponentShownIff | src/arche_api/adapters/repositories/edgar_statements_repository.py:711-714 | a text has an exponent exactly when the decimal's is positive or the number starts after more than five fractional zeros, and then that of the first digit |
| Decimals.ReduceDecides | src/arche_api/adapters/presenters/base_presenter.py:57-57 | two decimals are numerically equal exactly when they reduce to the same representative |
| Decimals.NumEqIsEqualWorth | src/arche_api/domain/entities/restatement_delta.py:230-230 | decimal comparison is equality of the real numbers the decimals stand for |
| CanonicalText.ReadBack | src/arche_api/adapters/presenters/base_presenter.py:52-63 | the canonical text reads back to the original number exactly when its significant digits fit the context precision |
| CanonicalText.EqualNumbersSameText | src/arche_api/adapters/presenters/base_presenter.py:44-63 | numerically equal decimals get the same text, at any precision |
| CanonicalText.Canonical | src/arche_api/adapters/presenters/base_presenter.py:44-63 | within the precision, two decimals get the same text exactly when they are numerically equal |
| CanonicalText.SameTextIff | src/arche_api/adapters/presenters/base_presenter.py:52-63 | at any precision two decimals share a text exactly when they round to equal numbers |
| CanonicalText.AmbiguousBeyondPrecision | src/arche_api/adapters/presenters/base_presenter.py:57-57 | for every precision there are two different numbers with the same text |
| CanonicalText.PlainText | src/arche_api/adapters/presenters/base_presenter.py:53-63 | the text has no exponent, no leading zero, no trailing fractional zero, no bare point and no negative zero |
| CanonicalText.RoundsHalfEven | src/arche_api/adapters/presenters/base_presenter.py:57-57 | rounding gives the nearest multiple, and the even one of two equally near |
| Dates.IsoInjective | src/arche_api/adapters/presenters/base_presenter.py:50-51 | two dates have the same text exactly when they are the same date |
| Dates.IsoCanonical | src/arche_api/adapters/presenters/base_presenter.py:50-51 | of the full-date texts of RFC 3339, the written one is the only one that denotes the date |
| Dates.FormatParts | src/arche_api/adapters/presenters/base_presenter.py:50-51 | the text is year, month and day in four, two and two digits with hyphens between |
| Payloads.MapNormalizedPayload | src/arche_api/adapters/repositories/edgar_statements_repository.py:740-830 | NULL gives no payload; otherwise the payload the stored fields determine, or an ingestion error for any field that is missing, cannot be coerced, or fails the constructor |
| Payloads.ReadAmounts | src/arche_api/adapters/repositories/edgar_statements_repository.py:785-798 | fills the dict with every amount, or fails exactly when some amount or metric cannot be read |
| Payloads.PayloadRoundTrip | src/arche_api/adapters/repositories/edgar_statements_repository.py:706-821 | every valid payload maps back from its stored form to itself, and the constructor never rejects it |
| Payloads.MappedPayloadIsStable | src/arche_api/adapters/repositories/edgar_statements_repository.py:806-821 | whatever maps is a valid payload with known metrics, and storing it again changes nothing |
| Payloads.UnknownMetricIsAnError | src/arche_api/adapters/repositories/edgar_statements_repository.py:786-787 | a stored payload maps exactly when the reading version knows all its core metrics |
| Payloads.SerializeInjective | src/arche_api/adapters/repositories/edgar_statements_repository.py:706-737 | valid payloads with the same stored form are equal |
| Payloads.StoredTexts | src/arche_api/adapters/repositories/edgar_statements_repository.py:716-737 | each text field is stored under its own name, the date in ISO form |
| Payloads.StoredObjects | src/arche_api/adapters/repositories/edgar_statements_repository.py:711-737 | each collection is stored as an object with the same keys, amounts as texts that read back to them |
| Payloads.MapsIff | src/arche_api/adapters/repositories/edgar_statements_repository.py:785-821 | the stored form of any field values maps exactly when the metrics are known, year and sequence are positive, and four texts are not blank |
| Payloads.MissingCollection | src/arche_api/adapters/repositories/edgar_statements_repository.py:781-783 | a missing collection maps as an empty one |
| Payloads.MissingScalar | src/arche_api/adapters/repositories/edgar_statements_repository.py:758-821 | a stored form without any other field does not map |
| RestatementDelta.FromPayloads | src/arche_api/domain/entities/restatement_delta.py:181-256 | the deltas are the metrics of the universe in which the zero-filled payloads differ; changed count is their number and never exceeds the compared count |
| RestatementDelta.DeltaIsExactly | src/arche_api/domain/entities/restatement_delta.py:212-256 | an entry for each compared metric whose reported amounts differ, from the original's amount to the restated one's, and no other |
| RestatementDelta.DeltaIsPatch | src/arche_api/domain/entities/restatement_delta.py:212-235 | the keys are exactly the metrics in which the zero-filled payloads differ, and overlaying the new values on the original gives the restated function |
| RestatementDelta.EmptyDelta | src/arche_api/domain/entities/restatement_delta.py:226-235 | a delta is empty exactly when both payloads are the same zero-filled function |
| RestatementDelta.SwapInverts | src/arche_api/domain/entities/restatement_delta.py:57-79 | swapping the payloads keeps the keys, swaps old and new, and negates every diff |
| RestatementDelta.HopsAddUp | src/arche_api/domain/entities/restatement_delta.py:212-235 | over any chain of versions and any metric set the hop diffs of a metric sum to its diff from first to last |
| RestatementDelta.ChangedInSomeHop | src/arche_api/domain/entities/restatement_delta.py:212-235 | a metric changed from first to last changed in at least one hop |
| RestatementDelta.ReplayReachesLast | src/arche_api/domain/entities/restatement_delta.py:212-235 | the first version and the hop deltas determine the last version |
| EdgarRestatementDelta.EnsurePayloadIdentityMatch | src/arche_api/domain/entities/edgar_restatement_delta.py:236-281 | passes exactly on equal identity tuples; otherwise reports exactly the fields that differ |
| EdgarRestatementDelta.ComputeRestatementDelta | src/arche_api/domain/entities/edgar_restatement_delta.py:186-233 | an identity mismatch is reported with its fields; otherwise the delta holds exactly the metrics present on both sides whose values differ, unless its constructor refuses it |
| EdgarRestatementDelta.DeltaFieldByField | src/arche_api/domain/entities/edgar_restatement_delta.py:194-233 | the delta has the first payload's identity and sequence, the second's sequence, and exactly the inspected metrics of both sides that differ |
| EdgarRestatementDelta.SwapReverses | src/arche_api/domain/entities/edgar_restatement_delta.py:194-233 | swapping the payloads swaps the sequences, keeps the metrics, swaps old and new and negates every difference |
| EdgarRestatementDelta.ValidPayloadsGiveAValidDelta | src/arche_api/domain/entities/edgar_restatement_delta.py:111-142 | the constructor never refuses the delta of valid payloads, and every entry's diff is new minus old |
| EdgarRestatementDelta.GivesADeltaIff | src/arche_api/domain/entities/edgar_restatement_delta.py:111-142 | the constructor takes a delta exactly when cik and currency are not blank and the year and both sequences are positive |
| EdgarRestatementDelta.EnginesAgree | src/arche_api/domain/entities/edgar_restatement_delta.py:186-233 | this engine is the zero-filled one restricted to metrics on both sides, with the same numbers, under any metric filter |
| EdgarRestatementDelta.OnlyZeroFilled | src/arche_api/domain/entities/edgar_restatement_delta.py:205-207 | only the zero-filled engine reports a metric exactly when it is on one side only, with a non-zero value |
| EdgarRestatementDelta.SameMetricsSameDelta | src/arche_api/domain/entities/edgar_restatement_delta.py:194-212 | payloads that report the same metrics get the same changed metrics from both engines |
| EdgarRestatementDelta.GapLosesChange | src/arche_api/domain/entities/edgar_restatement_delta.py:205-207 | a chain in which a metric changed overall but, for a version that leaves it out, in no hop |
| EdgarRestatementDelta.HopsAndGaps | src/arche_api/domain/entities/edgar_restatement_delta.py:199-220 | over any chain the hop diffs of a metric and its jumps across gaps make up the change from its first reported value to its last |
| EdgarRestatementDelta.HopsAddUpIff | src/arche_api/domain/entities/edgar_restatement_delta.py:199-220 | the hop diffs sum to the direct diff exactly when the jumps cancel, if both ends report the metric, and otherwise exactly when the jumps account for all of its change |
| EdgarRestatementDelta.HopsAddUpWithoutGaps | src/arche_api/domain/entities/edgar_restatement_delta.py:199-220 | in particular over a chain whose every version reports the metric |
| RoundedDeltas.SubtractIsExactIff | src/arche_api/domain/entities/restatement_delta.py:74-79 | a difference under the decimal context is exact exactly when its significant digits fit the precision |
| RoundedDeltas.RoundingKeepsChanges | src/arche_api/domain/entities/restatement_delta.py:81-84 | the rounded difference is zero exactly when the values are equal, so rounding changes neither the reported metrics nor the changed count |
| RoundedDeltas.SwapNegatesRounded | src/arche_api/domain/entities/restatement_delta.py:74-79 | swapping the values negates the rounded difference |
| RoundedDeltas.RoundedHopsAddUpIff | src/arche_api/domain/entities/restatement_delta.py:226-235 | when every hop fits the precision, the rounded hop diffs sum to the rounded direct diff exactly when that fits too |
| RoundedDeltas.FixErrorBound | src/arche_api/domain/entities/restatement_delta.py:74-79 | rounding moves a difference by at most half a unit in its last place, and not at all when it fits |
| RoundedDeltas.RoundedHopsBound | src/arche_api/domain/entities/restatement_delta.py:226-235 | over any chain the rounded hop diffs miss the exact change by at most the half units of the hops that do not fit |
| RoundedDeltas.RoundedHopsNearDirect | src/arche_api/domain/entities/restatement_delta.py:226-235 | over any chain they miss the rounded direct diff by at most those and its own half unit |
| RoundedDeltas.RoundedHopsNeedNotAddUp | src/arche_api/domain/entities/restatement_delta.py:226-235 | at every precision a chain whose hops all fit and whose rounded hop diffs do not add up |
| TtlCache.InMemoryAsyncCache.GetJson | src/arche_api/dependencies/market_data.py:305-316 | answers the stored value when it has not expired, and drops an expired entry it meets |
| TtlCache.InMemoryAsyncCache.SetJson | src/arche_api/dependencies/market_data.py:318-330 | stores the value with its expiry; a ttl of zero or less expires at once |
| TtlCache.AnswersFromHistory | src/arche_api/dependencies/market_data.py:305-330 | a lookup answers the value of the last call that set its key iff that call's expiry is strictly after the time of the lookup, and nothing for a key never set, given a clock that does not go back |
| TtlCache.EvictionIsInvisible | src/arche_api/dependencies/market_data.py:313-315 | removing all earlier lookups from a history changes no answer |
| TtlCache.SeenExactlyUntilExpiry | src/arche_api/dependencies/market_data.py:326-330 | how long a set value is seen, and that one with ttl of zero or less is never seen |
| TtlCache.LookupDropsExpired | src/arche_api/dependencies/market_data.py:305-316 | after a lookup its key is held exactly when it was answered, and no other entry is touched |
| Idempotency.IdempotencyRepository.FindActive | src/arche_api/adapters/repositories/idempotency_repository.py:77-87 | the record of the key iff it exists and has not expired, its last instant included |
| Idempotency.IdempotencyRepository.CreateStarted | src/arche_api/adapters/repositories/idempotency_repository.py:118-153 | inserts a record, or resets the existing one in place, to the same fresh STARTED row |
| Idempotency.IdempotencyRepository.SaveResult | src/arche_api/adapters/repositories/idempotency_repository.py:175-187 | completes the record in place and changes no other key |
| Idempotency.TableIsLog | src/arche_api/adapters/repositories/idempotency_repository.py:118-187 | after any log of calls a key has the row of its last start, completed by the last result saved since |
| Idempotency.ActiveWindow | src/arche_api/adapters/repositories/idempotency_repository.py:80-87 | a key is active exactly up to and including its last start plus the ttl given there |
| Idempotency.ColumnsAfter | src/arche_api/adapters/repositories/idempotency_repository.py:118-187 | column by column what a key's row holds after any log: the last start's request and times, and the last saved result since |
| Idempotency.SaveKeepsExpiry | src/arche_api/adapters/repositories/idempotency_repository.py:178-187 | saving a result moves no expiry, creates no row, and leaves other keys alone |
| Idempotency.StartedIsEmpty | src/arche_api/adapters/repositories/idempotency_repository.py:138-148 | a STARTED row carries no status and no body; a completed one carries a status |
| Idempotency.SavedResultIsReturned | src/arche_api/adapters/repositories/idempotency_repository.py:163-187 | between a save and the next start of the key the saved result is what is returned while the key is active |
| IdempotencyMiddleware.CheckRequest | src/arche_api/infrastructure/middleware/idempotency.py:115-140 | proceeds, replays, or refuses with one of two conflicts, as the active record says, and changes nothing |
| IdempotencyMiddleware.BeginRequest | src/arche_api/infrastructure/middleware/idempotency.py:142-150 | starts the key anew at the instant read before the check, over whatever row is there |
| IdempotencyMiddleware.FinishRequest | src/arche_api/infrastructure/middleware/idempotency.py:152-166 | saves the handler's result on the row of its key, with a body for JSON objects and what `dict` accepts; content that cannot be stored saves nothing and sends no response |
| IdempotencyMiddleware.UnfinishedStaysInProgress | src/arche_api/infrastructure/middleware/idempotency.py:135-166 | until a result is saved, the same request is told to wait exactly until the window ends |
| IdempotencyMiddleware.WhatACheckAnswers | src/arche_api/infrastructure/middleware/idempotency.py:119-140 | in any interleaving of requests a check's answer is decided by the last start of its key and the last finish since; what is replayed some handler produced |
| IdempotencyMiddleware.ReplayByContent | src/arche_api/infrastructure/middleware/idempotency.py:127-166 | the response a repeated request gets, by the content of the first: the JSON of an object or of what `dict` accepts, no body for other storable content, and in progress for the rest |
| IdempotencyMiddleware.RowAfter | src/arche_api/infrastructure/middleware/idempotency.py:142-150 | after any run a key's row holds the hash, verb, path and instant of the request last started |
| IdempotencyMiddleware.TwiceOnlyByARace | src/arche_api/infrastructure/middleware/idempotency.py:115-152 | no two handlers run for a key in one window exactly when no two requests that race, one checking before the other started, are that close |
| IdempotencyMiddleware.OncePerWindowIffNoRace | src/arche_api/infrastructure/middleware/idempotency.py:115-152 | when starts follow their checks within the ttl, a handler runs at most once per window exactly when no two requests race |
| IdempotencyMiddleware.NextStartInWindowIffRace | src/arche_api/adapters/repositories/idempotency_repository.py:121-153 | of two successive starts of a key, the second lies in the first's window exactly when its check came before the first start |
| IdempotencyMiddleware.BothExecute | src/arche_api/infrastructure/middleware/idempotency.py:119-150 | any two close requests with one key both execute when both check before either starts |
| IdempotencyMiddleware.RepeatIsNotExecuted | src/arche_api/infrastructure/middleware/idempotency.py:119-140 | where no requests race, a check within the window of a start never proceeds |
| IdempotencyMiddleware.ReplayIsOwnIffNotOvertaken | src/arche_api/infrastructure/middleware/idempotency.py:127-166 | a replayed response follows the last start of the key, which had the same hash, and is that start's own exactly when its handler was not overtaken |
| IdempotencyMiddleware.PromptIsOvertakenIffRace | src/arche_api/infrastructure/middleware/idempotency.py:142-166 | a handler that finishes within its window is overtaken exactly by a request that raced with its start |
| IdempotencyMiddleware.RaceAnswersAnother | src/arche_api/infrastructure/middleware/idempotency.py:119-166 | a run in which a prompt response is replayed as the answer to a request with another hash |
| IdempotencyMiddleware.LateFinishAnswersAnother | src/arche_api/infrastructure/middleware/idempotency.py:161-166 | a run without races in which a late response is replayed as the answer to a request with another hash |
| Upserts.BatchIsEach | src/arche_api/adapters/repositories/edgar_filings_repository.py:129-194 | a batch deduplicated by key and sent as one statement does what one-row upserts do, left to right |
| Upserts.ExecuteListed | src/arche_api/adapters/repositories/market_data_repository.py:99-126 | the statement built from the dict has pairwise distinct keys, is accepted, and its row order does not matter |
| Filings.EdgarFilingsRepository.ResolveCompanyIds | src/arche_api/adapters/repositories/edgar_filings_repository.py:312-344 | overrides win over the company table, and unresolved companies are left out |
| Filings.EdgarFilingsRepository.UpsertFilings | src/arche_api/adapters/repositories/edgar_filings_repository.py:128-195 | fails and writes nothing exactly when a filing to insert clashes with another accession's id; otherwise returns the input length and equals upserting one by one |
| Filings.LastFilingWins | src/arche_api/adapters/repositories/edgar_filings_repository.py:135-192 | a batch's effect on every accession: nothing when the batch clashes; else the last filing decides every column but id and metadata, which the first row keeps, and other accessions keep their rows |
| Filings.ColumnsAfter | src/arche_api/adapters/repositories/edgar_filings_repository.py:142-192 | column by column what a batch that goes through leaves in the row of an accession it names |
| Filings.PartsGoThroughIff | src/arche_api/adapters/repositories/edgar_filings_repository.py:175-194 | two parts of a batch go through, one after the other, exactly when the whole does |
| Filings.SplitLeavesSame | src/arche_api/adapters/repositories/edgar_filings_repository.py:129-195 | splitting a batch that goes through leaves the same table |
| Filings.SplitOfClash | src/arche_api/adapters/repositories/edgar_filings_repository.py:175-194 | for a batch that does not, the whole writes nothing and exactly one part takes effect as on its own |
| Filings.SplitWritesMore | src/arche_api/adapters/repositories/edgar_filings_repository.py:175-194 | a table and a batch for which splitting writes what the whole does not |
| Filings.RepeatLeavesSame | src/arche_api/adapters/repositories/edgar_filings_repository.py:129-195 | repeating any batch leaves the same table, whether it goes through or not |
| Filings.BatchesCompose | src/arche_api/adapters/repositories/edgar_filings_repository.py:129-195 | on every table built only by batch upserts, splitting or repeating a batch leaves the same table |
| Filings.IdsStayDerived | src/arche_api/adapters/repositories/edgar_filings_repository.py:153-159 | tables built only by batch upserts identify every filing by the id derived from its accession, and no batch of such a run fails |
| Filings.IdNeedsStripping | src/arche_api/domain/entities/edgar_filing.py:73-78 | the id from the stripped accession is the id from the accession exactly when that was stripped at construction |
| Filings.ConstructsIff | src/arche_api/domain/entities/edgar_filing.py:66-112 | a filing is constructed exactly when its texts are not blank, no period ends after filing, and an amendment alone has a positive sequence |
| IntradayBars.MarketDataRepository.UpsertIntradayBars | src/arche_api/adapters/repositories/market_data_repository.py:85-127 | never violates the statement's row limit, returns the input length, and equals upserting one by one |
| IntradayBars.BatchesCompose | src/arche_api/adapters/repositories/market_data_repository.py:94-127 | splitting or repeating a batch leaves the same table |
| IntradayBars.LastBarWins | src/arche_api/adapters/repositories/market_data_repository.py:95-124 | a batch's effect on every symbol and time: the last bar sent is the row stored, and others keep their rows |
| IntradayBars.RunHoldsLastBar | src/arche_api/adapters/repositories/market_data_repository.py:93-127 | after any run from an empty table, what is stored for a symbol and time is the last bar ever sent for them |
| Alignments.AlignmentRepository.UpsertAlignments | src/arche_api/adapters/repositories/edgar_statement_alignment_repository.py:92-168 | fails exactly when some record cannot be resolved, with the first such error and nothing written; otherwise the fold of update-else-insert |
| Alignments.ResolveMeans | src/arche_api/adapters/repositories/edgar_statement_alignment_repository.py:99-133 | a record resolves to the last version that agrees with it in company, type, year, period and sequence, or to one of two errors |
| Alignments.EveryVersionFoundIff | src/arche_api/adapters/repositories/edgar_statement_alignment_repository.py:355-378 | every version is found under its key exactly when no two versions that share a key differ in their date |
| Alignments.BatchEffect | src/arche_api/adapters/repositories/edgar_statement_alignment_repository.py:155-168 | version by version: the last record decides the values, the first inserted id stays, other versions keep their rows, also with duplicates in the batch |
| Alignments.RunsKeepRows | src/arche_api/adapters/repositories/edgar_statement_alignment_repository.py:92-168 | every run of batches keeps at most one row per version, and no row disappears or changes its id or version |
| Alignments.IdNeverChanges | src/arche_api/adapters/repositories/edgar_statement_alignment_repository.py:156-168 | once a version has a row, any further run leaves its alignment id |
| Facts.EdgarFactsRepository.ReplaceFactsForStatement | src/arche_api/adapters/repositories/edgar_facts_repository.py:89-110 | succeeds exactly when the statement is found and no two facts share a key; then the statement's rows are the given facts and all other rows stay |
| Facts.EdgarFactsRepository.ListFactsForStatement | src/arche_api/adapters/repositories/edgar_facts_repository.py:146-176 | the statement's rows that match the filter, in the fixed order, under the identity's cik |
| Facts.ListingIsExactly | src/arche_api/adapters/repositories/edgar_facts_repository.py:146-176 | told from the rows: the facts of the version's rows the filter wants, by metric code and then dimension key |
| Facts.QuantizedIsExact | src/arche_api/adapters/repositories/edgar_facts_repository.py:343-343 | the stored value is the given one exactly when it fits six decimals |
| Facts.RoundsHalfAway | src/arche_api/adapters/repositories/edgar_facts_repository.py:343-343 | the stored value is off by at most half a unit, and away from zero when equally near |
| Facts.EveryVersionResolvesIff | src/arche_api/adapters/repositories/edgar_facts_repository.py:268-309 | every version of a known company is what its identity resolves to exactly when no two versions that share an identity differ in their date |
| Facts.ResolvesToLeastId | src/arche_api/adapters/repositories/edgar_facts_repository.py:282-293 | an identity resolves to the least id among the versions that share it |
| Facts.ReplaceThenList | src/arche_api/adapters/repositories/edgar_facts_repository.py:69-176 | listing after a replacement gives exactly the given facts sorted by metric and dimension, whatever was stored before and whatever ids were drawn |
| Facts.ListingIsPermutation | src/arche_api/adapters/repositories/edgar_facts_repository.py:137-142 | facts with the identity's cik and fitting values come back as a sorted permutation of themselves |
| Facts.FilteredListing | src/arche_api/adapters/repositories/edgar_facts_repository.py:152-153 | a non-empty metric filter gives exactly the matching part of the full listing, in its order |
| Facts.OthersUnchanged | src/arche_api/adapters/repositories/edgar_facts_repository.py:92-95 | replacing one statement's facts changes no other statement's listing |
| StatementVersions.EdgarStatementsRepository.GetLatest | src/arche_api/adapters/repositories/edgar_statements_repository.py:305-340 | the first of the date's versions in descending sequence, or one of two errors |
| StatementVersions.EdgarStatementsRepository.List | src/arche_api/adapters/repositories/edgar_statements_repository.py:377-425 | without restated versions: one entry for each date of the window that has a non-restated version, the greatest of those, dates ascending |
| StatementVersions.ListingMembers | src/arche_api/adapters/repositories/edgar_statements_repository.py:410-425 | the listing's entries are exactly the selected versions, so the contract of List leaves no choice |
| StatementVersions.ListedDates | src/arche_api/adapters/repositories/edgar_statements_repository.py:411-419 | the dates listed are exactly those with a non-restated version in the window |
| StatementVersions.LatestIsNewest | src/arche_api/adapters/repositories/edgar_statements_repository.py:315-340 | the latest version is one of its date that no other of the date is newer than; none exactly when the date has none |
| StatementVersions.WindowIsExactly | src/arche_api/adapters/repositories/edgar_statements_repository.py:384-401 | a window holds the versions of the company, type and dates, each as often as the table does, ascending by date, sequence and id |
| StatementVersions.LatestIsExactly | src/arche_api/adapters/repositories/edgar_statements_repository.py:315-340 | told from the columns: of the company, type and date, one with the greatest sequence, and of these the least id |
| StatementVersions.ListingIsExactly | src/arche_api/adapters/repositories/edgar_statements_repository.py:403-425 | the listing's dates ascend, each entry has the greatest sequence of its date's non-restated versions, and every date with one has an entry |
| StatementVersions.ListedExactlyWhenNotRestated | src/arche_api/adapters/repositories/edgar_statements_repository.py:403-425 | a date's latest version is in the listing exactly when it is not restated |
| FilingsGateway.NormalizeRecentFilings | src/arche_api/adapters/gateways/edgar_gateway.py:530-565 | one row per index of the shortest required column, with optional columns read where they reach |
| FilingsGateway.FetchFilings | src/arche_api/adapters/gateways/edgar_gateway.py:239-320 | fails exactly on inverted bounds or a row that cannot be mapped; otherwise the kept filings newest first, truncated |
| FilingsGateway.KeptAreThePassing | src/arche_api/adapters/gateways/edgar_gateway.py:265-314 | what is kept is, in document order, one filing for each row that passes the filters, representing that row field by field |
| FilingsGateway.KeptExactly | src/arche_api/adapters/gateways/edgar_gateway.py:265-314 | in document order one filing for each row whose date lies in the range, ends included, whose base form is asked for and which is no unwanted amendment, with that row's columns |
| FilingsGateway.NewestFirstDescends | src/arche_api/adapters/gateways/edgar_gateway.py:316-318 | the order is by filing date and then accession, descending |
| FilingsGateway.RowsAreTheColumns | src/arche_api/adapters/gateways/edgar_gateway.py:530-565 | each row takes its cells from its index, optional ones where the column reaches; a form that ends in "/A" is an amendment, and no other is |
| FilingsGateway.FetchIsNewestPart | src/arche_api/adapters/gateways/edgar_gateway.py:316-320 | the answer is descending, as long as asked for, loses and doubles nothing together with what is omitted, and nothing omitted is greater than anything returned |
| FilingsGateway.FetchSucceedsIff | src/arche_api/adapters/gateways/edgar_gateway.py:265-314 | within its bounds a fetch succeeds exactly when every form is known, every row the type and amendment filters want has a readable date, and every row that passes all filters makes a filing |
| FilingsGateway.DroppedRowsDecide | src/arche_api/adapters/gateways/edgar_gateway.py:269-285 | the document fails although its passing rows alone would not, exactly when those can be mapped and some row has an unknown form or an unreadable date |
| FilingsGateway.UnknownFormFails | src/arche_api/adapters/gateways/edgar_gateway.py:269-276 | in particular a form outside the enumeration ends the fetch, whatever the filters |
| FilingsGateway.InsiderFormEndsFetch | src/arche_api/adapters/gateways/edgar_gateway.py:269-276 | a document with one wanted report fails for the Form 4 beside it, which no filter wants |
| Fundamentals.Build | src/arche_api/domain/entities/edgar_fundamentals_timeseries.py:131-176 | the stably sorted points of all payloads, each with the requested metrics it has; an error exactly when a point is invalid |
| Fundamentals.PanelAscends | src/arche_api/domain/entities/edgar_fundamentals_timeseries.py:131-176 | one point for each payload with its fields and requested metrics, ascending by company, date, fiscal year, period code and sequence |
| Fundamentals.ValidPayloadsGiveAPanel | src/arche_api/domain/entities/edgar_fundamentals_timeseries.py:67-100 | a valid payload never makes the point's constructor fail |
| Fundamentals.GivesAPointIff | src/arche_api/domain/entities/edgar_fundamentals_timeseries.py:67-100 | a payload gives a point exactly when its cik and currency are not blank and its year and sequence are positive |
| Fundamentals.OrderFreeIff | src/arche_api/domain/entities/edgar_fundamentals_timeseries.py:117-119 | the panel is the same for every input order exactly when payloads that tie on the sort key give the same point |
| Fundamentals.StatementTypesTie | src/arche_api/domain/entities/edgar_fundamentals_timeseries.py:166-174 | two payloads that differ in the statement type tie, and their input order shows |
| Fundamentals.CollectedIsOrderFree | src/arche_api/domain/entities/edgar_fundamentals_timeseries.py:117-119 | at most one payload for a company, date, year and period gives one panel in every order |
| FundamentalsCollection.LatestPayloads | src/arche_api/application/use_cases/statements/get_fundamentals_timeseries.py:307-327 | one payload for each date and period among the rows, that of the version kept for it |
| FundamentalsCollection.BestIsGreatest | src/arche_api/application/use_cases/statements/get_fundamentals_timeseries.py:312-325 | the version kept has a payload and the greatest sequence of its date and period; none is kept exactly when none has a payload |
| FundamentalsCollection.BestIsFirst | src/arche_api/application/use_cases/statements/get_fundamentals_timeseries.py:312-325 | of versions with equal sequences the first is kept |
| FundamentalsCollection.CollectCompany | src/arche_api/application/use_cases/statements/get_fundamentals_timeseries.py:281-329 | one payload, and no second, for each year of the window, date and period that has one |
| FundamentalsCollection.CandidatesAreExactly | src/arche_api/application/use_cases/statements/get_fundamentals_timeseries.py:284-302 | the candidates are the company's versions of the year with an allowed period, a date in the window, ends included, and a payload |
| FundamentalsCollection.ChosenIsKept | src/arche_api/application/use_cases/statements/get_fundamentals_timeseries.py:281-329 | what is kept is the payload of a version of the window than which no other of its date and period has a greater sequence |
| FundamentalsCollection.EveryKeyIsKept | src/arche_api/application/use_cases/statements/get_fundamentals_timeseries.py:281-329 | every version of the window with a payload has one kept for its date and period |
| FundamentalsCollection.Collect | src/arche_api/application/use_cases/statements/get_fundamentals_timeseries.py:172-185 | one payload for each listed company, year of the window, date and period that has one, and no other |
| FundamentalsCollection.CollectedIsOnePerPeriod | src/arche_api/application/use_cases/statements/get_fundamentals_timeseries.py:281-329 | when payloads agree with their rows, a collection over any companies has at most one payload for a company, date, year and period |
| FundamentalsCollection.CollectedHasOnePanel | src/arche_api/application/use_cases/statements/get_fundamentals_timeseries.py:172-197 | so the panel of what is collected is the same for every input order |
| Fundamentals.PresentPage | src/arche_api/adapters/presenters/fundamentals_presenter.py:127-149 | a page index or size below one counts as one; the items are that slice, with total and clamped values reported |
| Fundamentals.PagesRebuild | src/arche_api/adapters/presenters/fundamentals_presenter.py:135-142 | pages 1 to ceil(total / size), one after the other, are the whole panel |
| Fundamentals.OnExactlyOnePage | src/arche_api/adapters/presenters/fundamentals_presenter.py:135-137 | every point is on one page and no other, at the expected place |
| Fundamentals.LaterPagesEmpty | src/arche_api/adapters/presenters/fundamentals_presenter.py:135-142 | a page is empty exactly when it comes after the last |
| Fundamentals.AmountsReadBack | src/arche_api/adapters/presenters/fundamentals_presenter.py:58-69 | an amount's text reads back to the same number, and to the same digits when the exponent is not positive |
| Fundamentals.NoExponentShown | src/arche_api/adapters/presenters/fundamentals_presenter.py:58-69 | no amount is ever shown with an exponent |
| XbrlLinks.ParseLabelLinkbases | src/arche_api/adapters/mappers/xbrl_parser.py:404-450 | the labels of all label links grouped by concept in document order, or an error exactly when the label entity refuses one of them |
| XbrlLinks.ParsePresentationLinkbases | src/arche_api/adapters/mappers/xbrl_parser.py:452-495 | the presentation arcs of all presentation links in document order, or an error exactly when the arc entity refuses one of them |
| XbrlDocuments.LinksByPath | src/arche_api/adapters/mappers/xbrl_parser.py:408-408 | the links found are the elements with the tag at the end of some path of child indices from the root, each once, in the lexicographic order of the paths |
| XbrlDocuments.LabelsByPlace | src/arche_api/adapters/mappers/xbrl_parser.py:404-450 | the labels of a document are one for each arc that resolves inside its own link, at whatever depth that is, by path of the link and place of the arc, and nothing else |
| XbrlDocuments.PresentationsByPlace | src/arche_api/adapters/mappers/xbrl_parser.py:452-495 | the same of presentation arcs |
| XbrlLinks.LabelIsScopedJoin | src/arche_api/adapters/mappers/xbrl_parser.py:428-448 | an arc gives a label exactly when its start names a locator with a concept and its end a usable resource of the same link, last definitions counting |
| XbrlLinks.PresentationIsScopedJoin | src/arche_api/adapters/mappers/xbrl_parser.py:468-493 | an arc gives an entry from parent to child exactly when both ends name locators of the same link and its order, "0" when absent, reads as a number; the role is the link's |
| XbrlLinks.LocatorIs | src/arche_api/adapters/mappers/xbrl_parser.py:409-416 | what makes an element a locator, and of what name and concept |
| XbrlLinks.ResourceIs | src/arche_api/adapters/mappers/xbrl_parser.py:418-426 | what makes an element a label resource, and of what name, role and text |
| XbrlLinks.LastDefinitionWins | src/arche_api/adapters/mappers/xbrl_parser.py:409-426 | a name resolves to a value exactly when the last element that defines it defines it so |
| XbrlLinks.LabelsOfConcept | src/arche_api/adapters/mappers/xbrl_parser.py:428-448 | a concept's labels are, in document order, one per arc that resolves to it; it has no entry exactly when there is no such arc |
| XbrlLinks.TotalIsResolvableArcs | src/arche_api/adapters/mappers/xbrl_parser.py:404-450 | the labels of all concepts together are as many as the arcs that resolve |
| XbrlLinks.PresentationsAreResolvableArcs | src/arche_api/adapters/mappers/xbrl_parser.py:468-493 | the presentation arcs are, in document order, one per arc that resolves |
| XbrlLinks.PartsDoNotMix | src/arche_api/adapters/mappers/xbrl_parser.py:408-412 | parts of a document that share no link contribute their labels independently, in order |
| XbrlLinks.RefusedForTheRole | src/arche_api/domain/entities/xbrl_document.py:246-253 | label parsing fails exactly when some arc of some link resolves to a label with a blank role |
| XbrlLinks.RefusedForRoleOrOrder | src/arche_api/domain/entities/xbrl_document.py:276-285 | presentation parsing fails exactly when some arc resolves and its link has a blank role or its order is not finite |
| XbrlDocuments.MissingRoleFails | src/arche_api/adapters/mappers/xbrl_parser.py:418-448 | every document that holds a certain link, whose label has no role, at any depth fails |
| XbrlDocuments.EndlessOrderFails | src/arche_api/adapters/mappers/xbrl_parser.py:479-493 | every document that holds a certain link, whose one order is "nan", at any depth fails |
| XbrlLinks.BothFormsAgree | src/arche_api/adapters/mappers/xbrl_parser.py:91-124 | the underscore form and the colon form of a fragment give the same concept name |
| XbrlLinks.FragmentNames | src/arche_api/adapters/mappers/xbrl_parser.py:110-127 | what any fragment names: nothing when blank, the parts around its first underscore when both are there and it has no colon, and otherwise itself |

## Left out

- Routers, controllers, settings, the MCP server, metrics and logging blocks: plumbing.
- SQL text, SQLAlchemy's own state, Redis, HTTP clients, XML parsing and hashing: a table is a map or a sequence, a repository call one atomic step, uuid5 an injective constructor, a drawn id a parameter.
- Repositories other than the modelled ones, the derived-metrics series and its pages, and the remaining presenters: the same shapes, easier.
- XBRL contexts, units and facts of `xbrl_parser.py`: one pass of field copying each.
- UnitOfWork.Refines: assumes that repositories never commit (`src/arche_api/adapters/repositories/base_repository.py:15-17`), that a commit that raises leaves durable state alone, and that a closed session drops its uncommitted work.
- RunInUow.AllOrNothing: a body is a sequence of lookups with writes, commits and rollbacks; what it computes and returns is not modelled, and neither is the kind of the exception that propagates.
- Decimals.ScientificRoundTrip: finite decimals without exponent limits; NaN, infinities and the underscores, surrounding whitespace and non-ASCII digits `Decimal` also reads are not modelled.
- CanonicalText.ReadBack: the context rounds half even at a given precision and has no exponent limits.
- Dates.IsoCanonical: speaks of full-date texts only; where the code reads dates with `fromisoformat`, which also knows compact and week forms, the reader is given.
- Payloads.MapNormalizedPayload: the date reader is given, and the round trip asks of it only that it takes back what `isoformat` writes; numbers and other values found where a text is written go through given coercions; keys the mapping never reads are not kept.
- RestatementDelta.FromPayloads: subtraction is exact here, and its rounding is the subject of `RoundedDeltas`; the order of the dict is not modelled.
- EdgarRestatementDelta.ComputeRestatementDelta: subtraction is exact here too, and the order of the dict is not modelled.
- RoundedDeltas.SubtractIsExactIff: the context rounds half even and has no exponent limits.
- TtlCache.InMemoryAsyncCache.SetJson: copies of the mapping and callers that mutate a returned one are not modelled.
- Idempotency.IdempotencyRepository.CreateStarted: flush and commit are one step with the change; the time to live of a new record is added as the model class does in `src/arche_api/infrastructure/database/models/idempotency.py:110-146`.
- Idempotency.IdempotencyRepository.SaveResult: writes every column; sessions that do not expire on commit (`src/arche_api/infrastructure/database/session.py:63`) omit unchanged ones, so a late result without a body can leave an overtaking request's body in place.
- IdempotencyMiddleware.BeginRequest: a repository call is one step, so two first starts of a key inside one another, of which one fails on the primary key, are not modelled.
- IdempotencyMiddleware.FinishRequest: decoding a response and reading it as JSON is given as its outcome; a handler that raises never finishes, which leaves the record STARTED.
- Filings.EdgarFilingsRepository.UpsertFilings: the row's own `accession` column is the table key; filing times are dates; constraints other than the two keys are not modelled.
- Alignments.AlignmentRepository.UpsertAlignments: a backend that reports no row count is not modelled; the lookup of versions is a dict filled from one query.
- Facts.EdgarFactsRepository.ReplaceFactsForStatement: facts that clash violate the unique constraint and fail the transaction, so nothing is kept; values beyond the column's range and JSON limits of dimensions are not modelled.
- StatementVersions.EdgarStatementsRepository.List: the join with filings and the columns that only travel along are not modelled; ListingMembers takes the version id to be a primary key.
- FundamentalsCollection.Collect: takes the companies as they are after stripping, deduplication and sorting (`src/arche_api/application/use_cases/statements/get_fundamentals_timeseries.py:134`).
- FundamentalsCollection.CollectCompany: the rows are those of one statement type in the order the repository lists them; its query is not modelled.
- FilingsGateway.FetchFilings: the download and the shape checks of the submissions document are not modelled; dates and acceptance times go through given readers.
- XbrlLinks.ParsePresentationLinkbases: `float` is a given function to a finite, a non-finite or no number.
