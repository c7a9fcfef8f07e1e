/**
 * `IndexBuilder`: builds one index described by an oplog entry, either in the
 * foreground under the caller's locks, or in the background on its own thread,
 * where it holds the database lock in X mode, signals the start handshake, and drops
 * to IX for the collection scan.
 *
 * The indexer, the catalog, the storage engine and the interrupt checks are oracles:
 * an `Oracle` lists in advance what each call answers. A run records a trace of the
 * events it goes through, each with the database lock mode held at that moment.
 */
module IndexBuilder {
  import opened Wrappers
  import opened ErrorCodes
  import opened BgIndexStarting
  import opened GhostTimestamp

  /** What a call into the indexer did: returned a status, or threw a DBException. */
  datatype Call = Returns(status: Status) | Throws(error: ErrorStatus)

  /** A `WriteConflictException`, the one exception `writeConflictRetry` retries. */
  predicate IsConflict(c: Call) {
    c.Throws? && c.error.code == WriteConflict
  }

  /**
   * `writeConflictRetry` over successive attempts of the same call: the first attempt
   * that does not throw a write conflict, or None while it is still retrying.
   */
  function WriteConflictRetry(attempts: seq<Call>): (r: Option<Call>)
    ensures r.None? <==> forall i :: 0 <= i < |attempts| ==> IsConflict(attempts[i])
    ensures r.Some? ==> !IsConflict(r.value)
    ensures r.Some? ==> exists i :: 0 <= i < |attempts| && attempts[i] == r.value
                                   && forall j :: 0 <= j < i ==> IsConflict(attempts[j])
    decreases |attempts|
  {
    if attempts == [] then None
    else if !IsConflict(attempts[0]) then Some(attempts[0])
    else
      var r := WriteConflictRetry(attempts[1..]);
      assert r.Some? ==> exists i :: 0 <= i < |attempts| && attempts[i] == r.value
                                   && forall j :: 0 <= j < i ==> IsConflict(attempts[j]) by {
        if r.Some? {
          var i :| 0 <= i < |attempts[1..]| && attempts[1..][i] == r.value
                   && forall j :: 0 <= j < i ==> IsConflict(attempts[1..][j]);
          assert attempts[i + 1] == r.value;
          assert forall j :: 0 <= j < i + 1 ==> IsConflict(attempts[j]) by {
            forall j | 0 <= j < i + 1
              ensures IsConflict(attempts[j])
            {
              if j > 0 {
                assert attempts[j] == attempts[1..][j - 1];
              }
            }
          }
        }
      }
      assert r.None? ==> forall i :: 0 <= i < |attempts| ==> IsConflict(attempts[i]) by {
        if r.None? {
          forall i | 0 <= i < |attempts|
            ensures IsConflict(attempts[i])
          {
            if i > 0 {
              assert attempts[i] == attempts[1..][i - 1];
            }
          }
        }
      }
      r
  }

  /** MODE_IX and MODE_X of the database lock. */
  datatype LockMode = IntentExclusive | Exclusive

  datatype Event =
    | Locked
    | Signalled
    | Relocked(mode: LockMode)
    | Scanned
    | AbortedWithoutCleanup
    | IndexerCommitted
    | TimestampSet
    | UnitCommitted

  /** An event and the database lock mode held when it happens. */
  datatype Step = Step(event: Event, mode: LockMode)

  /** `invariant` and `fassert` failures, both of which end the process. */
  datatype Fault = InvariantFailure | Fassert(id: nat)

  /** Pending is a run still retrying or waiting when the oracle's answers run out. */
  datatype Outcome = Finished(status: Status) | Crashed(fault: Fault) | Pending

  datatype BuildRun = BuildRun(outcome: Outcome, trace: seq<Step>, flag: Flag)

  /** The index's namespace and `_relaxConstraints`. */
  datatype IndexRequest = IndexRequest(ns: Namespace, relaxConstraints: bool)

  /**
   * The answers of everything `_build` calls: whether the collection exists, the
   * attempts of `init`, the scan, the replication context the ghost-timestamp gate
   * reads, the answers of `setTimestamp` and of the interrupt checks, and whether
   * the database and the collection still resolve after the commit.
   */
  datatype Oracle = Oracle(
    collectionFound: bool,
    initAttempts: seq<Call>,
    insert: Call,
    repl: ReplContext,
    timestampResults: seq<Status>,
    interruptChecks: seq<Option<InterruptStatus>>,
    databaseAfter: bool,
    collectionAfter: bool)

  const CollectionMissingFassert: nat := 40409
  const BackgroundFailureFassert: nat := 50769
  const DatabaseGoneFassert: nat := 28553
  const CollectionGoneFassert: nat := 28554
  const RunFailureFassert: nat := 28555

  /** What `_failIndexBuild` does: its outcome, and whether it abandoned the build as is. */
  datatype FailResult = FailResult(outcome: Outcome, abortedWithoutCleanup: bool)

  /**
   * `_failIndexBuild`. A write conflict must not reach it. InterruptedAtShutdown is
   * only legal in the background, where the build is abandoned as if killed and the
   * status returned; any other background failure is fatal; a foreground build
   * returns the status unchanged.
   */
  function FailIndexBuild(status: ErrorStatus, background: bool): (r: FailResult)
    ensures r.outcome.Crashed? <==>
      status.code == WriteConflict || (status.code == InterruptedAtShutdown) != background
    ensures r.outcome.Crashed? && status.code != WriteConflict && background ==>
      r.outcome.fault == Fassert(BackgroundFailureFassert)
    ensures r.outcome.Crashed? && (status.code == WriteConflict || !background) ==>
      r.outcome.fault == InvariantFailure
    ensures !r.outcome.Crashed? ==> r.outcome == Finished(status)
    ensures r.abortedWithoutCleanup <==> background && status.code == InterruptedAtShutdown
  {
    if status.code == WriteConflict then FailResult(Crashed(InvariantFailure), false)
    else if status.code == InterruptedAtShutdown then
      if background then FailResult(Finished(status), true)
      else FailResult(Crashed(InvariantFailure), false)
    else if background then FailResult(Crashed(Fassert(BackgroundFailureFassert)), false)
    else FailResult(Finished(status), false)
  }

  /** `init` errors the build ignores, reporting success. */
  predicate IgnoredInitError(status: Status, relaxConstraints: bool) {
    status.code == IndexAlreadyExists || (status.code == IndexOptionsConflict && relaxConstraints)
  }

  function Prefix(steps: seq<Step>, r: BuildRun): BuildRun {
    BuildRun(r.outcome, steps + r.trace, r.flag)
  }

  /** A failure handed to `_failIndexBuild` while holding the lock in `mode`. */
  function Fail(status: ErrorStatus, background: bool, mode: LockMode, flag: Flag): BuildRun {
    var f := FailIndexBuild(status, background);
    BuildRun(f.outcome, if f.abortedWithoutCleanup then [Step(AbortedWithoutCleanup, mode)] else [], flag)
  }

  /** `_build`: `mode` is the database lock mode it starts under, X in the background. */
  function Build(req: IndexRequest, background: bool, o: Oracle, mode: LockMode, flag: Flag): BuildRun
    requires background ==> mode == Exclusive
  {
    if !o.collectionFound then BuildRun(Crashed(Fassert(CollectionMissingFassert)), [], flag)
    else
      match WriteConflictRetry(o.initAttempts)
      case None => BuildRun(Pending, [], flag)
      case Some(Throws(e)) => BuildRun(Finished(e), [], flag)
      case Some(Returns(st)) => AfterInit(req, background, o, mode, flag, st)
  }

  /** `_build` once `init` has returned `st`. */
  function AfterInit(req: IndexRequest, background: bool, o: Oracle, mode: LockMode, flag: Flag, st: Status): BuildRun
    requires background ==> mode == Exclusive
  {
    if IgnoredInitError(st, req.relaxConstraints) then
      if !background then BuildRun(Finished(Status(OK)), [], flag)
      else
        match SetBgIndexStarting(flag)
        case InvariantViolated => BuildRun(Crashed(InvariantFailure), [], flag)
        case Raised(f) => BuildRun(Finished(Status(OK)), [Step(Signalled, mode)], f)
    else if !st.IsOK() then Fail(st, background, mode, flag)
    else if !background then Scan(req, false, o, mode, flag)
    else
      match SetBgIndexStarting(flag)
      case InvariantViolated => BuildRun(Crashed(InvariantFailure), [], flag)
      case Raised(f) =>
        Prefix([Step(Signalled, mode), Step(Relocked(IntentExclusive), IntentExclusive)],
               Scan(req, true, o, IntentExclusive, f))
  }

  /** `insertAllDocumentsInCollection` and what follows it. */
  function Scan(req: IndexRequest, background: bool, o: Oracle, mode: LockMode, flag: Flag): BuildRun {
    var scanned := [Step(Scanned, mode)];
    match o.insert
    case Throws(e) => BuildRun(Finished(e), scanned, flag)
    case Returns(st) =>
      if !st.IsOK() then Prefix(scanned, Fail(st, background, mode, flag))
      else if background then
        Prefix(scanned + [Step(Relocked(Exclusive), Exclusive)], Commit(req, true, o, Exclusive, flag))
      else Prefix(scanned, Commit(req, false, o, mode, flag))
  }

  /** The commit unit of work: the indexer commits, the ghost timestamp if required, the unit commits. */
  function Commit(req: IndexRequest, background: bool, o: Oracle, mode: LockMode, flag: Flag): BuildRun {
    var committed := [Step(IndexerCommitted, mode)];
    if RequiresGhostCommitTimestamp(req.ns, o.repl) then
      match TimestampLoop(o.timestampResults, o.interruptChecks)
      case Stamped(_) => Prefix(committed + [Step(TimestampSet, mode)], Finish(background, o, mode, flag))
      case TimestampFatal(_) => BuildRun(Crashed(Fassert(TimestampFassert)), committed, flag)
      case TimestampInterrupted(e) => BuildRun(Finished(e), committed, flag)
      case TimestampPending => BuildRun(Pending, committed, flag)
    else Prefix(committed, Finish(background, o, mode, flag))
  }

  /** `wunit.commit()` and, in the background, relocking X and resolving the catalog again. */
  function Finish(background: bool, o: Oracle, mode: LockMode, flag: Flag): BuildRun {
    var unit := [Step(UnitCommitted, mode)];
    if !background then BuildRun(Finished(Status(OK)), unit, flag)
    else
      var steps := unit + [Step(Relocked(Exclusive), Exclusive)];
      if !o.databaseAfter then BuildRun(Crashed(Fassert(DatabaseGoneFassert)), steps, flag)
      else if !o.collectionAfter then BuildRun(Crashed(Fassert(CollectionGoneFassert)), steps, flag)
      else BuildRun(Finished(Status(OK)), steps, flag)
  }

  /** `buildInForeground`: no lock of its own, no handshake. */
  function BuildInForeground(req: IndexRequest, o: Oracle, held: LockMode, flag: Flag): BuildRun {
    Build(req, false, o, held, flag)
  }

  /**
   * `run`, the background thread: takes the database lock in X, builds, and treats
   * any failure other than an interruption as fatal.
   */
  function Run(req: IndexRequest, o: Oracle, flag: Flag): (r: BuildRun)
    ensures |r.trace| > 0 && r.trace[0] == Step(Locked, Exclusive)
    ensures r.outcome.Finished? && !r.outcome.status.IsOK() ==> IsInterruption(r.outcome.status.code)
  {
    var b := Build(req, true, o, Exclusive, flag);
    var outcome :=
      if b.outcome.Finished? && !b.outcome.status.IsOK() && !IsInterruption(b.outcome.status.code)
      then Crashed(Fassert(RunFailureFassert)) else b.outcome;
    BuildRun(outcome, [Step(Locked, Exclusive)] + b.trace, b.flag)
  }

  // ---------------------------------------------------------------------------
  // Trace properties
  // ---------------------------------------------------------------------------

  predicate Occurs(trace: seq<Step>, e: Event) {
    exists i :: 0 <= i < |trace| && trace[i].event == e
  }

  /** Every step happens under `held`, and nothing signals or relocks. */
  predicate Quiet(trace: seq<Step>, held: LockMode) {
    forall i :: 0 <= i < |trace| ==>
      trace[i].mode == held && !trace[i].event.Signalled? && !trace[i].event.Relocked?
  }

  lemma QuietConcat(a: seq<Step>, b: seq<Step>, held: LockMode)
    requires Quiet(a, held) && Quiet(b, held)
    ensures Quiet(a + b, held)
  {
    forall i | 0 <= i < |a + b|
      ensures (a + b)[i].mode == held && !(a + b)[i].event.Signalled? && !(a + b)[i].event.Relocked?
    {
      if i >= |a| {
        assert (a + b)[i] == b[i - |a|];
      }
    }
  }

  lemma FinishForeground(o: Oracle, held: LockMode, flag: Flag)
    ensures var r := Finish(false, o, held, flag); Quiet(r.trace, held) && r.flag == flag
  {
  }

  lemma CommitForeground(req: IndexRequest, o: Oracle, held: LockMode, flag: Flag)
    ensures var r := Commit(req, false, o, held, flag); Quiet(r.trace, held) && r.flag == flag
  {
    var committed := [Step(IndexerCommitted, held)];
    FinishForeground(o, held, flag);
    var fin := Finish(false, o, held, flag);
    QuietConcat(committed, fin.trace, held);
    QuietConcat(committed + [Step(TimestampSet, held)], fin.trace, held);
  }

  lemma ScanForeground(req: IndexRequest, o: Oracle, held: LockMode, flag: Flag)
    ensures var r := Scan(req, false, o, held, flag); Quiet(r.trace, held) && r.flag == flag
  {
    var scanned := [Step(Scanned, held)];
    CommitForeground(req, o, held, flag);
    QuietConcat(scanned, Commit(req, false, o, held, flag).trace, held);
    if o.insert.Returns? && !o.insert.status.IsOK() {
      QuietConcat(scanned, Fail(o.insert.status, false, held, flag).trace, held);
    }
  }

  /**
   * A foreground build never signals the handshake, never changes the lock mode
   * and leaves the flag as it found it.
   */
  lemma ForegroundIsQuiet(req: IndexRequest, o: Oracle, held: LockMode, flag: Flag)
    ensures var r := BuildInForeground(req, o, held, flag);
      Quiet(r.trace, held) && r.flag == flag
  {
    ScanForeground(req, o, held, flag);
  }

  /** A commit-phase event: everything from the indexer's commit to the post-commit checks. */
  predicate IsCommitEvent(e: Event) {
    e.IndexerCommitted? || e.TimestampSet? || e.UnitCommitted?
  }

  /**
   * The background lock discipline: the scan runs under IX, right after the signal
   * and the relock to IX; every commit-phase event runs under X.
   */
  predicate BackgroundDiscipline(trace: seq<Step>) {
    && (forall i :: 0 <= i < |trace| && trace[i].event.Scanned? ==>
          && trace[i].mode == IntentExclusive
          && i >= 2 && trace[i - 2].event.Signalled?
          && trace[i - 1] == Step(Relocked(IntentExclusive), IntentExclusive))
    && (forall i :: 0 <= i < |trace| && IsCommitEvent(trace[i].event) ==> trace[i].mode == Exclusive)
  }

  /** No scan, and every commit-phase event under X. */
  predicate CommitsUnderX(trace: seq<Step>) {
    forall i :: 0 <= i < |trace| ==>
      !trace[i].event.Scanned? && (IsCommitEvent(trace[i].event) ==> trace[i].mode == Exclusive)
  }

  lemma CommitsUnderXConcat(a: seq<Step>, b: seq<Step>)
    requires CommitsUnderX(a) && CommitsUnderX(b)
    ensures CommitsUnderX(a + b)
  {
    forall i | 0 <= i < |a + b|
      ensures !(a + b)[i].event.Scanned? && (IsCommitEvent((a + b)[i].event) ==> (a + b)[i].mode == Exclusive)
    {
      if i >= |a| {
        assert (a + b)[i] == b[i - |a|];
      }
    }
  }

  lemma CommitBackground(req: IndexRequest, o: Oracle, flag: Flag)
    ensures CommitsUnderX(Commit(req, true, o, Exclusive, flag).trace)
  {
    var committed := [Step(IndexerCommitted, Exclusive)];
    var fin := Finish(true, o, Exclusive, flag);
    assert CommitsUnderX(fin.trace);
    CommitsUnderXConcat(committed, fin.trace);
    CommitsUnderXConcat(committed + [Step(TimestampSet, Exclusive)], fin.trace);
  }

  lemma ScanBackground(req: IndexRequest, o: Oracle, flag: Flag)
    ensures var r := Scan(req, true, o, IntentExclusive, flag);
      && |r.trace| > 0 && r.trace[0] == Step(Scanned, IntentExclusive)
      && CommitsUnderX(r.trace[1..])
  {
    var scanned := [Step(Scanned, IntentExclusive)];
    var r := Scan(req, true, o, IntentExclusive, flag);
    var tail: seq<Step>;
    if o.insert.Throws? {
      tail := [];
    } else if !o.insert.status.IsOK() {
      tail := Fail(o.insert.status, true, IntentExclusive, flag).trace;
    } else {
      var c := Commit(req, true, o, Exclusive, flag);
      CommitBackground(req, o, flag);
      CommitsUnderXConcat([Step(Relocked(Exclusive), Exclusive)], c.trace);
      tail := [Step(Relocked(Exclusive), Exclusive)] + c.trace;
      assert scanned + [Step(Relocked(Exclusive), Exclusive)] + c.trace == scanned + tail;
    }
    assert CommitsUnderX(tail);
    assert r.trace == scanned + tail;
    assert r.trace[1..] == tail;
  }

  lemma BackgroundTail(head: seq<Step>, tail: seq<Step>)
    requires |head| == 3 && head[0].event.Signalled? && head[1] == Step(Relocked(IntentExclusive), IntentExclusive)
    requires head[2] == Step(Scanned, IntentExclusive) && head[0].mode == Exclusive
    requires CommitsUnderX(tail)
    ensures BackgroundDiscipline(head + tail)
  {
    var t := head + tail;
    forall i | 0 <= i < |t|
      ensures t[i].event.Scanned? ==> i == 2
      ensures IsCommitEvent(t[i].event) ==> t[i].mode == Exclusive
    {
      if i >= |head| {
        assert t[i] == tail[i - |head|];
      }
    }
  }

  /** After a successful `init`, signalling and scanning keep the discipline. */
  lemma ScanAfterSignalDiscipline(req: IndexRequest, o: Oracle)
    ensures BackgroundDiscipline(
      Prefix([Step(Signalled, Exclusive), Step(Relocked(IntentExclusive), IntentExclusive)],
             Scan(req, true, o, IntentExclusive, Flag(true))).trace)
  {
    var s := Scan(req, true, o, IntentExclusive, Flag(true));
    ScanBackground(req, o, Flag(true));
    var tail := s.trace[1..];
    assert s.trace == [s.trace[0]] + tail;
    var signalled := [Step(Signalled, Exclusive), Step(Relocked(IntentExclusive), IntentExclusive), Step(Scanned, IntentExclusive)];
    BackgroundTail(signalled, tail);
    assert [Step(Signalled, Exclusive), Step(Relocked(IntentExclusive), IntentExclusive)] + s.trace == signalled + tail;
  }

  /** `_build` in the background, once `init` has returned, keeps the discipline. */
  lemma AfterInitDiscipline(req: IndexRequest, o: Oracle, flag: Flag, st: Status)
    ensures BackgroundDiscipline(AfterInit(req, true, o, Exclusive, flag, st).trace)
  {
    if !IgnoredInitError(st, req.relaxConstraints) && st.IsOK() && !flag.starting {
      ScanAfterSignalDiscipline(req, o);
    }
  }

  /** `_build` in the background keeps the discipline on its own trace. */
  lemma BuildBackgroundDiscipline(req: IndexRequest, o: Oracle, flag: Flag)
    ensures BackgroundDiscipline(Build(req, true, o, Exclusive, flag).trace)
  {
    if o.collectionFound && WriteConflictRetry(o.initAttempts).Some? && WriteConflictRetry(o.initAttempts).value.Returns? {
      AfterInitDiscipline(req, o, flag, WriteConflictRetry(o.initAttempts).value.status);
    }
  }

  /** A first step that neither scans nor commits keeps the discipline. */
  lemma DisciplineCons(s: Step, t: seq<Step>)
    requires !s.event.Scanned? && !IsCommitEvent(s.event)
    requires BackgroundDiscipline(t)
    ensures BackgroundDiscipline([s] + t)
  {
    var u := [s] + t;
    forall i | 1 <= i < |u|
      ensures u[i] == t[i - 1]
    {
    }
  }

  /**
   * Once the lock is held in `held`, every step's mode is the one the last relock at
   * or before it chose (`held` if there is none), and no step takes the lock anew:
   * the mode recorded in a trace changes only where the lock is relocked.
   */
  predicate ModesFollowRelocks(trace: seq<Step>, held: LockMode)
    decreases |trace|
  {
    trace == [] ||
      (&& !trace[0].event.Locked?
       && trace[0].mode == (if trace[0].event.Relocked? then trace[0].event.mode else held)
       && ModesFollowRelocks(trace[1..], trace[0].mode))
  }

  /** The mode held after `trace`, started under `held`. */
  function LastMode(trace: seq<Step>, held: LockMode): LockMode {
    if trace == [] then held else trace[|trace| - 1].mode
  }

  lemma {:induction false} ModesFollowConcat(a: seq<Step>, b: seq<Step>, held: LockMode)
    requires ModesFollowRelocks(a, held) && ModesFollowRelocks(b, LastMode(a, held))
    ensures ModesFollowRelocks(a + b, held)
    decreases |a|
  {
    if a == [] {
      assert a + b == b;
    } else {
      assert (a + b)[0] == a[0];
      assert (a + b)[1..] == a[1..] + b;
      assert LastMode(a[1..], a[0].mode) == LastMode(a, held);
      ModesFollowConcat(a[1..], b, a[0].mode);
    }
  }

  /** Every step runs under `m`, no step takes the lock, and every relock is to `m`. */
  predicate StaysIn(trace: seq<Step>, m: LockMode) {
    forall i :: 0 <= i < |trace| ==>
      && trace[i].mode == m
      && !trace[i].event.Locked?
      && (trace[i].event.Relocked? ==> trace[i].event.mode == m)
  }

  lemma {:induction false} StaysInFollows(trace: seq<Step>, m: LockMode)
    requires StaysIn(trace, m)
    ensures ModesFollowRelocks(trace, m) && LastMode(trace, m) == m
    decreases |trace|
  {
    if trace != [] {
      assert StaysIn(trace[1..], m) by {
        forall i | 0 <= i < |trace[1..]|
          ensures trace[1..][i] == trace[i + 1]
        {
        }
      }
      StaysInFollows(trace[1..], m);
    }
  }

  lemma CommitStaysInX(req: IndexRequest, o: Oracle, flag: Flag)
    ensures StaysIn(Commit(req, true, o, Exclusive, flag).trace, Exclusive)
  {
  }

  lemma ScanFollowsRelocks(req: IndexRequest, o: Oracle, flag: Flag)
    ensures ModesFollowRelocks(Scan(req, true, o, IntentExclusive, flag).trace, IntentExclusive)
  {
    if o.insert.Returns? && o.insert.status.IsOK() {
      var head := [Step(Scanned, IntentExclusive), Step(Relocked(Exclusive), Exclusive)];
      var c := Commit(req, true, o, Exclusive, flag);
      CommitStaysInX(req, o, flag);
      StaysInFollows(c.trace, Exclusive);
      assert LastMode(head, IntentExclusive) == Exclusive;
      ModesFollowConcat(head, c.trace, IntentExclusive);
      assert [Step(Scanned, IntentExclusive)] + [Step(Relocked(Exclusive), Exclusive)] == head;
    }
  }

  lemma BuildFollowsRelocks(req: IndexRequest, o: Oracle, flag: Flag)
    ensures ModesFollowRelocks(Build(req, true, o, Exclusive, flag).trace, Exclusive)
  {
    if o.collectionFound && WriteConflictRetry(o.initAttempts).Some? && WriteConflictRetry(o.initAttempts).value.Returns? {
      var st := WriteConflictRetry(o.initAttempts).value.status;
      if !IgnoredInitError(st, req.relaxConstraints) && st.IsOK() && !flag.starting {
        var head := [Step(Signalled, Exclusive), Step(Relocked(IntentExclusive), IntentExclusive)];
        ScanFollowsRelocks(req, o, Flag(true));
        assert LastMode(head, Exclusive) == IntentExclusive;
        ModesFollowConcat(head, Scan(req, true, o, IntentExclusive, Flag(true)).trace, Exclusive);
      }
    }
  }

  /**
   * A background build holds X until it has signalled the handshake, scans under IX,
   * and commits under X again; once it holds the lock, the mode changes only where
   * it relocks.
   */
  lemma BackgroundLockOrder(req: IndexRequest, o: Oracle, flag: Flag)
    ensures var r := Run(req, o, flag);
      && |r.trace| > 0 && r.trace[0] == Step(Locked, Exclusive)
      && BackgroundDiscipline(r.trace)
      && ModesFollowRelocks(r.trace[1..], Exclusive)
  {
    var b := Build(req, true, o, Exclusive, flag);
    BuildBackgroundDiscipline(req, o, flag);
    DisciplineCons(Step(Locked, Exclusive), b.trace);
    BuildFollowsRelocks(req, o, flag);
    assert Run(req, o, flag).trace[1..] == b.trace;
  }

  /** Under relock-driven modes, an IX step followed by an X step has a relock to X between. */
  lemma {:induction false} RelockBetween(t: seq<Step>, held: LockMode, i: nat, j: nat)
    requires ModesFollowRelocks(t, held) && i < j < |t|
    requires t[i].mode == IntentExclusive && t[j].mode == Exclusive
    ensures exists m :: i < m <= j && t[m].event == Relocked(Exclusive)
    decreases j
  {
    assert t[1..][0] == t[1];
    if i > 0 {
      RelockBetween(t[1..], t[0].mode, i - 1, j - 1);
      var m :| i - 1 < m <= j - 1 && t[1..][m].event == Relocked(Exclusive);
      assert t[m + 1] == t[1..][m];
    } else if t[1].mode == IntentExclusive {
      RelockBetween(t[1..], t[0].mode, 0, j - 1);
      var m :| 0 < m <= j - 1 && t[1..][m].event == Relocked(Exclusive);
      assert t[m + 1] == t[1..][m];
    }
  }

  /** A trace with the background discipline relocks to X between its scan and any later commit step. */
  lemma DisciplineRelocks(t: seq<Step>, i: nat, j: nat)
    requires BackgroundDiscipline(t) && |t| > 0 && ModesFollowRelocks(t[1..], Exclusive)
    requires i < j < |t| && t[i].event.Scanned? && IsCommitEvent(t[j].event)
    ensures exists m :: i < m < j && t[m].event == Relocked(Exclusive)
  {
    assert i >= 1 && t[i].mode == IntentExclusive && t[j].mode == Exclusive;
    assert t[1..][i - 1] == t[i] && t[1..][j - 1] == t[j];
    RelockBetween(t[1..], Exclusive, i - 1, j - 1);
    var m :| i - 1 < m <= j - 1 && t[1..][m].event == Relocked(Exclusive);
    assert t[m + 1] == t[1..][m];
  }

  /**
   * In a background run, every commit-phase step that follows the scan is preceded,
   * after the scan, by the relock to X.
   */
  lemma BackgroundRelocksBeforeCommit(req: IndexRequest, o: Oracle, flag: Flag, i: nat, j: nat)
    requires var t := Run(req, o, flag).trace;
      i < j < |t| && t[i].event.Scanned? && IsCommitEvent(t[j].event)
    ensures var t := Run(req, o, flag).trace;
      exists m :: i < m < j && t[m].event == Relocked(Exclusive)
  {
    BackgroundLockOrder(req, o, flag);
    DisciplineRelocks(Run(req, o, flag).trace, i, j);
  }

  // ---------------------------------------------------------------------------
  // Outcomes
  // ---------------------------------------------------------------------------

  /** The collection exists and `init`, retried over write conflicts, returned `st`. */
  predicate InitReturned(o: Oracle, st: Status) {
    o.collectionFound && WriteConflictRetry(o.initAttempts) == Some(Returns(st))
  }

  /**
   * An ignored `init` error ends the build with OK before any scan or commit; in the
   * background the handshake is still signalled so a waiter is released.
   */
  lemma IgnoredInitSkipsScan(req: IndexRequest, background: bool, o: Oracle, mode: LockMode, flag: Flag, st: Status)
    requires background ==> mode == Exclusive
    requires InitReturned(o, st) && IgnoredInitError(st, req.relaxConstraints)
    ensures var r := Build(req, background, o, mode, flag);
      && !Occurs(r.trace, Scanned) && !Occurs(r.trace, IndexerCommitted)
      && (!background ==> r == BuildRun(Finished(Status(OK)), [], flag))
      && (background && !flag.starting ==>
            r == BuildRun(Finished(Status(OK)), [Step(Signalled, Exclusive)], Flag(true)))
      && (background && flag.starting ==> r.outcome == Crashed(InvariantFailure))
  {
  }

  /**
   * Any other failed `init`, `IndexOptionsConflict` without relaxed constraints
   * included, goes to `_failIndexBuild` before anything is scanned or signalled.
   */
  lemma InitFailureRouted(req: IndexRequest, background: bool, o: Oracle, mode: LockMode, flag: Flag, st: Status)
    requires background ==> mode == Exclusive
    requires InitReturned(o, st) && !IgnoredInitError(st, req.relaxConstraints) && !st.IsOK()
    ensures var r := Build(req, background, o, mode, flag);
      && r.outcome == FailIndexBuild(st, background).outcome
      && r.flag == flag
      && !Occurs(r.trace, Scanned) && !Occurs(r.trace, Signalled)
  {
  }

  /** A scan that returns an error goes to `_failIndexBuild`, after the signal in the background. */
  lemma ScanFailureRouted(req: IndexRequest, background: bool, o: Oracle, mode: LockMode, flag: Flag, st: Status)
    requires background ==> mode == Exclusive && !flag.starting
    requires InitReturned(o, Status(OK)) && o.insert == Returns(st) && !st.IsOK()
    ensures var r := Build(req, background, o, mode, flag);
      && r.outcome == FailIndexBuild(st, background).outcome
      && !Occurs(r.trace, IndexerCommitted)
      && (background ==> r.flag.starting)
  {
    assert !IgnoredInitError(Status(OK), req.relaxConstraints);
  }

  /**
   * A status that one of the indexer's calls that actually ran threw: the `init`
   * attempt `writeConflictRetry` settled on, or the scan once `init` succeeded.
   */
  predicate Thrown(o: Oracle, st: ErrorStatus) {
    (o.collectionFound && WriteConflictRetry(o.initAttempts) == Some(Throws(st)))
    || (InitReturned(o, Status(OK)) && o.insert == Throws(st))
  }

  lemma CommitBackgroundStatus(req: IndexRequest, o: Oracle, flag: Flag)
    ensures var r := Commit(req, true, o, Exclusive, flag);
      r.outcome.Finished? && !r.outcome.status.IsOK() ==> IsInterruption(r.outcome.status.code)
  {
  }

  /**
   * The commit phase always commits the indexer. With the gate off or the timestamp
   * set it commits the unit of work and ends as `Finish` does; a fatal answer of
   * `setTimestamp` is fassert 50701 and an interrupted retry returns the interruption,
   * both before the unit commits.
   */
  lemma CommitOutcome(req: IndexRequest, background: bool, o: Oracle, mode: LockMode, flag: Flag)
    ensures var c := Commit(req, background, o, mode, flag);
      var gate := RequiresGhostCommitTimestamp(req.ns, o.repl);
      var loop := TimestampLoop(o.timestampResults, o.interruptChecks);
      && Occurs(c.trace, IndexerCommitted)
      && ((!gate || loop.Stamped?) ==>
            c.outcome == Finish(background, o, mode, flag).outcome && Occurs(c.trace, UnitCommitted))
      && (gate && loop.TimestampFatal? ==>
            c.outcome == Crashed(Fassert(TimestampFassert)) && !Occurs(c.trace, UnitCommitted))
      && (gate && loop.TimestampInterrupted? ==>
            c.outcome == Finished(loop.interrupt) && !Occurs(c.trace, UnitCommitted))
      && (gate && loop.TimestampPending? ==> c.outcome == Pending)
  {
    var c := Commit(req, background, o, mode, flag);
    assert c.trace[0] == Step(IndexerCommitted, mode);
    var f := Finish(background, o, mode, flag);
    assert f.trace[0] == Step(UnitCommitted, mode);
    if RequiresGhostCommitTimestamp(req.ns, o.repl) {
      if TimestampLoop(o.timestampResults, o.interruptChecks).Stamped? {
        assert c.trace[2] == f.trace[0];
      }
    } else {
      assert c.trace[1] == f.trace[0];
    }
  }

  /** Once `init` and the scan succeed, `_build` ends as its commit phase does. */
  lemma ReachesCommit(req: IndexRequest, background: bool, o: Oracle, mode: LockMode, flag: Flag)
    requires background ==> mode == Exclusive && !flag.starting
    requires InitReturned(o, Status(OK)) && o.insert == Returns(Status(OK))
    ensures var r := Build(req, background, o, mode, flag);
      var c := Commit(req, background, o, mode, if background then Flag(true) else flag);
      && r.outcome == c.outcome
      && (Occurs(c.trace, IndexerCommitted) ==> Occurs(r.trace, IndexerCommitted))
      && (Occurs(r.trace, UnitCommitted) <==> Occurs(c.trace, UnitCommitted))
  {
    assert !IgnoredInitError(Status(OK), req.relaxConstraints);
    var c := Commit(req, background, o, mode, if background then Flag(true) else flag);
    var pre := if background then
        [Step(Signalled, mode), Step(Relocked(IntentExclusive), IntentExclusive),
         Step(Scanned, IntentExclusive), Step(Relocked(Exclusive), Exclusive)]
      else [Step(Scanned, mode)];
    assert Build(req, background, o, mode, flag).trace == pre + c.trace;
    assert !Occurs(pre, UnitCommitted);
    OccursConcat(pre, c.trace, IndexerCommitted);
    OccursConcat(pre, c.trace, UnitCommitted);
  }

  /**
   * A build whose `init` and scan succeed, and whose commit needs no timestamp or
   * gets one, commits the unit of work and ends as `Finish` does: OK in the
   * foreground, and in the background OK iff the catalog still resolves.
   */
  lemma SuccessfulBuildCommits(req: IndexRequest, background: bool, o: Oracle, mode: LockMode, flag: Flag)
    requires background ==> mode == Exclusive && !flag.starting
    requires InitReturned(o, Status(OK)) && o.insert == Returns(Status(OK))
    requires !RequiresGhostCommitTimestamp(req.ns, o.repl) || TimestampLoop(o.timestampResults, o.interruptChecks).Stamped?
    ensures var r := Build(req, background, o, mode, flag);
      && Occurs(r.trace, IndexerCommitted) && Occurs(r.trace, UnitCommitted)
      && r.outcome == Finish(background, o, mode, flag).outcome
      && (!background ==> r.outcome == Finished(Status(OK)))
      && (background ==> (r.outcome == Finished(Status(OK)) <==> o.databaseAfter && o.collectionAfter))
  {
    ReachesCommit(req, background, o, mode, flag);
    CommitOutcome(req, background, o, mode, if background then Flag(true) else flag);
  }

  /**
   * A build whose `init` and scan succeed, but whose required timestamp gets an
   * answer that is neither OK nor BadValue, fails fassert 50701 before the unit of
   * work commits, in `_build` and in `run` alike.
   */
  lemma FatalTimestampAnswerIsFassert(req: IndexRequest, background: bool, o: Oracle, mode: LockMode, flag: Flag)
    requires background ==> mode == Exclusive && !flag.starting
    requires InitReturned(o, Status(OK)) && o.insert == Returns(Status(OK))
    requires RequiresGhostCommitTimestamp(req.ns, o.repl) && TimestampLoop(o.timestampResults, o.interruptChecks).TimestampFatal?
    ensures var r := Build(req, background, o, mode, flag);
      && r.outcome == Crashed(Fassert(TimestampFassert))
      && Occurs(r.trace, IndexerCommitted) && !Occurs(r.trace, UnitCommitted)
    ensures background ==> Run(req, o, flag).outcome == Crashed(Fassert(TimestampFassert))
  {
    ReachesCommit(req, background, o, mode, flag);
    CommitOutcome(req, background, o, mode, if background then Flag(true) else flag);
  }

  /**
   * A background build that returns an error returns an interruption, or a status
   * an indexer call threw: every other error has already been fatal.
   */
  lemma BackgroundErrorsAreInterruptions(req: IndexRequest, o: Oracle, flag: Flag)
    ensures var r := Build(req, true, o, Exclusive, flag);
      r.outcome.Finished? && !r.outcome.status.IsOK() ==>
        IsInterruption(r.outcome.status.code) || Thrown(o, r.outcome.status)
  {
    CommitBackgroundStatus(req, o, flag);
  }

  /**
   * `run` hits fassert 28555 only when an indexer call threw something other than an
   * interruption; so if nothing throws, a background build never fails that way.
   */
  lemma RunFatalOnlyOnThrownErrors(req: IndexRequest, o: Oracle, flag: Flag)
    ensures Run(req, o, flag).outcome == Crashed(Fassert(RunFailureFassert)) ==>
      exists st: ErrorStatus :: Thrown(o, st) && !IsInterruption(st.code)
    ensures var b := Build(req, true, o, Exclusive, flag);
      b.outcome.Finished? && !b.outcome.status.IsOK() && !IsInterruption(b.outcome.status.code) ==>
        Run(req, o, flag).outcome == Crashed(Fassert(RunFailureFassert))
  {
    BackgroundErrorsAreInterruptions(req, o, flag);
    var b := Build(req, true, o, Exclusive, flag);
    if Run(req, o, flag).outcome == Crashed(Fassert(RunFailureFassert)) {
      assert b.outcome.Finished?;
      assert Thrown(o, b.outcome.status);
    }
  }

  /** A scan that throws a BadValue in the background brings the server down in `run`. */
  lemma ThrownScanErrorIsFatal(req: IndexRequest, o: Oracle, flag: Flag)
    requires InitReturned(o, Status(OK)) && !flag.starting
    requires o.insert == Throws(Status(BadValue))
    ensures Run(req, o, flag).outcome == Crashed(Fassert(RunFailureFassert))
  {
    assert !IgnoredInitError(Status(OK), req.relaxConstraints);
  }

  /** Each unit commit comes right after the ghost timestamp was set. */
  predicate StampedBeforeUnit(trace: seq<Step>) {
    forall i :: 0 <= i < |trace| && trace[i].event.UnitCommitted? ==> i >= 1 && trace[i - 1].event.TimestampSet?
  }

  predicate Lacks(trace: seq<Step>, e: Event) {
    forall i :: 0 <= i < |trace| ==> trace[i].event != e
  }

  lemma StampedConcat(a: seq<Step>, b: seq<Step>)
    requires Lacks(a, UnitCommitted) && StampedBeforeUnit(b)
    ensures StampedBeforeUnit(a + b)
  {
    var t := a + b;
    forall i | 0 <= i < |t| && t[i].event.UnitCommitted?
      ensures i >= 1 && t[i - 1].event.TimestampSet?
    {
      if i >= |a| {
        assert t[i] == b[i - |a|];
        assert t[i - 1] == b[i - |a| - 1];
      }
    }
  }

  lemma LacksConcat(a: seq<Step>, b: seq<Step>, e: Event)
    requires Lacks(a, e) && Lacks(b, e)
    ensures Lacks(a + b, e)
  {
    forall i | 0 <= i < |a + b|
      ensures (a + b)[i].event != e
    {
      if i >= |a| {
        assert (a + b)[i] == b[i - |a|];
      }
    }
  }

  lemma CommitStamps(req: IndexRequest, background: bool, o: Oracle, mode: LockMode, flag: Flag)
    ensures var r := Commit(req, background, o, mode, flag);
      && (RequiresGhostCommitTimestamp(req.ns, o.repl) ==> StampedBeforeUnit(r.trace))
      && (!RequiresGhostCommitTimestamp(req.ns, o.repl) ==> Lacks(r.trace, TimestampSet))
  {
    var committed := [Step(IndexerCommitted, mode)];
    var fin := Finish(background, o, mode, flag);
    var stamped := committed + [Step(TimestampSet, mode)];
    assert StampedBeforeUnit(stamped + fin.trace) by {
      if background {
        assert stamped + fin.trace == [Step(IndexerCommitted, mode), Step(TimestampSet, mode),
                                       Step(UnitCommitted, mode), Step(Relocked(Exclusive), Exclusive)];
      } else {
        assert stamped + fin.trace == [Step(IndexerCommitted, mode), Step(TimestampSet, mode), Step(UnitCommitted, mode)];
      }
    }
    LacksConcat(committed, fin.trace, TimestampSet);
  }

  lemma ScanStamps(req: IndexRequest, background: bool, o: Oracle, mode: LockMode, flag: Flag)
    ensures var r := Scan(req, background, o, mode, flag);
      && (RequiresGhostCommitTimestamp(req.ns, o.repl) ==> StampedBeforeUnit(r.trace))
      && (!RequiresGhostCommitTimestamp(req.ns, o.repl) ==> Lacks(r.trace, TimestampSet))
  {
    var scanned := [Step(Scanned, mode)];
    var cmode := if background then Exclusive else mode;
    var pre := if background then scanned + [Step(Relocked(Exclusive), Exclusive)] else scanned;
    var c := Commit(req, background, o, cmode, flag);
    CommitStamps(req, background, o, cmode, flag);
    if RequiresGhostCommitTimestamp(req.ns, o.repl) {
      StampedConcat(pre, c.trace);
    } else {
      LacksConcat(pre, c.trace, TimestampSet);
    }
    if o.insert.Returns? && !o.insert.status.IsOK() {
      var f := Fail(o.insert.status, background, mode, flag);
      LacksConcat(scanned, f.trace, TimestampSet);
      LacksConcat(scanned, f.trace, UnitCommitted);
    }
  }

  /**
   * When the ghost-timestamp gate holds, the unit of work commits only right after
   * the timestamp was set; when it does not, no timestamp is set at all.
   */
  lemma GhostTimestampBeforeCommit(req: IndexRequest, background: bool, o: Oracle, mode: LockMode, flag: Flag)
    requires background ==> mode == Exclusive
    ensures var r := Build(req, background, o, mode, flag);
      && (RequiresGhostCommitTimestamp(req.ns, o.repl) ==> StampedBeforeUnit(r.trace))
      && (!RequiresGhostCommitTimestamp(req.ns, o.repl) ==> Lacks(r.trace, TimestampSet))
  {
    ScanStamps(req, background, o, if background then IntentExclusive else mode, Flag(true));
    ScanStamps(req, background, o, mode, flag);
    if background && InitReturned(o, Status(OK)) && !flag.starting {
      var s := Scan(req, true, o, IntentExclusive, Flag(true));
      var pre := [Step(Signalled, mode), Step(Relocked(IntentExclusive), IntentExclusive)];
      if RequiresGhostCommitTimestamp(req.ns, o.repl) {
        StampedConcat(pre, s.trace);
      } else {
        LacksConcat(pre, s.trace, TimestampSet);
      }
    }
  }

  lemma FinishChecksCatalog(o: Oracle, flag: Flag)
    ensures var r := Finish(true, o, Exclusive, flag);
      && (r.outcome.Finished? <==> o.databaseAfter && o.collectionAfter)
      && (!o.databaseAfter ==> r.outcome == Crashed(Fassert(DatabaseGoneFassert)))
      && (o.databaseAfter && !o.collectionAfter ==> r.outcome == Crashed(Fassert(CollectionGoneFassert)))
  {
  }

  lemma OccursConcat(a: seq<Step>, b: seq<Step>, e: Event)
    ensures Occurs(a + b, e) <==> Occurs(a, e) || Occurs(b, e)
  {
    if Occurs(a + b, e) {
      var i :| 0 <= i < |a + b| && (a + b)[i].event == e;
      if i >= |a| {
        assert (a + b)[i] == b[i - |a|];
      }
    }
    if Occurs(a, e) {
      var i :| 0 <= i < |a| && a[i].event == e;
      assert (a + b)[i] == a[i];
    }
    if Occurs(b, e) {
      var i :| 0 <= i < |b| && b[i].event == e;
      assert (a + b)[i + |a|] == b[i];
    }
  }

  /** A commit phase that committed the unit of work ends as `Finish` does. */
  lemma CommitReachesFinish(req: IndexRequest, o: Oracle, flag: Flag)
    ensures var c := Commit(req, true, o, Exclusive, flag);
      Occurs(c.trace, UnitCommitted) ==> c.outcome == Finish(true, o, Exclusive, flag).outcome
  {
    var committed := [Step(IndexerCommitted, Exclusive)];
    assert !Occurs(committed, UnitCommitted);
  }

  /** A scan whose build committed the unit of work ends as `Finish` does. */
  lemma ScanReachesFinish(req: IndexRequest, o: Oracle, flag: Flag)
    ensures var s := Scan(req, true, o, IntentExclusive, flag);
      Occurs(s.trace, UnitCommitted) ==> s.outcome == Finish(true, o, Exclusive, flag).outcome
  {
    var scanned := [Step(Scanned, IntentExclusive)];
    var relocked := scanned + [Step(Relocked(Exclusive), Exclusive)];
    assert !Occurs(relocked, UnitCommitted);
    if o.insert.Returns? && !o.insert.status.IsOK() {
      var f := Fail(o.insert.status, true, IntentExclusive, flag);
      assert !Occurs(f.trace, UnitCommitted);
      OccursConcat(scanned, f.trace, UnitCommitted);
    } else if o.insert.Returns? {
      CommitReachesFinish(req, o, flag);
      OccursConcat(relocked, Commit(req, true, o, Exclusive, flag).trace, UnitCommitted);
    }
  }

  /** A background `_build` that committed the unit of work ends as `Finish` does. */
  lemma BuildReachesFinish(req: IndexRequest, o: Oracle, flag: Flag)
    ensures var b := Build(req, true, o, Exclusive, flag);
      Occurs(b.trace, UnitCommitted) ==> b.outcome == Finish(true, o, Exclusive, Flag(true)).outcome
  {
    if o.collectionFound && WriteConflictRetry(o.initAttempts).Some? && WriteConflictRetry(o.initAttempts).value.Returns? {
      var st := WriteConflictRetry(o.initAttempts).value.status;
      if !IgnoredInitError(st, req.relaxConstraints) && !st.IsOK() {
        assert !Occurs(Fail(st, true, Exclusive, flag).trace, UnitCommitted);
      } else if !IgnoredInitError(st, req.relaxConstraints) && !flag.starting {
        var head := [Step(Signalled, Exclusive), Step(Relocked(IntentExclusive), IntentExclusive)];
        assert !Occurs(head, UnitCommitted);
        ScanReachesFinish(req, o, Flag(true));
        OccursConcat(head, Scan(req, true, o, IntentExclusive, Flag(true)).trace, UnitCommitted);
      }
    }
  }

  /**
   * A background build that committed returns OK only if the database and the
   * collection still resolve afterwards; otherwise it fails fassert 28553 or 28554.
   */
  lemma BackgroundRechecksCatalog(req: IndexRequest, o: Oracle, flag: Flag)
    ensures var r := Run(req, o, flag);
      Occurs(r.trace, UnitCommitted) ==>
        && (r.outcome == Finished(Status(OK)) <==> o.databaseAfter && o.collectionAfter)
        && (!o.databaseAfter ==> r.outcome == Crashed(Fassert(DatabaseGoneFassert)))
        && (o.databaseAfter && !o.collectionAfter ==> r.outcome == Crashed(Fassert(CollectionGoneFassert)))
  {
    var b := Build(req, true, o, Exclusive, flag);
    BuildReachesFinish(req, o, flag);
    FinishChecksCatalog(o, Flag(true));
    OccursConcat([Step(Locked, Exclusive)], b.trace, UnitCommitted);
    assert !Occurs([Step(Locked, Exclusive)], UnitCommitted);
  }

  /**
   * A background build that signalled leaves the flag raised, so the spawning
   * thread's wait returns and lowers it again.
   */
  lemma SignalReleasesWaiter(req: IndexRequest, o: Oracle)
    ensures var r := Run(req, o, Initial);
      Occurs(r.trace, Signalled) ==> r.flag.starting && Play(r.flag, [Wait]) == Running(Initial)
  {
    var r := Run(req, o, Initial);
    if Occurs(r.trace, Signalled) {
      var i :| 0 <= i < |r.trace| && r.trace[i].event == Signalled;
      assert InitReturned(o, Status(OK)) || (o.collectionFound && WriteConflictRetry(o.initAttempts).Some?
               && WriteConflictRetry(o.initAttempts).value.Returns?
               && IgnoredInitError(WriteConflictRetry(o.initAttempts).value.status, req.relaxConstraints));
    }
  }

  /**
   * A background build interrupted by shutdown during `init` abandons the build and
   * never signals: a thread waiting for the handshake stays blocked.
   */
  lemma ShutdownDuringInitStrandsWaiter(req: IndexRequest, o: Oracle)
    requires InitReturned(o, Status(InterruptedAtShutdown))
    ensures var r := Run(req, o, Initial);
      && r.outcome == Finished(Status(InterruptedAtShutdown))
      && r.trace == [Step(Locked, Exclusive), Step(AbortedWithoutCleanup, Exclusive)]
      && r.flag == Initial
      && Play(r.flag, [Wait]) == Blocked
  {
    assert !IgnoredInitError(Status(InterruptedAtShutdown), req.relaxConstraints);
    WaitBeforeSignalBlocks([]);
    assert [Wait] + [] == [Wait];
  }
}
