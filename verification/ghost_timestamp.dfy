/**
 * Timestamping the commit of an index build that no oplog entry timestamps: the
 * five-condition gate `requiresGhostCommitTimestamp`, and the `tryTimestamp` loop
 * that reads the cluster time and retries while the storage engine answers BadValue.
 */
module GhostTimestamp {
  import opened Wrappers
  import opened ErrorCodes

  /** The replica-set member states; only the two startup states matter here. */
  datatype MemberState =
    | Startup
    | Primary
    | Secondary
    | Recovering
    | Startup2
    | Unknown
    | Arbiter
    | Down
    | Rollback
    | Removed

  /** A namespace: `isReplicated()` is a property of the name the model takes as given. */
  datatype Namespace = Namespace(db: string, coll: string, replicated: bool)

  /**
   * What the gate asks of the operation and the replication coordinator: whether
   * replica sets are in use, whether the recovery unit already has a commit
   * timestamp, and the member state.
   */
  datatype ReplContext = ReplContext(usingReplSets: bool, hasCommitTimestamp: bool, memberState: MemberState)

  /** The prefix of collections that map-reduce uses for its temporary output. */
  const MapReducePrefix: string := "tmp.mr."

  predicate StartsWith(s: string, prefix: string) {
    |prefix| <= |s| && s[..|prefix|] == prefix
  }

  /** `requiresGhostCommitTimestamp`, in the order the source tests its conditions. */
  function RequiresGhostCommitTimestamp(ns: Namespace, ctx: ReplContext): (r: bool)
    ensures r <==>
      && ns.replicated
      && !StartsWith(ns.coll, MapReducePrefix)
      && ctx.usingReplSets
      && !ctx.hasCommitTimestamp
      && ctx.memberState != Startup
      && ctx.memberState != Startup2
  {
    if !ns.replicated || StartsWith(ns.coll, MapReducePrefix) then false
    else if !ctx.usingReplSets then false
    else if ctx.hasCommitTimestamp then false
    else if ctx.memberState == Startup || ctx.memberState == Startup2 then false
    else true
  }

  /** A map-reduce output collection is never ghost-timestamped, whatever else holds. */
  lemma MapReduceOutputNotTimestamped(ns: Namespace, ctx: ReplContext, suffix: string)
    requires ns.coll == MapReducePrefix + suffix
    ensures !RequiresGhostCommitTimestamp(ns, ctx)
  {
    assert ns.coll[..|MapReducePrefix|] == MapReducePrefix;
  }

  /**
   * A collection whose name only resembles the prefix (one character short of it)
   * is timestamped like any other.
   */
  lemma NearMissPrefixTimestamped(ctx: ReplContext)
    requires ctx.usingReplSets && !ctx.hasCommitTimestamp && ctx.memberState == Primary
    ensures RequiresGhostCommitTimestamp(Namespace("test", "tmp.mr", true), ctx)
  {
  }

  /** The interrupt check: None when the operation may go on, else the status it throws. */
  type InterruptStatus = s: Status | IsInterruption(s.code) witness Status(Interrupted)

  /** The fassert the loop hits when setting the timestamp fails other than with BadValue. */
  const TimestampFassert: nat := 50701

  datatype TimestampOutcome =
    | Stamped(attempts: nat)
    | TimestampFatal(status: Status)
    | TimestampInterrupted(interrupt: InterruptStatus)
    | TimestampPending

  /** The outcome seen from i attempts earlier. */
  function Shift(r: TimestampOutcome, i: nat): TimestampOutcome {
    match r
    case Stamped(n) => Stamped(n + i)
    case other => other
  }

  /**
   * `while (!tryTimestamp()) opCtx->checkForInterrupt();` given the answers of
   * `setTimestamp` and of the interrupt checks in order. TimestampPending is a loop
   * that is still retrying when the answers run out.
   */
  function TimestampLoop(results: seq<Status>, checks: seq<Option<InterruptStatus>>): TimestampOutcome
    decreases |results|
  {
    if results == [] then TimestampPending
    else if results[0].code == BadValue then
      if checks == [] then TimestampPending
      else if checks[0].Some? then TimestampInterrupted(checks[0].value)
      else Shift(TimestampLoop(results[1..], checks[1..]), 1)
    else if !results[0].IsOK() then TimestampFatal(results[0])
    else Stamped(1)
  }

  /** All of the first n answers are BadValue and all of the first n checks pass. */
  predicate Retried(results: seq<Status>, checks: seq<Option<InterruptStatus>>, n: nat) {
    && n <= |results| && n <= |checks|
    && (forall i :: 0 <= i < n ==> results[i].code == BadValue)
    && (forall i :: 0 <= i < n ==> checks[i].None?)
  }

  /**
   * The loop ends at the first answer that is not BadValue: stamped on OK after that
   * many attempts, fatal on any other error; or at the first interrupt check that
   * throws after a BadValue.
   */
  lemma {:induction false} TimestampLoopSpec(results: seq<Status>, checks: seq<Option<InterruptStatus>>)
    ensures var r := TimestampLoop(results, checks);
      && (r.Stamped? ==>
            && 1 <= r.attempts <= |results|
            && Retried(results, checks, r.attempts - 1)
            && results[r.attempts - 1].IsOK())
      && (r.TimestampFatal? ==>
            exists k: nat :: Retried(results, checks, k) && k < |results|
              && results[k] == r.status && !r.status.IsOK() && r.status.code != BadValue)
      && (r.TimestampInterrupted? ==>
            exists k: nat :: Retried(results, checks, k) && k < |results| && k < |checks|
              && results[k].code == BadValue && checks[k] == Some(r.interrupt))
      && (r.TimestampPending? ==>
            exists k: nat :: Retried(results, checks, k)
              && (k == |results| || (k < |results| && results[k].code == BadValue && k == |checks|)))
    decreases |results|
  {
    var r := TimestampLoop(results, checks);
    if results != [] && results[0].code == BadValue && checks != [] && checks[0].None? {
      var r' := TimestampLoop(results[1..], checks[1..]);
      TimestampLoopSpec(results[1..], checks[1..]);
      match r'
      case Stamped(n) =>
        RetriedCons(results, checks, n - 1);
      case TimestampFatal(st) =>
        var k: nat :| Retried(results[1..], checks[1..], k) && k < |results[1..]|
          && results[1..][k] == st && !st.IsOK() && st.code != BadValue;
        RetriedCons(results, checks, k);
      case TimestampInterrupted(st) =>
        var k: nat :| Retried(results[1..], checks[1..], k) && k < |results[1..]| && k < |checks[1..]|
          && results[1..][k].code == BadValue && checks[1..][k] == Some(st);
        RetriedCons(results, checks, k);
      case TimestampPending =>
        var k: nat :| Retried(results[1..], checks[1..], k)
          && (k == |results[1..]| || (k < |results[1..]| && results[1..][k].code == BadValue && k == |checks[1..]|));
        RetriedCons(results, checks, k);
    } else if results != [] && results[0].code != BadValue && !results[0].IsOK() {
      assert Retried(results, checks, 0);
    } else if results != [] && results[0].code == BadValue && checks != [] {
      assert Retried(results, checks, 0);
    } else if results == [] || (results[0].code == BadValue && checks == []) {
      assert Retried(results, checks, 0);
    }
  }

  /**
   * Conversely, once k answers were BadValue with a passing check each, the answer at
   * k decides: OK stamps after k + 1 attempts, any other error but BadValue is fatal,
   * a BadValue followed by a throwing check is interrupted, and a BadValue with no
   * check left is still retrying.
   */
  lemma {:induction false} TimestampLoopDecides(results: seq<Status>, checks: seq<Option<InterruptStatus>>, k: nat)
    requires Retried(results, checks, k) && k < |results|
    ensures results[k].IsOK() ==> TimestampLoop(results, checks) == Stamped(k + 1)
    ensures !results[k].IsOK() && results[k].code != BadValue ==>
      TimestampLoop(results, checks) == TimestampFatal(results[k])
    ensures results[k].code == BadValue && k < |checks| && checks[k].Some? ==>
      TimestampLoop(results, checks) == TimestampInterrupted(checks[k].value)
    ensures results[k].code == BadValue && k == |checks| ==> TimestampLoop(results, checks) == TimestampPending
    decreases k
  {
    if k > 0 {
      RetriedTail(results, checks, k);
      TimestampLoopDecides(results[1..], checks[1..], k - 1);
      assert results[1..][k - 1] == results[k];
      assert k - 1 < |checks[1..]| ==> checks[1..][k - 1] == checks[k];
      assert TimestampLoop(results, checks) == Shift(TimestampLoop(results[1..], checks[1..]), 1);
    }
  }

  lemma RetriedTail(results: seq<Status>, checks: seq<Option<InterruptStatus>>, n: nat)
    requires n > 0 && Retried(results, checks, n)
    ensures results[0].code == BadValue && checks[0].None?
    ensures Retried(results[1..], checks[1..], n - 1)
  {
    forall i | 0 <= i < n - 1
      ensures results[1..][i].code == BadValue && checks[1..][i].None?
    {
      assert results[1..][i] == results[i + 1];
      assert checks[1..][i] == checks[i + 1];
    }
  }

  lemma RetriedCons(results: seq<Status>, checks: seq<Option<InterruptStatus>>, n: nat)
    requires results != [] && checks != []
    requires results[0].code == BadValue && checks[0].None?
    requires Retried(results[1..], checks[1..], n)
    ensures Retried(results, checks, n + 1)
  {
    forall i | 0 <= i < n + 1
      ensures results[i].code == BadValue && checks[i].None?
    {
      if i > 0 {
        assert results[i] == results[1..][i - 1];
        assert checks[i] == checks[1..][i - 1];
      }
    }
  }

  /**
   * An accepted first timestamp stamps in one attempt; a BadValue costs one interrupt
   * check and a retry; any other error is fatal at once.
   */
  lemma TimestampLoopExamples(rest: seq<Status>, checks: seq<Option<InterruptStatus>>)
    ensures TimestampLoop([Status(OK)] + rest, checks) == Stamped(1)
    ensures TimestampLoop([Status(BadValue), Status(OK)], [None]) == Stamped(2)
    ensures TimestampLoop([Status(BadValue), Status(OK)], [Some(Status(Interrupted))])
            == TimestampInterrupted(Status(Interrupted))
    ensures TimestampLoop([Status(InternalError)] + rest, checks) == TimestampFatal(Status(InternalError))
  {
    assert [Status(BadValue), Status(OK)][1..] == [Status(OK)];
  }

  /** The loop as the server runs it, one `tryTimestamp` per iteration. */
  method TryTimestampUntilSet(results: seq<Status>, checks: seq<Option<InterruptStatus>>)
    returns (r: TimestampOutcome)
    ensures r == TimestampLoop(results, checks)
  {
    var i := 0;
    while i < |results| && results[i].code == BadValue && i < |checks| && checks[i].None?
      invariant 0 <= i <= |results| && i <= |checks|
      invariant TimestampLoop(results, checks) == Shift(TimestampLoop(results[i..], checks[i..]), i)
      decreases |results| - i
    {
      assert results[i..][1..] == results[i + 1..];
      assert checks[i..][1..] == checks[i + 1..];
      ShiftShift(TimestampLoop(results[i + 1..], checks[i + 1..]), 1, i);
      i := i + 1;
    }
    if i == |results| {
      assert results[i..] == [];
      r := TimestampPending;
    } else if results[i].code == BadValue {
      if i == |checks| {
        assert checks[i..] == [];
        r := TimestampPending;
      } else {
        r := TimestampInterrupted(checks[i].value);
      }
    } else if !results[i].IsOK() {
      r := TimestampFatal(results[i]);
    } else {
      r := Stamped(i + 1);
    }
  }

  lemma ShiftShift(r: TimestampOutcome, i: nat, j: nat)
    ensures Shift(Shift(r, i), j) == Shift(r, i + j)
  {
  }
}
