/**
 * The start handshake between replication and a background index build it spawns:
 * one boolean, `_bgIndexStarting`, guarded by a mutex and a condition variable. The
 * build raises it once `init` is past; the spawning thread waits for it and lowers it
 * again. The mutex and the condition variable are not modelled: what the waiter sees
 * each time it looks at the flag is an input.
 */
module BgIndexStarting {
  import opened Wrappers

  datatype Flag = Flag(starting: bool)

  /** The flag's value at process start. */
  const Initial: Flag := Flag(false)

  datatype SetResult = Raised(flag: Flag) | InvariantViolated

  /** `_setBgIndexStarting`: the flag must be down (an invariant), and it goes up. */
  function SetBgIndexStarting(f: Flag): (r: SetResult)
    ensures r.Raised? <==> !f.starting
    ensures r.Raised? ==> r.flag.starting
  {
    if f.starting then InvariantViolated else Raised(Flag(true))
  }

  /** One look of `waitForBgIndexStarting` at the flag: None means it goes back to sleep. */
  function ConsumeBgIndexStarting(f: Flag): (r: Option<Flag>)
    ensures r.Some? <==> f.starting
    ensures r.Some? ==> !r.value.starting
  {
    if f.starting then Some(Flag(false)) else None
  }

  /** The first look that finds the flag up, if any. */
  function FirstRaised(observed: seq<Flag>): (r: Option<nat>)
    ensures r.Some? <==> exists i :: 0 <= i < |observed| && observed[i].starting
    ensures r.Some? ==> r.value < |observed| && observed[r.value].starting
    ensures r.Some? ==> forall j :: 0 <= j < r.value ==> !observed[j].starting
  {
    if observed == [] then None
    else if observed[0].starting then Some(0)
    else match FirstRaised(observed[1..])
      case None => None
      case Some(k) => Some(k + 1)
  }

  /**
   * `waitForBgIndexStarting`, given the flag as seen at the first look and after each
   * wake-up. It returns the flag it leaves behind (None while it is still waiting when
   * the looks run out) and the number of the look that ended the wait.
   */
  method WaitForBgIndexStarting(observed: seq<Flag>) returns (after: Option<Flag>, looks: nat)
    ensures after.Some? <==> FirstRaised(observed).Some?
    ensures after.Some? ==> !after.value.starting && looks == FirstRaised(observed).value
  {
    var i := 0;
    while i < |observed| && !observed[i].starting
      invariant 0 <= i <= |observed|
      invariant forall j :: 0 <= j < i ==> !observed[j].starting
    {
      i := i + 1;
    }
    if i == |observed| {
      return None, i;
    }
    FirstRaisedIsFirst(observed, i);
    after := ConsumeBgIndexStarting(observed[i]);
    looks := i;
  }

  /** The first raised look is the one a left-to-right scan stops at. */
  lemma FirstRaisedIsFirst(observed: seq<Flag>, i: nat)
    requires i < |observed| && observed[i].starting
    requires forall j :: 0 <= j < i ==> !observed[j].starting
    ensures FirstRaised(observed) == Some(i)
  {
  }

  /** The two sides of the handshake, in the order their critical sections run. */
  datatype Action = Signal | Wait

  datatype Handshake = Running(flag: Flag) | Tripped | Blocked

  /**
   * The flag after a sequence of critical sections: a signal on a raised flag
   * crashes, and a wait on a lowered flag blocks (until some later signal, which
   * this sequential run does not interleave).
   */
  function Play(f: Flag, actions: seq<Action>): Handshake
    decreases |actions|
  {
    if actions == [] then Running(f)
    else
      match actions[0]
      case Signal =>
        (match SetBgIndexStarting(f)
         case InvariantViolated => Tripped
         case Raised(f') => Play(f', actions[1..]))
      case Wait =>
        (match ConsumeBgIndexStarting(f)
         case None => Blocked
         case Some(f') => Play(f', actions[1..]))
  }

  /** n rounds of "a build signals, then the spawning thread waits". */
  function Rounds(n: nat): (r: seq<Action>)
    ensures |r| == 2 * n
  {
    if n == 0 then [] else [Signal, Wait] + Rounds(n - 1)
  }

  /** Signalling and waiting in turn never trips the invariant and ends with the flag down. */
  lemma {:induction false} RoundsKeepFlagDown(n: nat)
    ensures Play(Initial, Rounds(n)) == Running(Initial)
  {
    if n > 0 {
      var rest := Rounds(n - 1);
      var actions := [Signal, Wait] + rest;
      assert actions[1..] == [Wait] + rest;
      assert actions[1..][1..] == rest;
      RoundsKeepFlagDown(n - 1);
      assert Play(Flag(false), rest) == Running(Initial);
      assert Play(Flag(true), [Wait] + rest) == Play(Flag(false), rest);
      assert Play(Initial, actions) == Play(Flag(true), [Wait] + rest);
    }
  }

  /** A second signal before the flag is consumed trips the invariant. */
  lemma DoubleSignalCrashes(f: Flag, rest: seq<Action>)
    ensures Play(f, [Signal, Signal] + rest) == Tripped
  {
    var actions := [Signal, Signal] + rest;
    assert actions[1..] == [Signal] + rest;
    if !f.starting {
      assert Play(f, actions) == Play(Flag(true), [Signal] + rest);
    }
  }

  /** A wait that no signal precedes does not return. */
  lemma WaitBeforeSignalBlocks(rest: seq<Action>)
    ensures Play(Initial, [Wait] + rest) == Blocked
  {
  }
}
