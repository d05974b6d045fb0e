/** `LoggerService`: the polling loop every logger inherits. Each pass runs `DoWork` under a timeout,
    then waits `Delay`: after a success the rest of a one-minute period (at least five seconds), after
    a failure twice the previous wait while that is under an hour. Durations are `TimeSpan` ticks. */
module Logging {
  import opened Wrappers
  import Bytes

  const Second: int := 10_000_000
  const Minute: int := 60 * Second
  const Hour: int := 60 * Minute

  /** `BaseInterval`: one minute, the period the loggers aim for. */
  const BaseInterval: int := Minute
  /** The shortest wait after a success. */
  const MinimumDelay: int := 5 * Second
  /** `Delay` keeps doubling while it is below this. */
  const BackoffCeiling: int := Hour

  /** What one `DoWork` call did, as the loop sees it: it returned after `elapsed` ticks on the
      stopwatch, or it threw (a timeout surfaces as an `OperationCanceledException`). */
  datatype WorkOutcome = Completed(elapsed: nat) | Failed

  /** The wait after a successful pass: `BaseInterval - elapsed`, raised to five seconds. */
  function SuccessDelay(elapsed: nat): (d: int)
    ensures MinimumDelay <= d <= BaseInterval
    ensures BaseInterval - elapsed >= MinimumDelay ==> d == BaseInterval - elapsed
    ensures BaseInterval - elapsed < MinimumDelay ==> d == MinimumDelay
  {
    var d := BaseInterval - elapsed;
    if d < MinimumDelay then MinimumDelay else d
  }

  /** The wait after a failed pass: `Delay.Add(Delay)` while `Delay` is under an hour. */
  function FailureDelay(d: int): int
  {
    if d < BackoffCeiling then d + d else d
  }

  /** The new `Delay` after one pass of the loop. */
  function NextDelay(d: int, outcome: WorkOutcome): int
  {
    match outcome
    case Completed(elapsed) => SuccessDelay(elapsed)
    case Failed => FailureDelay(d)
  }

  /** The range `Delay` never leaves once it starts at `BaseInterval`. */
  predicate InRange(d: int) {
    MinimumDelay <= d < 2 * BackoffCeiling
  }

  /** A failure below the ceiling strictly lengthens the wait, and no pass leaves the range. */
  lemma NextDelayInRange(d: int, outcome: WorkOutcome)
    requires InRange(d)
    ensures InRange(NextDelay(d, outcome))
    ensures outcome.Failed? && d < BackoffCeiling ==> NextDelay(d, outcome) == 2 * d > d
    ensures outcome.Failed? && d >= BackoffCeiling ==> NextDelay(d, outcome) == d
  {
  }

  /** The waits of successive passes, starting from `Delay == d`. */
  function Waits(d: int, outcomes: seq<WorkOutcome>): (r: seq<int>)
    ensures |r| == |outcomes|
    decreases |outcomes|
  {
    if outcomes == [] then []
    else
      var next := NextDelay(d, outcomes[0]);
      [next] + Waits(next, outcomes[1..])
  }

  lemma {:induction false} WaitsInRange(d: int, outcomes: seq<WorkOutcome>)
    requires InRange(d)
    ensures forall i :: 0 <= i < |outcomes| ==> InRange(Waits(d, outcomes)[i])
    decreases |outcomes|
  {
    if outcomes != [] {
      NextDelayInRange(d, outcomes[0]);
      WaitsInRange(NextDelay(d, outcomes[0]), outcomes[1..]);
    }
  }

  function Min(a: int, b: int): int {
    if a <= b then a else b
  }

  predicate AllFailed(outcomes: seq<WorkOutcome>) {
    forall i :: 0 <= i < |outcomes| ==> outcomes[i].Failed?
  }

  /** After `n` failures in a row the wait is at least `d · 2ⁿ`, or the ceiling if that is smaller. */
  lemma {:induction false} FailuresDouble(d: int, outcomes: seq<WorkOutcome>)
    requires d > 0 && outcomes != [] && AllFailed(outcomes)
    ensures Waits(d, outcomes)[|outcomes| - 1] >= Min(d * Bytes.Pow2(|outcomes|), BackoffCeiling)
    decreases |outcomes|
  {
    var n := |outcomes|;
    var next := FailureDelay(d);
    assert Waits(d, outcomes) == [next] + Waits(next, outcomes[1..]);
    if d >= BackoffCeiling {
      if n > 1 {
        FailuresDouble(next, outcomes[1..]);
        assert next * Bytes.Pow2(n - 1) >= next;
      }
    } else {
      assert next == 2 * d;
      if n > 1 {
        FailuresDouble(next, outcomes[1..]);
        assert next * Bytes.Pow2(n - 1) == d * Bytes.Pow2(n);
      }
    }
  }

  /** Ten failures in a row, from any wait the loop can have, make the next wait at least an hour. */
  lemma TenFailuresReachCeiling(d: int, outcomes: seq<WorkOutcome>)
    requires InRange(d) && |outcomes| >= 10 && AllFailed(outcomes)
    ensures Waits(d, outcomes)[|outcomes| - 1] >= BackoffCeiling
  {
    FailuresDouble(d, outcomes);
    Pow2AtLeast(|outcomes|);
    MulMonotone(d, Bytes.Pow2(|outcomes|), MinimumDelay, 1024);
  }

  lemma MulMonotone(a: int, b: int, c: int, e: int)
    requires a >= c >= 0 && b >= e >= 0
    ensures a * b >= c * e
  {
    assert a * b >= c * b;
  }

  lemma {:induction false} Pow2AtLeast(n: nat)
    requires n >= 10
    ensures Bytes.Pow2(n) >= 1024
  {
    if n > 10 {
      Pow2AtLeast(n - 1);
    }
  }

  class LoggerService {
    /** How long `ExecuteAsync` waits before the next pass. */
    var Delay: int

    predicate Valid()
      reads this
    {
      InRange(Delay)
    }

    /** The constructor starts with `Delay = BaseInterval`. */
    constructor()
      ensures Delay == BaseInterval && Valid()
    {
      Delay := BaseInterval;
    }

    /** One pass of the `ExecuteAsync` loop: `DoWork` gets a linked token that times out after
        twice the base interval, its outcome updates `Delay`, and the loop then waits `Delay`. */
    method Pass(outcome: WorkOutcome) returns (timeout: int, wait: int)
      requires Valid()
      modifies this
      ensures timeout == 2 * BaseInterval
      ensures Delay == NextDelay(old(Delay), outcome) && wait == Delay
      ensures Valid()
    {
      timeout := 2 * BaseInterval;
      match outcome {
        case Completed(elapsed) =>
          Delay := BaseInterval - elapsed;
          if Delay < MinimumDelay {
            Delay := MinimumDelay;
          }
        case Failed =>
          if Delay < BackoffCeiling {
            Delay := Delay + Delay;
          }
      }
      wait := Delay;
    }

    /** `ExecuteAsync`: one pass per outcome until the stopping token is cancelled, which here is
        when the outcomes run out. */
    method ExecuteAsync(outcomes: seq<WorkOutcome>) returns (waits: seq<int>)
      requires Valid()
      modifies this
      ensures waits == Waits(old(Delay), outcomes)
      ensures Delay == if outcomes == [] then old(Delay) else waits[|outcomes| - 1]
      ensures Valid()
    {
      waits := [];
      var i := 0;
      while i < |outcomes|
        invariant 0 <= i <= |outcomes|
        invariant Valid()
        invariant waits + Waits(Delay, outcomes[i..]) == Waits(old(Delay), outcomes)
        invariant |waits| == i
        invariant Delay == if i == 0 then old(Delay) else waits[i - 1]
      {
        assert outcomes[i..] == [outcomes[i]] + outcomes[i + 1..];
        var _, wait := Pass(outcomes[i]);
        waits := waits + [wait];
        i := i + 1;
      }
    }
  }

  /** `Retry`: run the action; if it throws, run it once more and return (or rethrow) that result.
      `attempts[k]` is what the action's `k`-th call would give. */
  method Retry<T, E>(attempts: seq<Result<T, E>>) returns (r: Result<T, E>, calls: nat)
    requires |attempts| >= 2
    ensures calls == (if attempts[0].Ok? then 1 else 2)
    ensures r == attempts[calls - 1]
    ensures r.Err? ==> attempts[0].Err? && attempts[1].Err?
  {
    r := attempts[0];
    calls := 1;
    if r.Err? {
      r := attempts[1];
      calls := 2;
    }
  }
}
