/** app_runner_command_factory.go: polling against a clock until an app's instances run. Times are nanoseconds. */
module Polling {

  const SECOND := 1_000_000_000

  /** What RunningAppInstancesInfo answers; on an error the caller sees zero instances and no placement error. */
  datatype Answer = Info(running: int, placementError: bool) | Unreachable

  function RunningIn(answer: Answer): int {
    if answer.Info? then answer.running else 0
  }

  predicate HasPlacementError(answer: Answer) {
    answer.Info? && answer.placementError
  }

  /** The k-th poll reports success: a placement error ends the polling too. */
  predicate Succeeds(answer: Answer, instances: int) {
    HasPlacementError(answer) || RunningIn(answer) == instances
  }

  /** The polling function with the flag it captures. */
  class InstancePoll {
    const answers: nat -> Answer
    const instances: int
    var calls: nat
    var placementErrorOccurred: bool

    constructor (answers: nat -> Answer, instances: int)
      ensures this.answers == answers && this.instances == instances
      ensures calls == 0 && !placementErrorOccurred
    {
      this.answers, this.instances := answers, instances;
      calls, placementErrorOccurred := 0, false;
    }

    method Call() returns (result: bool)
      modifies this
      ensures calls == old(calls) + 1
      ensures result == Succeeds(answers(old(calls)), instances)
      ensures placementErrorOccurred == (old(placementErrorOccurred) || HasPlacementError(answers(old(calls))))
    {
      var answer := answers(calls);
      calls := calls + 1;
      if HasPlacementError(answer) {
        placementErrorOccurred := true;
        return true;
      }
      return RunningIn(answer) == instances;
    }
  }

  /** The clock as the loop reads it: reading k precedes poll k, and each sleep lasts at least a second. */
  ghost predicate SleepsASecond(start: int, now: nat -> int) {
    start <= now(0) && forall k: nat :: now(k) + SECOND <= now(k + 1)
  }

  /** How a polling run ends: n polls were made, and the last one succeeded or the deadline passed. */
  ghost predicate PollingRun(n: nat, ok: bool, timeout: int, start: int, now: nat -> int, answers: nat -> Answer,
                             instances: int) {
    && (forall k: nat :: k < n ==> now(k) < start + timeout)
    && (forall k: nat :: k + 1 < n ==> !Succeeds(answers(k), instances))
    && (ok <==> n > 0 && Succeeds(answers(n - 1), instances))
    && (!ok ==> now(n) >= start + timeout)
  }

  /** pollUntilSuccess */
  method PollUntilSuccess(timeout: int, start: int, now: nat -> int, poll: InstancePoll) returns (ok: bool)
    requires SleepsASecond(start, now) && poll.calls == 0 && !poll.placementErrorOccurred
    modifies poll
    ensures PollingRun(poll.calls, ok, timeout, start, now, poll.answers, poll.instances)
    ensures poll.placementErrorOccurred <==> poll.calls > 0 && HasPlacementError(poll.answers(poll.calls - 1))
  {
    while start + timeout > now(poll.calls)
      invariant forall k: nat :: k < poll.calls ==>
                  now(k) < start + timeout && !Succeeds(poll.answers(k), poll.instances)
      invariant !poll.placementErrorOccurred
      decreases start + timeout - now(poll.calls)
    {
      var result := poll.Call();
      if result {
        return true;
      }
    }
    return false;
  }

  /** pollUntilAllInstancesRunning; exits tells whether the placement error exit was taken. */
  method PollUntilAllInstancesRunning(timeout: int, start: int, now: nat -> int, answers: nat -> Answer, instances: int)
    returns (ok: bool, exits: bool, calls: nat)
    requires SleepsASecond(start, now)
    ensures PollingRun(calls, ok || exits, timeout, start, now, answers, instances)
    ensures ok <==> calls > 0 && match answers(calls - 1)
                                 case Info(running, placementError) => running == instances && !placementError
                                 case Unreachable => instances == 0
    ensures exits <==> calls > 0 && answers(calls - 1).Info? && answers(calls - 1).placementError
  {
    var poll := new InstancePoll(answers, instances);
    ok := PollUntilSuccess(timeout, start, now, poll);
    calls := poll.calls;
    exits := poll.placementErrorOccurred;
    if exits {
      ok := false;
    }
  }

  lemma {:induction false} ClockAdvances(start: int, now: nat -> int, k: nat)
    requires SleepsASecond(start, now)
    ensures now(k) >= start + k * SECOND
  {
    if k > 0 {
      ClockAdvances(start, now, k - 1);
      assert now(k - 1) + SECOND <= now(k - 1 + 1);
    }
  }

  /** A polling run makes at most as many polls as the timeout has seconds, rounded up. */
  lemma PollBound(n: nat, ok: bool, timeout: int, start: int, now: nat -> int, answers: nat -> Answer, instances: int)
    requires SleepsASecond(start, now) && PollingRun(n, ok, timeout, start, now, answers, instances)
    ensures n > 0 ==> (n - 1) * 1_000_000_000 < timeout
  {
    if n > 0 {
      ClockAdvances(start, now, n - 1);
      assert now(n - 1) < start + timeout;
    }
  }

  /** Clock and answers determine the run: its length and its outcome. */
  lemma PollingDetermined(n: nat, ok: bool, m: nat, ok': bool, timeout: int, start: int, now: nat -> int,
                          answers: nat -> Answer, instances: int)
    requires SleepsASecond(start, now)
    requires PollingRun(n, ok, timeout, start, now, answers, instances)
    requires PollingRun(m, ok', timeout, start, now, answers, instances)
    ensures n == m && ok == ok'
  {
    if n < m {
      RunsNoLonger(n, ok, m, ok', timeout, start, now, answers, instances);
    } else if m < n {
      RunsNoLonger(m, ok', n, ok, timeout, start, now, answers, instances);
    }
  }

  lemma RunsNoLonger(n: nat, ok: bool, m: nat, ok': bool, timeout: int, start: int, now: nat -> int,
                     answers: nat -> Answer, instances: int)
    requires n < m
    requires PollingRun(n, ok, timeout, start, now, answers, instances)
    ensures !PollingRun(m, ok', timeout, start, now, answers, instances)
  {
    if ok {
      assert (n - 1) + 1 < m;
    } else {
      assert now(n) >= start + timeout;
    }
  }
}
