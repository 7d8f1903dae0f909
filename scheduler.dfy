/**
 * The `while True` loop of `main`: an initial delay, then one backup cycle
 * after another.  A failed cycle sets the back-off flag, and the next
 * iteration first waits a fixed 300 seconds; a successful cycle clears the
 * flag and sleeps until `interval` seconds after the cycle's start; an
 * interrupt during a cycle or during that sleep ends the loop, and a sleep
 * length `time.sleep` cannot represent ends the program with an uncaught
 * exception.
 *
 * The clock readings and how each cycle ends are inputs: `attempts[i]`
 * describes the i-th iteration the loop would run.
 */
module Scheduler {

  /** The fixed back-off before retrying after a failed cycle, in seconds. */
  const BackOff := 300

  /**
   * The largest number of whole seconds `time.sleep` accepts in either
   * direction.  CPython converts the length to nanoseconds in a signed 64-bit
   * integer and raises OverflowError, not ValueError, beyond it.
   */
  const SleepMax := 9223372036

  /** Whether `time.sleep` can convert a length of `seconds`. */
  predicate InSleepRange(seconds: int)
  {
    -SleepMax <= seconds <= SleepMax
  }

  /** How one iteration's cycle ended, with the clock readings it took. */
  datatype Attempt =
    | Succeeded(start: int, finish: int, sleepInterrupted: bool)
      // the cycle returned; `finish` is the clock read when computing the
      // sleep; `sleepInterrupted` says an interrupt arrives during that sleep
    | Failed(start: int)       // the cycle raised an exception other than an interrupt
    | Interrupted(start: int)  // the cycle was interrupted

  /** The length of the sleep after a successful cycle. */
  function SleepLength(a: Attempt, interval: int): int
    requires a.Succeeded?
  {
    a.start - a.finish + interval
  }

  /** What the loop does after the cycle. */
  datatype Action =
    | Sleep(seconds: int)  // sleeps the rest of the interval, then loops
    | NoSleepLogOverrun    // the sleep length was negative: logs the overrun and loops at once
    | Continue             // logs the exception and loops, with the back-off flag set
    | Stop                 // announces the exit and leaves the loop
    | Overflow             // the sleep length is out of range: the exception escapes `main`

  /** One iteration: the wait before the cycle, the action after it, the new flag. */
  datatype Decision = Decision(preWait: int, action: Action, backoff: bool)

  /** Whether an interrupt ends the loop in this iteration. */
  predicate Interrupts(a: Attempt, interval: int)
  {
    a.Interrupted? || (a.Succeeded? && a.sleepInterrupted && 0 <= SleepLength(a, interval) <= SleepMax)
  }

  /** Whether the sleep after this iteration's cycle raises an uncaught OverflowError. */
  predicate Overflows(a: Attempt, interval: int)
  {
    a.Succeeded? && !InSleepRange(SleepLength(a, interval))
  }

  /** Whether this iteration is the loop's last. */
  predicate Ends(a: Attempt, interval: int)
  {
    Interrupts(a, interval) || Overflows(a, interval)
  }

  /** The decisions one iteration of the loop makes, given the flag it starts with. */
  function Step(backoff: bool, a: Attempt, interval: int): (d: Decision)
    ensures d.preWait == (if backoff then BackOff else 0)
    ensures d.action == Stop <==> Interrupts(a, interval)
    ensures d.action == Overflow <==> Overflows(a, interval)
    ensures d.action == Continue <==> a.Failed?
    ensures d.action == NoSleepLogOverrun <==> a.Succeeded? && -SleepMax <= SleepLength(a, interval) < 0
    ensures d.action.Sleep? ==>
      0 <= d.action.seconds <= SleepMax && a.finish + d.action.seconds == a.start + interval
    ensures d.action != Stop && d.action != Overflow ==> (d.backoff <==> a.Failed?)
  {
    var wait := if backoff then 300 else 0;
    match a
    case Interrupted(_) => Decision(wait, Stop, backoff)
    case Failed(_) => Decision(wait, Continue, true)
    case Succeeded(start, finish, interrupted) =>
      var length := start - finish + interval;
      if length < -SleepMax || SleepMax < length then Decision(wait, Overflow, false)
      else if length < 0 then Decision(wait, NoSleepLogOverrun, false)
      else if interrupted then Decision(wait, Stop, false)
      else Decision(wait, Sleep(length), false)
  }

  /** What the loop is seen to do. */
  datatype Event =
    | Slept(seconds: int)    // a completed call to `time.sleep`
    | Began(timestamp: int)  // a backup cycle started with this timestamp
    | LoggedException
    | LoggedOverrun
    | Exited
    | Raised                 // an exception escapes `main` and ends the program

  /** The event an action shows. */
  function ActionEvent(action: Action): Event
  {
    match action
    case Sleep(s) => Slept(s)
    case NoSleepLogOverrun => LoggedOverrun
    case Continue => LoggedException
    case Stop => Exited
    case Overflow => Raised
  }

  /** The back-off sleep an iteration starts with, if any. */
  function BackOffEvents(backoff: bool): seq<Event>
  {
    if backoff then [Slept(BackOff)] else []
  }

  /** The events of one iteration. */
  function Events(backoff: bool, a: Attempt, interval: int): seq<Event>
  {
    BackOffEvents(backoff) + [Began(a.start), ActionEvent(Step(backoff, a, interval).action)]
  }

  datatype Status = Live | Stopped | Crashed

  /** The events seen and how the loop stands once the attempts are used up or it ends. */
  datatype Outcome = Outcome(trace: seq<Event>, status: Status)

  /** The loop from iteration `i` on, entered with the flag `backoff`. */
  function LoopFrom(backoff: bool, attempts: seq<Attempt>, i: nat, interval: int): Outcome
    requires i <= |attempts|
    decreases |attempts| - i
  {
    if i == |attempts| then Outcome([], Live)
    else
      var d := Step(backoff, attempts[i], interval);
      var events := Events(backoff, attempts[i], interval);
      if d.action == Stop then Outcome(events, Stopped)
      else if d.action == Overflow then Outcome(events, Crashed)
      else
        var rest := LoopFrom(d.backoff, attempts, i + 1, interval);
        Outcome(events + rest.trace, rest.status)
  }

  /**
   * The whole of `main` after the folder lookup: the initial sleep, which
   * raises (uncaught) for a negative delay or one out of `time.sleep`'s
   * range, then the loop.
   */
  function Schedule(delay: int, interval: int, attempts: seq<Attempt>): Outcome
  {
    if delay < 0 || SleepMax < delay then Outcome([Raised], Crashed)
    else
      var loop := LoopFrom(false, attempts, 0, interval);
      Outcome([Slept(delay)] + loop.trace, loop.status)
  }

  /**
   * Iteration `i` of the loop, entered with flag `backoff`, appends its
   * back-off sleep, the start of its cycle and the event `e` of its action;
   * when that action does not end the loop, iteration `i + 1` follows.
   */
  lemma LoopContinues(backoff: bool, attempts: seq<Attempt>, i: nat, interval: int,
                      done: seq<Event>, e: Event, whole: Outcome)
    requires i < |attempts|
    requires e == ActionEvent(Step(backoff, attempts[i], interval).action) && e != Exited && e != Raised
    requires done + LoopFrom(backoff, attempts, i, interval).trace == whole.trace
    requires LoopFrom(backoff, attempts, i, interval).status == whole.status
    ensures var next := Step(backoff, attempts[i], interval).backoff;
            && done + BackOffEvents(backoff) + [Began(attempts[i].start)] + [e] + LoopFrom(next, attempts, i + 1, interval).trace == whole.trace
            && LoopFrom(next, attempts, i + 1, interval).status == whole.status
  {
    var next := Step(backoff, attempts[i], interval).backoff;
    var rest := LoopFrom(next, attempts, i + 1, interval).trace;
    assert done + BackOffEvents(backoff) + [Began(attempts[i].start)] + [e] + rest
        == done + (Events(backoff, attempts[i], interval) + rest);
  }

  /** Iteration `i` of the loop, when it ends the loop with event `e`, ends the trace. */
  lemma LoopEnds(backoff: bool, attempts: seq<Attempt>, i: nat, interval: int,
                 done: seq<Event>, e: Event, whole: Outcome)
    requires i < |attempts|
    requires e == ActionEvent(Step(backoff, attempts[i], interval).action) && (e == Exited || e == Raised)
    requires done + LoopFrom(backoff, attempts, i, interval).trace == whole.trace
    requires LoopFrom(backoff, attempts, i, interval).status == whole.status
    ensures done + BackOffEvents(backoff) + [Began(attempts[i].start)] + [e] == whole.trace
    ensures whole.status == (if e == Exited then Stopped else Crashed)
  {
    assert done + BackOffEvents(backoff) + [Began(attempts[i].start)] + [e]
        == done + Events(backoff, attempts[i], interval);
  }

  /** `main`'s loop, run against the given attempts. */
  method MainLoop(delay: int, interval: int, attempts: seq<Attempt>)
    returns (trace: seq<Event>, status: Status)
    ensures Outcome(trace, status) == Schedule(delay, interval, attempts)
  {
    if delay < 0 || SleepMax < delay {
      return [Raised], Crashed;
    }
    ghost var whole := Schedule(delay, interval, attempts);
    trace := [Slept(delay)];
    status := Live;
    var backoff := false;
    var i := 0;
    while i < |attempts|
      invariant 0 <= i <= |attempts|
      invariant trace + LoopFrom(backoff, attempts, i, interval).trace == whole.trace
      invariant LoopFrom(backoff, attempts, i, interval).status == whole.status
      invariant status == Live
    {
      ghost var before, flag := trace, backoff;
      if backoff {
        trace := trace + [Slept(300)];
      }
      var a := attempts[i];
      var now := a.start;
      trace := trace + [Began(now)];
      assert trace == before + BackOffEvents(flag) + [Began(a.start)];
      if a.Interrupted? {
        trace := trace + [Exited];
        status := Stopped;
        LoopEnds(flag, attempts, i, interval, before, Exited, whole);
        break;
      }
      if a.Failed? {
        trace := trace + [LoggedException];
        backoff := true;
        LoopContinues(flag, attempts, i, interval, before, LoggedException, whole);
        i := i + 1;
        continue;
      }
      backoff := false;
      var length := now - a.finish + interval;
      if length < -SleepMax || SleepMax < length {
        trace := trace + [Raised];
        status := Crashed;
        LoopEnds(flag, attempts, i, interval, before, Raised, whole);
        break;
      } else if length < 0 {
        trace := trace + [LoggedOverrun];
        LoopContinues(flag, attempts, i, interval, before, LoggedOverrun, whole);
      } else if a.sleepInterrupted {
        trace := trace + [Exited];
        status := Stopped;
        LoopEnds(flag, attempts, i, interval, before, Exited, whole);
        break;
      } else {
        trace := trace + [Slept(length)];
        LoopContinues(flag, attempts, i, interval, before, Slept(length), whole);
      }
      i := i + 1;
    }
  }

  /** The number of backup cycles begun in a trace. */
  function Cycles(trace: seq<Event>): nat
  {
    if trace == [] then 0
    else (if trace[0].Began? then 1 else 0) + Cycles(trace[1..])
  }

  lemma {:induction false} CyclesAppend(s: seq<Event>, t: seq<Event>)
    ensures Cycles(s + t) == Cycles(s) + Cycles(t)
  {
    if s == [] {
      assert s + t == t;
    } else {
      assert (s + t)[1..] == s[1..] + t;
      CyclesAppend(s[1..], t);
    }
  }

  /**
   * Every iteration begins exactly one cycle; it ends with the exit exactly
   * when interrupted and with the escaping exception exactly when its sleep
   * overflows, and neither occurs earlier in it.
   */
  lemma IterationEvents(backoff: bool, a: Attempt, interval: int)
    ensures Cycles(Events(backoff, a, interval)) == 1
    ensures var e := Events(backoff, a, interval);
            && (e[|e| - 1] == Exited <==> Interrupts(a, interval))
            && (e[|e| - 1] == Raised <==> Overflows(a, interval))
            && Exited !in e[..|e| - 1] && Raised !in e[..|e| - 1]
    ensures !Ends(a, interval) ==> Exited !in Events(backoff, a, interval) && Raised !in Events(backoff, a, interval)
  {
    var e := Events(backoff, a, interval);
    var action := [ActionEvent(Step(backoff, a, interval).action)];
    CyclesAppend(BackOffEvents(backoff) + [Began(a.start)], action);
    CyclesAppend(BackOffEvents(backoff), [Began(a.start)]);
    assert action[1..] == [] && [Began(a.start)][1..] == [];
    assert Cycles(action) == 0 && Cycles([Began(a.start)]) == 1;
    assert e == BackOffEvents(backoff) + [Began(a.start)] + action;
    assert Cycles(BackOffEvents(backoff)) == 0 by {
      if backoff { assert BackOffEvents(backoff)[1..] == []; }
    }
    assert e[..|e| - 1] == BackOffEvents(backoff) + [Began(a.start)];
    assert e == e[..|e| - 1] + [e[|e| - 1]];
  }

  /** Appending a trace that ends with its only `last` keeps `last` last and single. */
  lemma StaysLast(e: seq<Event>, rest: seq<Event>, last: Event)
    requires last !in e
    requires |rest| > 0 && last !in rest[..|rest| - 1]
    ensures var t := e + rest;
            t[|t| - 1] == rest[|rest| - 1] && last !in t[..|t| - 1]
  {
    assert (e + rest)[..|e + rest| - 1] == e + rest[..|rest| - 1];
  }

  /** Attempt `k` is the first from iteration `i` on to end the loop. */
  predicate FirstEnd(attempts: seq<Attempt>, i: nat, k: nat, interval: int)
  {
    i <= k < |attempts| && Ends(attempts[k], interval) &&
    forall j :: i <= j < k ==> !Ends(attempts[j], interval)
  }

  /**
   * The loop is still running after the attempts exactly when none of them
   * ends it; it stops exactly when the first attempt that ends it is an
   * interrupt, and crashes exactly when that attempt's sleep overflows.
   */
  lemma {:induction false} LoopStatus(backoff: bool, attempts: seq<Attempt>, i: nat, interval: int)
    requires i <= |attempts|
    decreases |attempts| - i
    ensures LoopFrom(backoff, attempts, i, interval).status == Live <==>
            forall j :: i <= j < |attempts| ==> !Ends(attempts[j], interval)
    ensures LoopFrom(backoff, attempts, i, interval).status == Stopped <==>
            exists k: nat :: FirstEnd(attempts, i, k, interval) && Interrupts(attempts[k], interval)
    ensures LoopFrom(backoff, attempts, i, interval).status == Crashed <==>
            exists k: nat :: FirstEnd(attempts, i, k, interval) && Overflows(attempts[k], interval)
  {
    if i < |attempts| {
      if Ends(attempts[i], interval) {
        assert FirstEnd(attempts, i, i, interval);
        forall k | FirstEnd(attempts, i, k, interval)
          ensures k == i
        {
        }
      } else {
        var next := Step(backoff, attempts[i], interval).backoff;
        LoopStatus(next, attempts, i + 1, interval);
        forall k
          ensures FirstEnd(attempts, i, k, interval) <==> FirstEnd(attempts, i + 1, k, interval)
        {
          if FirstEnd(attempts, i, k, interval) {
            assert k != i;
          }
        }
      }
    }
  }

  /**
   * Without an interrupt or an overflowing sleep the loop runs every
   * attempt: failures, however many, never end it.
   */
  lemma {:induction false} LoopRunsOn(backoff: bool, attempts: seq<Attempt>, i: nat, interval: int)
    requires i <= |attempts|
    requires forall j :: i <= j < |attempts| ==> !Ends(attempts[j], interval)
    decreases |attempts| - i
    ensures LoopFrom(backoff, attempts, i, interval).status == Live
    ensures Cycles(LoopFrom(backoff, attempts, i, interval).trace) == |attempts| - i
    ensures Exited !in LoopFrom(backoff, attempts, i, interval).trace
    ensures Raised !in LoopFrom(backoff, attempts, i, interval).trace
  {
    if i < |attempts| {
      var next := Step(backoff, attempts[i], interval).backoff;
      var e := Events(backoff, attempts[i], interval);
      LoopRunsOn(next, attempts, i + 1, interval);
      IterationEvents(backoff, attempts[i], interval);
      CyclesAppend(e, LoopFrom(next, attempts, i + 1, interval).trace);
    }
  }

  /**
   * The first attempt from iteration `i` on that ends the loop, at `k`,
   * ends it there: cycles `i` to `k` have begun, the last event is the exit
   * (for an interrupt) or the escaping exception (for an overflowing sleep),
   * and neither occurs before it.
   */
  lemma {:induction false} LoopEndsAt(backoff: bool, attempts: seq<Attempt>, i: nat, k: nat, interval: int)
    requires FirstEnd(attempts, i, k, interval)
    decreases k - i
    ensures var o := LoopFrom(backoff, attempts, i, interval);
            && o.status == (if Interrupts(attempts[k], interval) then Stopped else Crashed)
            && Cycles(o.trace) == k - i + 1
            && |o.trace| > 0
            && o.trace[|o.trace| - 1] == (if Interrupts(attempts[k], interval) then Exited else Raised)
            && Exited !in o.trace[..|o.trace| - 1] && Raised !in o.trace[..|o.trace| - 1]
  {
    var e := Events(backoff, attempts[i], interval);
    IterationEvents(backoff, attempts[i], interval);
    if i < k {
      var next := Step(backoff, attempts[i], interval).backoff;
      var rest := LoopFrom(next, attempts, i + 1, interval).trace;
      LoopEndsAt(next, attempts, i + 1, k, interval);
      CyclesAppend(e, rest);
      StaysLast(e, rest, Exited);
      StaysLast(e, rest, Raised);
    }
  }

  /**
   * After a failed cycle the next iteration first waits the fixed back-off
   * and then begins its cycle; after a successful cycle that does not end
   * the loop, the next iteration begins its cycle straight away.
   */
  lemma NextIteration(backoff: bool, attempts: seq<Attempt>, i: nat, interval: int)
    requires i + 1 < |attempts|
    requires !Ends(attempts[i], interval)
    ensures var t, n := LoopFrom(backoff, attempts, i, interval).trace, |Events(backoff, attempts[i], interval)|;
            && |t| > n + 1
            && (attempts[i].Failed? ==> t[n] == Slept(BackOff) && t[n + 1] == Began(attempts[i + 1].start))
            && (attempts[i].Succeeded? ==> t[n] == Began(attempts[i + 1].start))
  {
    var next := Step(backoff, attempts[i], interval).backoff;
    var e := Events(backoff, attempts[i], interval);
    var e' := Events(next, attempts[i + 1], interval);
    var rest := LoopFrom(next, attempts, i + 1, interval).trace;
    assert rest[..|e'|] == e';
    assert (e + rest)[|e|..] == rest;
  }

  /**
   * `main` as a whole: an initial delay `time.sleep` refuses ends it before
   * any cycle; otherwise it sleeps the delay first, and then runs on, stops
   * or crashes as the loop does.
   */
  lemma ScheduleStatus(delay: int, interval: int, attempts: seq<Attempt>)
    ensures !(0 <= delay <= SleepMax) ==> Schedule(delay, interval, attempts) == Outcome([Raised], Crashed)
    ensures 0 <= delay <= SleepMax ==>
      && Schedule(delay, interval, attempts).trace[0] == Slept(delay)
      && (Schedule(delay, interval, attempts).status == Live <==>
          forall j :: 0 <= j < |attempts| ==> !Ends(attempts[j], interval))
      && (Schedule(delay, interval, attempts).status == Stopped <==>
          exists k: nat :: FirstEnd(attempts, 0, k, interval) && Interrupts(attempts[k], interval))
  {
    LoopStatus(false, attempts, 0, interval);
  }
}
