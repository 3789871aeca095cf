/**
 * The waits of the scheduler's two loops: the Waiter's wait for its own task
 * (SchedulerClass.java lines 35-41) and the dispatch loop's wait for the next
 * task (lines 55-62). Each decides, from the clock, whether to proceed or how
 * long to pass to `lock.wait`.
 *
 * The source reads the clock twice per iteration: once inside `shouldRunNow`
 * for the loop test and again inside `runFromNow` for the timeout. The
 * *AsWritten members model that; the members without the suffix read it once,
 * and are the ones the scheduler model uses.
 */
module Waits {
  import opened TimedTasks
  import opened TaskStore

  /** What a call `lock.wait(timeout)` does under the contract of java.lang.Object.wait(long). */
  datatype WaitCall =
    | UntilNotified          // timeout 0: wait with no time limit, until notified
    | Timed(ms: int)         // positive timeout: wait at most ms, or until notified
    | IllegalArgument        // negative timeout: the call throws IllegalArgumentException

  function ObjectWait(timeoutMs: int): (w: WaitCall)
    ensures w.IllegalArgument? <==> timeoutMs < 0
    ensures w.UntilNotified? <==> timeoutMs == 0
    ensures w.Timed? <==> timeoutMs > 0
    ensures w.Timed? ==> w.ms == timeoutMs
  {
    if timeoutMs < 0 then IllegalArgument
    else if timeoutMs == 0 then UntilNotified
    else Timed(timeoutMs)
  }

  /**
   * One iteration of the Waiter's loop with a single clock reading: proceed to
   * run the job when due, otherwise wait exactly the remaining delay, after
   * which the task is due and not a millisecond earlier.
   */
  function WaiterWait(t: TimedTask, now: int): (w: Option<WaitCall>)
    ensures w.None? <==> ShouldRunNow(t, now)
    ensures w.Some? ==> w.value.Timed? && w.value.ms > 0
    ensures w.Some? ==> ShouldRunNow(t, now + w.value.ms) && !ShouldRunNow(t, now + w.value.ms - 1)
  {
    if ShouldRunNow(t, now) then None else Some(ObjectWait(RunFromNow(t, now)))
  }

  /**
   * One evaluation of the dispatch loop's wait with a single clock reading:
   * proceed when the earliest pending task is due; with an empty store wait
   * until notified; otherwise wait exactly until the earliest task is due.
   */
  function NextTaskWait(s: seq<TimedTask>, now: int): (w: Option<WaitCall>)
    ensures w.None? <==> HasDue(s, now)
    ensures w == Some(UntilNotified) <==> s == []
    ensures w.Some? && s != [] ==> w.value.Timed? && w.value.ms > 0
    ensures w.Some? && s != [] ==> HasDue(s, now + w.value.ms) && !HasDue(s, now + w.value.ms - 1)
  {
    PeekDueIffHasDue(s, now);
    match Peek(s)
    case None => Some(UntilNotified)
    case Some(next) =>
      if ShouldRunNow(next, now) then None
      else
        var w := Some(ObjectWait(RunFromNow(next, now)));
        PeekDueIffHasDue(s, next.dueAt);
        PeekDueIffHasDue(s, next.dueAt - 1);
        w
  }

  /** With one pending task the loop proceeds once it is due and otherwise waits exactly until it is. */
  lemma NextTaskWaitOne(t: TimedTask, now: int)
    ensures NextTaskWait([t], now) == if t.dueAt <= now then None else Some(Timed(t.dueAt - now))
  {
    assert Peek([t]) == Some(t);
  }

  /**
   * The Waiter's loop as written: the loop test reads the clock at `checkedAt`,
   * the timeout is computed from a second reading `waitedAt`.
   */
  function WaiterWaitAsWritten(t: TimedTask, checkedAt: int, waitedAt: int): (w: Option<WaitCall>)
    requires checkedAt <= waitedAt
    ensures w.None? <==> ShouldRunNow(t, checkedAt)
    ensures checkedAt == waitedAt ==> w == WaiterWait(t, checkedAt)
  {
    if ShouldRunNow(t, checkedAt) then None else Some(ObjectWait(RunFromNow(t, waitedAt)))
  }

  /** The dispatch loop's wait as written, with the same two clock readings. */
  function NextTaskWaitAsWritten(s: seq<TimedTask>, checkedAt: int, waitedAt: int): (w: Option<WaitCall>)
    requires checkedAt <= waitedAt
    ensures w.None? <==> HasDue(s, checkedAt)
    ensures checkedAt == waitedAt ==> w == NextTaskWait(s, checkedAt)
  {
    PeekDueIffHasDue(s, checkedAt);
    match Peek(s)
    case None => Some(UntilNotified)
    case Some(next) =>
      if ShouldRunNow(next, checkedAt) then None else Some(ObjectWait(RunFromNow(next, waitedAt)))
  }

  /**
   * A task due at 10 tested at 9 is not due; if the clock reads 10 when the
   * timeout is computed the Waiter waits with no time limit, and if it reads 11
   * the wait throws. The single-reading wait asks for 1 millisecond.
   */
  lemma WaiterWaitAsWrittenCanHangOrThrow()
    ensures WaiterWaitAsWritten(TimedTask(Job(1), 10), 9, 10) == Some(UntilNotified)
    ensures WaiterWaitAsWritten(TimedTask(Job(1), 10), 9, 11) == Some(IllegalArgument)
    ensures WaiterWait(TimedTask(Job(1), 10), 9) == Some(Timed(1))
  {
  }

  /** The same two readings make the dispatch loop hang on, or throw out of, a non-empty store. */
  lemma NextTaskWaitAsWrittenCanHangOrThrow()
    ensures NextTaskWaitAsWritten([TimedTask(Job(1), 10)], 9, 10) == Some(UntilNotified)
    ensures NextTaskWaitAsWritten([TimedTask(Job(1), 10)], 9, 11) == Some(IllegalArgument)
    ensures NextTaskWait([TimedTask(Job(1), 10)], 9) == Some(Timed(1))
  {
  }

  /** Whenever a single-reading wait is entered, its timeout is positive: it never hangs or throws. */
  lemma SingleReadingWaitsAreTimed(t: TimedTask, s: seq<TimedTask>, now: int)
    ensures WaiterWait(t, now) != Some(UntilNotified) && WaiterWait(t, now) != Some(IllegalArgument)
    ensures NextTaskWait(s, now) != Some(IllegalArgument)
    ensures NextTaskWait(s, now) == Some(UntilNotified) ==> s == []
  {
  }
}
