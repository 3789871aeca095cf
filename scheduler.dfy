/**
 * SchedulerClass as a sequential state machine. The dispatch thread, the
 * Waiter threads and the callers become atomic steps that may be interleaved
 * in any order; the clock is a field that only `Tick` moves, and only forward.
 */
module Scheduling {
  import opened TimedTasks
  import opened TaskStore
  import opened Waits

  /** A job run by its Waiter, with the clock reading at which it ran. */
  datatype Execution = Execution(task: TimedTask, at: int)

  /** The tasks of an execution log, in the order their jobs ran. */
  function Tasks(log: seq<Execution>): (ts: seq<TimedTask>)
    ensures |ts| == |log|
    ensures forall i :: 0 <= i < |log| ==> ts[i] == log[i].task
  {
    seq(|log|, i requires 0 <= i < |log| => log[i].task)
  }

  /** The multiset of tasks whose jobs appear in an execution log. */
  function Completed(log: seq<Execution>): (m: multiset<TimedTask>)
  {
    multiset(Tasks(log))
  }

  lemma CompletedAppend(log: seq<Execution>, e: Execution)
    ensures Completed(log + [e]) == Completed(log) + multiset{e.task}
  {
    assert Tasks(log + [e]) == Tasks(log) + [e.task];
  }

  /** Every submitted task is pending, owned by a Waiter or run, and is in exactly one of these. */
  predicate Conserved(pending: seq<TimedTask>, inFlight: multiset<TimedTask>, log: seq<Execution>,
                      submitted: multiset<TimedTask>)
  {
    multiset(pending) + inFlight + Completed(log) == submitted
  }

  lemma ConservedAfterSubmit(pending: seq<TimedTask>, inFlight: multiset<TimedTask>, log: seq<Execution>,
                             submitted: multiset<TimedTask>, t: TimedTask)
    requires Conserved(pending, inFlight, log, submitted)
    ensures Conserved(pending + [t], inFlight, log, submitted + multiset{t})
  {
    assert multiset(pending + [t]) == multiset(pending) + multiset{t};
  }

  lemma ConservedAfterTake(pending: seq<TimedTask>, inFlight: multiset<TimedTask>, log: seq<Execution>,
                           submitted: multiset<TimedTask>, t: TimedTask, rest: seq<TimedTask>)
    requires Conserved(pending, inFlight, log, submitted)
    requires multiset(rest) + multiset{t} == multiset(pending)
    ensures Conserved(rest, inFlight + multiset{t}, log, submitted)
  {
  }

  lemma ConservedAfterRun(pending: seq<TimedTask>, inFlight: multiset<TimedTask>, log: seq<Execution>,
                          submitted: multiset<TimedTask>, e: Execution)
    requires Conserved(pending, inFlight, log, submitted) && e.task in inFlight
    ensures Conserved(pending, inFlight - multiset{e.task}, log + [e], submitted)
  {
    CompletedAppend(log, e);
    assert inFlight == (inFlight - multiset{e.task}) + multiset{e.task};
  }

  /**
   * Each logged run happened at or after its task's due time and no later than
   * `now`; the log itself lists runs by the clock reading at which a Waiter
   * ran them, each no earlier than the one before.
   */
  predicate RanWhenDue(log: seq<Execution>, now: int)
  {
    && (forall i :: 0 <= i < |log| ==> log[i].task.dueAt <= log[i].at <= now)
    && (forall i :: 0 <= i < |log| - 1 ==> log[i].at <= log[i + 1].at)
  }

  /**
   * A fact about the run log: entries are ordered by the clock reading at which
   * the Waiter ran them. It says nothing about when job bodies, which run
   * outside the lock, finish relative to each other.
   */
  lemma {:induction false} RanInClockOrder(log: seq<Execution>, now: int, i: nat, j: nat)
    requires RanWhenDue(log, now) && i <= j < |log|
    ensures log[i].at <= log[j].at
    decreases j - i
  {
    if i < j {
      RanInClockOrder(log, now, i + 1, j);
    }
  }

  lemma RanWhenDueAfterRun(log: seq<Execution>, now: int, t: TimedTask)
    requires RanWhenDue(log, now) && ShouldRunNow(t, now)
    ensures RanWhenDue(log + [Execution(t, now)], now)
  {
  }

  lemma RanWhenDueAfterTick(log: seq<Execution>, now: int, later: int)
    requires RanWhenDue(log, now) && now <= later
    ensures RanWhenDue(log, later)
  {
  }

  /** Where the dispatch thread running `start` stands. */
  datatype Phase =
    | LoopTop          // about to test `running` (line 28)
    | Taking           // inside the take of line 29, blocked while the store is empty
    | WaitingForNext   // inside waitForNextTask (lines 52-64)
    | Exited           // `start` has returned

  class Scheduler {
    /** The priority queue of pending tasks. */
    var pending: seq<TimedTask>
    /** The `running` flag; only `Stop` writes it. */
    var running: bool
    /** Tasks handed to a Waiter whose job has not run yet, one entry per Waiter. */
    var inFlight: multiset<TimedTask>
    /** The jobs Waiters have run, in order. */
    var executed: seq<Execution>
    /** The clock, in milliseconds. */
    var now: int
    /** The control point of the dispatch thread. */
    var phase: Phase

    /** Every task ever submitted. */
    ghost var submitted: multiset<TimedTask>
    /** Whether waitForNextTask has returned at least once. */
    ghost var waitedOnce: bool

    ghost predicate Valid()
      reads this
    {
      // no task is lost or duplicated between the store, the Waiters and the log
      Conserved(pending, inFlight, executed, submitted)
      // a job runs only once its task is due, at a clock reading already passed
      && RanWhenDue(executed, now)
      // the loop exits only after seeing `running` false, which never becomes true again
      && (phase == Exited ==> !running)
      // after a first wait, the loop goes on to a take only with a due task pending
      && (waitedOnce && (phase == LoopTop || phase == Taking) ==> HasDue(pending, now))
    }

    /** A new scheduler whose dispatch thread has entered `start`, at clock reading `clock`. */
    constructor (clock: int)
      ensures Valid()
      ensures pending == [] && running && inFlight == multiset{} && executed == []
      ensures now == clock && phase == LoopTop && submitted == multiset{} && !waitedOnce
    {
      pending := [];
      running := true;
      inFlight := multiset{};
      executed := [];
      now := clock;
      phase := LoopTop;
      submitted := multiset{};
      waitedOnce := false;
    }

    /** `add(task, delayMs)`: queue the job due `delayMs` from now. Negative delays are accepted. */
    method AddWithDelay(job: Job, delayMs: int)
      requires Valid()
      modifies this`pending, this`submitted
      ensures Valid()
      ensures pending == old(pending) + [FromTask(job, delayMs, now)]
      ensures multiset(pending) == multiset(old(pending)) + multiset{TimedTask(job, now + delayMs)}
      ensures submitted == old(submitted) + multiset{TimedTask(job, now + delayMs)}
    {
      var t := FromTask(job, delayMs, now);
      ghost var before := pending;
      ConservedAfterSubmit(pending, inFlight, executed, submitted, t);
      pending := pending + [t];
      submitted := submitted + multiset{t};
      if waitedOnce && (phase == LoopTop || phase == Taking) {
        HasDueMonotone(before, [t], now, now);
      }
    }

    /** `add(task)`: the same as a submission with delay zero. */
    method Add(job: Job)
      requires Valid()
      modifies this`pending, this`submitted
      ensures Valid()
      ensures pending == old(pending) + [FromTask(job, 0, now)]
      ensures multiset(pending) == multiset(old(pending)) + multiset{TimedTask(job, now)}
      ensures submitted == old(submitted) + multiset{TimedTask(job, now)}
    {
      AddWithDelay(job, 0);
    }

    /** `addWithScheduleDate(task, date)`: queue the job due exactly at `date`. */
    method AddWithScheduleDate(job: Job, date: int)
      requires Valid()
      modifies this`pending, this`submitted
      ensures Valid()
      ensures pending == old(pending) + [FromTaskScheduleDateTime(job, date)]
      ensures multiset(pending) == multiset(old(pending)) + multiset{TimedTask(job, date)}
      ensures submitted == old(submitted) + multiset{TimedTask(job, date)}
    {
      var t := FromTaskScheduleDateTime(job, date);
      ghost var before := pending;
      ConservedAfterSubmit(pending, inFlight, executed, submitted, t);
      pending := pending + [t];
      submitted := submitted + multiset{t};
      if waitedOnce && (phase == LoopTop || phase == Taking) {
        HasDueMonotone(before, [t], now, now);
      }
    }

    /** `stop()`: clear the flag; the store, the Waiters and the dispatch thread are left as they are. */
    method Stop()
      requires Valid()
      modifies this`running
      ensures Valid()
      ensures !running
    {
      running := false;
    }

    /** The clock advances by `dt` milliseconds. */
    method Tick(dt: nat)
      requires Valid()
      modifies this`now
      ensures Valid()
      ensures now == old(now) + dt
    {
      if waitedOnce && (phase == LoopTop || phase == Taking) {
        HasDueMonotone(pending, [], now, now + dt);
        assert pending + [] == pending;
      }
      RanWhenDueAfterTick(executed, now, now + dt);
      now := now + dt;
    }

    /** The test of `while (running)` at the top of the dispatch loop. */
    method CheckRunning()
      requires Valid() && phase == LoopTop
      modifies this`phase
      ensures Valid()
      ensures phase == if running then Taking else Exited
    {
      phase := if running then Taking else Exited;
    }

    /**
     * The take of line 29 and the start of a Waiter for the task taken. An empty
     * store blocks the take: nothing changes and no task is returned. Otherwise
     * the earliest entry leaves the store whether or not it is due, becomes the
     * new Waiter's, and the thread enters waitForNextTask.
     */
    method Take() returns (taken: Option<TimedTask>)
      requires Valid() && phase == Taking
      modifies this`pending, this`inFlight, this`phase
      ensures Valid()
      ensures old(pending) == [] ==> taken == None && pending == [] && inFlight == old(inFlight) && phase == Taking
      ensures old(pending) != [] ==> taken.Some? && (taken.value, pending) == TakeEarliest(old(pending))
      ensures taken.Some? ==> taken.value in old(pending) && NoLaterThanAll(taken.value, old(pending))
      ensures taken.Some? ==> multiset(pending) + multiset{taken.value} == multiset(old(pending))
      ensures taken.Some? ==> inFlight == old(inFlight) + multiset{taken.value} && phase == WaitingForNext
      ensures waitedOnce ==> taken.Some? && ShouldRunNow(taken.value, now)
    {
      if pending == [] {
        return None;
      }
      var r := TakeEarliest(pending);
      var t := r.0;
      if waitedOnce {
        TakeFromDueStoreIsDue(pending, now);
        assert ShouldRunNow(t, now);
      }
      ConservedAfterTake(pending, inFlight, executed, submitted, t, r.1);
      assert RanWhenDue(executed, now);
      pending := r.1;
      inFlight := inFlight + multiset{t};
      phase := WaitingForNext;
      taken := Some(t);
    }

    /**
     * One evaluation of waitForNextTask's loop test on a fresh peek: return to
     * the loop top once the earliest pending task is due, otherwise report the
     * wait the thread enters until the next notify or timeout.
     */
    method WaitForNextTaskStep() returns (w: Option<WaitCall>)
      requires Valid() && phase == WaitingForNext
      modifies this`phase, this`waitedOnce
      ensures Valid()
      ensures w == NextTaskWait(pending, now)
      ensures w.None? <==> HasDue(pending, now)
      ensures phase == if w.None? then LoopTop else WaitingForNext
      ensures waitedOnce == (old(waitedOnce) || w.None?)
    {
      w := NextTaskWait(pending, now);
      if w.None? {
        phase := LoopTop;
        waitedOnce := true;
      }
    }

    /**
     * One iteration of the Waiter that owns `t`: when `t` is due its job runs,
     * once, and the Waiter ends; otherwise it waits for the remaining delay.
     */
    method WaiterStep(t: TimedTask) returns (w: Option<WaitCall>)
      requires Valid() && t in inFlight
      modifies this`inFlight, this`executed
      ensures Valid()
      ensures w == WaiterWait(t, now)
      ensures w.None? <==> ShouldRunNow(t, now)
      ensures w.None? ==> inFlight == old(inFlight) - multiset{t} && executed == old(executed) + [Execution(t, now)]
      ensures w.Some? ==> inFlight == old(inFlight) && executed == old(executed)
    {
      w := WaiterWait(t, now);
      if w.None? {
        ConservedAfterRun(pending, inFlight, executed, submitted, Execution(t, now));
        RanWhenDueAfterRun(executed, now, t);
        inFlight := inFlight - multiset{t};
        executed := executed + [Execution(t, now)];
      }
    }

    /** No job runs more often than it was submitted, and every run is of a submitted task. */
    lemma RunsBoundedBySubmissions()
      requires Valid()
      ensures forall t :: Completed(executed)[t] <= submitted[t]
      ensures forall i :: 0 <= i < |executed| ==> executed[i].task in submitted
    {
    }

    /** Each copy of a submitted task is pending, owned by a Waiter or run: the counts add up, so none is lost. */
    lemma SubmittedIsSomewhere(t: TimedTask)
      requires Valid() && t in submitted
      ensures multiset(pending)[t] + inFlight[t] + Completed(executed)[t] == submitted[t]
      ensures t in pending || t in inFlight || t in Completed(executed)
    {
      assert t in multiset(pending) + inFlight + Completed(executed);
    }
  }
}
