# genericScheduler: a verified model of SchedulerClass

`SchedulerClass` is a small in-process job scheduler. Callers submit a job
either with a delay in milliseconds (`add(task)`, `add(task, delayMs)`) or
with an absolute date (`addWithScheduleDate`). Each submission becomes a
`TimedTask` holding the job and the instant at which it becomes due, and
goes into a priority queue ordered by that instant. A dispatch thread in
`start()` repeatedly takes the earliest task and hands it to a fresh
Waiter thread. The Waiter sleeps on a shared lock until the task is due and
then runs the job. Before the next take, the dispatch thread waits in
`waitForNextTask()` until the earliest pending task is due. `stop()` clears
the `running` flag, which the dispatch loop reads only at its top.

The model is a sequential state machine written in Dafny:

- `timed_task.dfy` (module `TimedTasks`): the timed task, its two
  factories, `runFromNow`, `shouldRunNow` and the queue's comparator.
- `task_store.dfy` (module `TaskStore`): the pending store as a sequence,
  with the queue's `peek` and `take` and their ordering properties.
- `waits.dfy` (module `Waits`): what each loop's `lock.wait(...)` call
  does for a clock reading, following the contract of
  `java.lang.Object.wait(long)`. It holds both the code as written (two
  clock readings) and the single-reading version the rest of the model
  uses.
- `scheduler.dfy` (module `Scheduling`): class `Scheduler`. It holds the
  store, the `running` flag, the tasks owned by Waiters, the log of runs,
  the clock and the dispatch thread's control point. Each caller step,
  dispatch step and Waiter step is a method. Every method preserves an
  invariant:
  - every submitted task is pending, owned by a Waiter or run, exactly once;
  - every job ran at or after its due time (the log lists runs by the
    clock reading at which their Waiter ran them);
  - the loop exits only after seeing `running` false;
  - after a first wait, the loop only goes on to a take with a due task
    pending.

Time is an unbounded integer number of milliseconds. The clock moves only
through `Scheduler.Tick`, and only forward. Threads become steps that may
be interleaved in any order. A wait that would block is reported as the
`WaitCall` value the thread enters; leaving the wait is a later step by the
same thread.

## Model

| member | source | states |
|---|---|---|
| TimedTasks.FromTask | SchedulerClass.java:98-102 | the task carries the submitted job, and `runFromNow` at the submission instant equals the requested delay |
| TimedTasks.FromTaskScheduleDateTime | SchedulerClass.java:104-108 | the task carries the job, and at every clock reading its remaining delay is the date minus that reading: the date is kept as given |
| TimedTasks.RunFromNow | SchedulerClass.java:114-116 | the clock reading plus the remaining delay is the due instant |
| TimedTasks.ShouldRunNow | SchedulerClass.java:118-120 | a task should run exactly when its due instant is at or before the clock reading |
| TimedTasks.CompareDue | SchedulerClass.java:15-20 | the comparator returns -1, 0 or 1, with its sign matching the order of the two due instants, in both directions |
| TimedTasks.DelayDueIffNotPositive | SchedulerClass.java:98-102 | a delay submission is due at the submission instant exactly when the delay is not positive; its due instant is now plus the delay |
| TimedTasks.ScheduleDateDueIffNotFuture | SchedulerClass.java:104-108 | a date submission is due exactly when the date is not after the clock reading; its due instant is the date |
| TimedTasks.ShouldRunNowStaysTrue | SchedulerClass.java:118-120 | once a task is due it stays due as the clock moves forward |
| TimedTasks.CompareDueAntisymmetric | SchedulerClass.java:17-19 | swapping the comparator's arguments negates its result |
| TimedTasks.CompareDueTransitive | SchedulerClass.java:17-19 | "no later than" under the comparator is transitive |
| TaskStore.EarliestIndex | SchedulerClass.java:15-20 | the position found holds an entry no later than every entry, and every entry before it is strictly later |
| TaskStore.Peek | SchedulerClass.java:54 | the peek is empty exactly when the store is; otherwise it is an entry no later than every entry |
| TaskStore.RemoveAt | SchedulerClass.java:29 | removing one position shortens the store by one and removes exactly that entry from its multiset |
| TaskStore.TakeEarliest | SchedulerClass.java:29 | the take hands out the entry the peek shows, which is no later than every entry, and leaves the store's multiset minus that entry |
| TaskStore.TakeNoLaterThanRest | SchedulerClass.java:15-20 | the entry taken is no later than any entry left behind, and no later than the next peek |
| TaskStore.PeekDueIffHasDue | SchedulerClass.java:54-55 | the peeked minimum is due exactly when some pending entry is due |
| TaskStore.TakeFromDueStoreIsDue | SchedulerClass.java:29 | when some entry is due, the entry taken is due |
| TaskStore.TakeOfTwo | SchedulerClass.java:15-20 | of two entries with distinct due instants, any minimum take hands out the earlier one and keeps the other |
| TaskStore.HasDueMonotone | SchedulerClass.java:70-82 | a due entry stays due after further submissions and as the clock moves forward |
| Waits.ObjectWait | SchedulerClass.java:37 | the wait throws for a negative timeout, waits for a notify only for zero, and is timed by the given amount when positive |
| Waits.WaiterWait | SchedulerClass.java:35-41 | the Waiter proceeds exactly when its task is due; otherwise it waits a positive time after which the task is due, and not one millisecond less |
| Waits.NextTaskWait | SchedulerClass.java:52-64 | the dispatch loop proceeds exactly when some pending task is due; it waits for a notify exactly when the store is empty; otherwise it waits a positive time after which a task is due, and not one millisecond less |
| Waits.NextTaskWaitOne | SchedulerClass.java:54-59 | with one pending task the dispatch loop proceeds once it is due and otherwise waits exactly until it is |
| Waits.WaiterWaitAsWritten | SchedulerClass.java:35-37 | as written: the loop test reads the clock once and the timeout a second time; it proceeds exactly when due at the first reading, and agrees with the single-reading wait when both readings are equal |
| Waits.NextTaskWaitAsWritten | SchedulerClass.java:54-59 | as written, with the same two readings: it proceeds exactly when some task is due at the first reading, and agrees with the single-reading wait when both readings are equal |
| Waits.WaiterWaitAsWrittenCanHangOrThrow | SchedulerClass.java:35-37 | a task due at 10 tested at 9: a second reading of 10 waits with no time limit, one of 11 throws, while the single-reading wait asks for 1 ms |
| Waits.NextTaskWaitAsWrittenCanHangOrThrow | SchedulerClass.java:55-59 | the same readings make the dispatch loop's wait unbounded or throwing on a non-empty store |
| Waits.SingleReadingWaitsAreTimed | SchedulerClass.java:35-41 | the single-reading waits never throw, and wait for a notify only on an empty store |
| Scheduling.CompletedAppend | SchedulerClass.java:44 | running one more job adds exactly its task to the multiset of completed tasks |
| Scheduling.ConservedAfterSubmit | SchedulerClass.java:70-82 | a submission keeps submitted = pending + in flight + completed |
| Scheduling.ConservedAfterTake | SchedulerClass.java:29-31 | a take that moves one entry to a new Waiter keeps the conservation |
| Scheduling.ConservedAfterRun | SchedulerClass.java:42-44 | a Waiter running its job moves the task from in flight to completed and keeps the conservation |
| Scheduling.RanWhenDueAfterRun | SchedulerClass.java:35-44 | running a due task now keeps every run at or after its due time |
| Scheduling.RanInClockOrder | SchedulerClass.java:35-44 | a fact about the model's run log: an entry later in the log was run at a clock reading no earlier than any entry before it |
| Scheduling.RanWhenDueAfterTick | SchedulerClass.java:35-44 | runs stay in the past as the clock moves forward |
| Scheduling.Scheduler.constructor | SchedulerClass.java:15-23 | a new scheduler is running, with nothing pending, in flight or run, at the loop top |
| Scheduling.Scheduler.AddWithDelay | SchedulerClass.java:70-75 | exactly one task, due now plus the delay, is appended; nothing else changes; the invariant holds |
| Scheduling.Scheduler.Add | SchedulerClass.java:66-68 | the same effect as a submission with delay zero |
| Scheduling.Scheduler.AddWithScheduleDate | SchedulerClass.java:77-82 | exactly one task, due at the given date, is appended; nothing else changes |
| Scheduling.Scheduler.Stop | SchedulerClass.java:84-86 | clears `running` and nothing else: the store, the Waiters and the dispatch thread's position stay |
| Scheduling.Scheduler.Tick | SchedulerClass.java:115 | the clock moves forward by the given amount and the invariant holds |
| Scheduling.Scheduler.CheckRunning | SchedulerClass.java:28 | at the loop top the dispatch thread goes on to a take when `running`, and exits otherwise |
| Scheduling.Scheduler.Take | SchedulerClass.java:29-47 | an empty store blocks; otherwise a minimum entry, the first submitted among ties, leaves the store whether or not it is due and goes to a new Waiter; after a first wait the task taken is always due |
| Scheduling.Scheduler.WaitForNextTaskStep | SchedulerClass.java:52-64 | the loop returns to its top exactly when some pending task is due, and otherwise enters the single-reading wait |
| Scheduling.Scheduler.WaiterStep | SchedulerClass.java:31-46 | a Waiter runs its job exactly when its task is due: once, logged at the current clock reading, leaving the tasks in flight; otherwise it waits and nothing changes |
| Scheduling.Scheduler.RunsBoundedBySubmissions | SchedulerClass.java:29-46 | no task runs more often than it was submitted, and every run is of a submitted task |
| Scheduling.Scheduler.SubmittedIsSomewhere | SchedulerClass.java:29-46 | for every task, its pending, in-flight and completed counts add up to the times it was submitted, so a submitted task is always somewhere |

## Left out

- Threads, `synchronized`, `notify` and the scheduling of threads: every
  thread's step is atomic, and any interleaving of the methods is allowed.
  Whether a notify actually reaches a waiting thread is not modelled; a wait
  ends when its thread's next step is taken.
- Reading the clock (`Calendar.getInstance()`): the clock is the field
  `now`. Submissions and loop tests read it; only `Tick` moves it.
- Java `long` overflow of `now + delayMs` and of `runFromNow`: the clock is
  an unbounded integer.
- A negative delay is accepted, as the code does, and gives a task that is
  already due.
- The queue's `CAPACITY` of 10 is only an initial size of an unbounded
  queue, so it has no effect on behaviour.
- `PriorityBlockingQueue` internals: the store is a sequence in
  submission order, and a take hands out its first minimum entry.
- The `task != null` test at line 30: `take()` never returns null, so that
  branch is always taken.
- `InterruptedException` from `take` and `wait`: interrupts are not
  modelled.
- `YourTask.run()` and what a job does, including exceptions it throws. A
  job is an opaque value, and running it is recorded in the log.
- `ScheduleTask` and the example `main` and `YourTask` (date parsing and
  printing): they are a demonstration client, not part of the scheduler.
- Liveness ("every due task eventually runs") is not stated, since it
  depends on threads being scheduled. The model proves only safety: tasks
  are conserved, run only when due, and run at most once.
- Scheduling.Scheduler.Take: among entries with equal due instants it takes
  the first submitted (first in, first out), because its contract fixes the
  result to `TaskStore.TakeEarliest`. The heap does not keep that order. With
  three tied entries A, B, C, its dequeue moves C to the root, and on a tie
  siftDown leaves it there, so A, C, B come out. The model does not capture
  the heap's order among ties.
- Null arguments: jobs and dates are never null in the model. In the
  source, `addWithScheduleDate(task, null)` throws NullPointerException at
  line 106 and leaves the queue unchanged. `add(null, delayMs)` queues a task
  whose run throws at line 123.
- Scheduling.Scheduler.WaitForNextTaskStep: models the wait with one clock
  reading per iteration, which is the corrected behaviour. The two-reading
  code is the finding below, modelled by Waits.NextTaskWaitAsWritten.
- Scheduling.Scheduler.WaiterStep: uses the one-reading wait, for the same
  reason; the code as written is Waits.WaiterWaitAsWritten.

## Findings

| source | as written | input that shows it | evidently intended | confidence | as-written member | corrected member |
|---|---|---|---|---|---|---|
| SchedulerClass.java:35-37 | the Waiter tests `shouldRunNow()` and then calls `lock.wait(task.runFromNow())`, which reads the clock again | task due at 10; the test reads 9, the timeout reading is 10 (wait(0): no time limit) or 11 (wait(-1): IllegalArgumentException) | wait a positive time until due, computed from the reading that was tested | not executed | Waits.WaiterWaitAsWrittenCanHangOrThrow | Waits.WaiterWait |
| SchedulerClass.java:55-59 | the dispatch loop tests `nextTask.shouldRunNow()` and then calls `lock.wait(nextTask.runFromNow())` with a second clock reading | store holding one task due at 10; readings 9 then 10, or 9 then 11 | the same positive timed wait from one reading | not executed | Waits.NextTaskWaitAsWrittenCanHangOrThrow | Waits.NextTaskWait |
