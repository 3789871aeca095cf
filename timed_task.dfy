/**
 * Timed tasks: a job paired with the absolute instant at which it becomes due,
 * and the due-time arithmetic and ordering the scheduler relies on.
 * Instants and delays are milliseconds on an unbounded integer clock.
 */
module TimedTasks {

  /** The caller's opaque unit of work, told apart by an id; the scheduler only carries it around. */
  datatype Job = Job(id: nat)

  /** A job and the instant at or after which it may run. */
  datatype TimedTask = TimedTask(job: Job, dueAt: int)

  /** A task due `delayMs` after the clock reading `now`. */
  function FromTask(job: Job, delayMs: int, now: int): (t: TimedTask)
    ensures t.job == job
    ensures RunFromNow(t, now) == delayMs
  {
    TimedTask(job, now + delayMs)
  }

  /** A task due exactly at the absolute instant `date`, whatever the clock says. */
  function FromTaskScheduleDateTime(job: Job, date: int): (t: TimedTask)
    ensures t.job == job
    ensures forall now :: RunFromNow(t, now) == date - now
  {
    TimedTask(job, date)
  }

  /** Milliseconds left until `t` is due; zero or negative once it is due. */
  function RunFromNow(t: TimedTask, now: int): (ms: int)
    ensures now + ms == t.dueAt
  {
    t.dueAt - now
  }

  /** Whether `t` may run at the clock reading `now`. */
  predicate ShouldRunNow(t: TimedTask, now: int)
    ensures ShouldRunNow(t, now) <==> t.dueAt <= now
  {
    RunFromNow(t, now) <= 0
  }

  /** The queue's comparator: the sign of comparing the two due instants. */
  function CompareDue(s: TimedTask, t: TimedTask): (c: int)
    ensures -1 <= c <= 1
    ensures c < 0 <==> s.dueAt < t.dueAt
    ensures c == 0 <==> s.dueAt == t.dueAt
    ensures c > 0 <==> s.dueAt > t.dueAt
  {
    if s.dueAt < t.dueAt then -1 else if s.dueAt == t.dueAt then 0 else 1
  }

  /** A delay submission is due at once exactly when the delay is not positive. */
  lemma DelayDueIffNotPositive(job: Job, delayMs: int, now: int)
    ensures ShouldRunNow(FromTask(job, delayMs, now), now) <==> delayMs <= 0
    ensures FromTask(job, delayMs, now).dueAt == now + delayMs
  {
  }

  /** An absolute-time submission is due exactly when its instant is not in the future. */
  lemma ScheduleDateDueIffNotFuture(job: Job, date: int, now: int)
    ensures ShouldRunNow(FromTaskScheduleDateTime(job, date), now) <==> date <= now
    ensures FromTaskScheduleDateTime(job, date).dueAt == date
  {
  }

  /** Once due, a task stays due as the clock moves forward. */
  lemma ShouldRunNowStaysTrue(t: TimedTask, now: int, later: int)
    requires ShouldRunNow(t, now) && now <= later
    ensures ShouldRunNow(t, later)
  {
  }

  /** The comparator is antisymmetric: swapping the arguments negates the result. */
  lemma CompareDueAntisymmetric(s: TimedTask, t: TimedTask)
    ensures CompareDue(s, t) == -CompareDue(t, s)
  {
  }

  /** "No later than" under the comparator is transitive. */
  lemma CompareDueTransitive(a: TimedTask, b: TimedTask, c: TimedTask)
    requires CompareDue(a, b) <= 0 && CompareDue(b, c) <= 0
    ensures CompareDue(a, c) <= 0
  {
  }
}
