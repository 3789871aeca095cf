/**
 * The task store: the scheduler's priority queue of pending tasks, ordered by
 * due time through CompareDue. Entries are kept in insertion order; taking
 * removes the first entry that is no later than every other one, which is one
 * of the minimum entries the queue may hand out.
 */
module TaskStore {
  import opened TimedTasks

  datatype Option<T> = None | Some(value: T)

  /** `t` is no later than any entry of `s` under the queue's comparator. */
  predicate NoLaterThanAll(t: TimedTask, s: seq<TimedTask>)
  {
    forall j :: 0 <= j < |s| ==> CompareDue(t, s[j]) <= 0
  }

  /** Some entry of `s` is due at the clock reading `now`. */
  predicate HasDue(s: seq<TimedTask>, now: int)
  {
    exists j :: 0 <= j < |s| && ShouldRunNow(s[j], now)
  }

  /** The position of the first minimum entry of a non-empty store. */
  function EarliestIndex(s: seq<TimedTask>): (i: nat)
    requires |s| > 0
    ensures i < |s|
    ensures NoLaterThanAll(s[i], s)
    ensures forall j :: 0 <= j < i ==> CompareDue(s[j], s[i]) > 0
  {
    if |s| == 1 then 0
    else
      var k := EarliestIndex(s[1..]) + 1;
      assert forall j :: 1 <= j < |s| ==> s[j] == s[1..][j - 1];
      if CompareDue(s[0], s[k]) <= 0 then 0 else k
  }

  /** The queue's non-blocking peek: a minimum entry, or nothing when the store is empty. */
  function Peek(s: seq<TimedTask>): (r: Option<TimedTask>)
    ensures r.None? <==> s == []
    ensures r.Some? ==> r.value in s && NoLaterThanAll(r.value, s)
  {
    if s == [] then None else Some(s[EarliestIndex(s)])
  }

  /** `s` with the entry at position `i` removed. */
  function RemoveAt(s: seq<TimedTask>, i: nat): (r: seq<TimedTask>)
    requires i < |s|
    ensures |r| == |s| - 1
    ensures multiset(r) + multiset{s[i]} == multiset(s)
  {
    assert s == s[..i] + [s[i]] + s[i + 1..];
    s[..i] + s[i + 1..]
  }

  /** The queue's take on a non-empty store: a minimum entry and the store without it. */
  function TakeEarliest(s: seq<TimedTask>): (r: (TimedTask, seq<TimedTask>))
    requires |s| > 0
    ensures r.0 in s && NoLaterThanAll(r.0, s)
    ensures Some(r.0) == Peek(s)
    ensures multiset(r.1) + multiset{r.0} == multiset(s)
  {
    var i := EarliestIndex(s);
    (s[i], RemoveAt(s, i))
  }

  /**
   * The entry a take hands out is no later than anything left behind, so among
   * tasks that are pending together, dispatch follows due-time order.
   */
  lemma TakeNoLaterThanRest(s: seq<TimedTask>)
    requires |s| > 0
    ensures NoLaterThanAll(TakeEarliest(s).0, TakeEarliest(s).1)
    ensures TakeEarliest(s).1 != [] ==>
              TakeEarliest(s).0.dueAt <= Peek(TakeEarliest(s).1).value.dueAt
  {
    var (t, rest) := TakeEarliest(s);
    forall j | 0 <= j < |rest| ensures CompareDue(t, rest[j]) <= 0 {
      assert rest[j] in multiset(rest);
      assert rest[j] in multiset(s);
    }
  }

  /**
   * The peeked minimum is due exactly when some entry is due: the exit test of
   * the dispatch loop's wait looks at the minimum only, and loses nothing by it.
   */
  lemma PeekDueIffHasDue(s: seq<TimedTask>, now: int)
    ensures (Peek(s).Some? && ShouldRunNow(Peek(s).value, now)) <==> HasDue(s, now)
  {
    if HasDue(s, now) {
      var j :| 0 <= j < |s| && ShouldRunNow(s[j], now);
      assert CompareDue(Peek(s).value, s[j]) <= 0;
    }
    if Peek(s).Some? && ShouldRunNow(Peek(s).value, now) {
      var k :| 0 <= k < |s| && s[k] == Peek(s).value;
      assert ShouldRunNow(s[k], now);
    }
  }

  /**
   * Of two entries with distinct due times, any take that hands out a minimum
   * entry and keeps the rest hands out the earlier one and keeps the other.
   */
  lemma TakeOfTwo(s: seq<TimedTask>, a: TimedTask, b: TimedTask, t: TimedTask, rest: seq<TimedTask>)
    requires a.dueAt < b.dueAt && (s == [a, b] || s == [b, a])
    requires t in s && NoLaterThanAll(t, s)
    requires multiset(rest) + multiset{t} == multiset(s)
    ensures t == a && rest == [b]
  {
    assert CompareDue(t, if s[0] == a then s[0] else s[1]) <= 0;
    assert multiset(s) == multiset{a, b};
    assert multiset(rest) == multiset{b};
    assert |rest| == 1;
    assert rest[0] in multiset(rest);
  }

  /** When some entry is due, the entry a take hands out is due too. */
  lemma TakeFromDueStoreIsDue(s: seq<TimedTask>, now: int)
    requires HasDue(s, now)
    ensures |s| > 0 && ShouldRunNow(TakeEarliest(s).0, now)
  {
    var j :| 0 <= j < |s| && ShouldRunNow(s[j], now);
    assert CompareDue(TakeEarliest(s).0, s[j]) <= 0;
  }

  /** A submission keeps every due entry, and a forward clock keeps them due. */
  lemma HasDueMonotone(s: seq<TimedTask>, extra: seq<TimedTask>, now: int, later: int)
    requires HasDue(s, now) && now <= later
    ensures HasDue(s + extra, later)
  {
    var j :| 0 <= j < |s| && ShouldRunNow(s[j], now);
    assert (s + extra)[j] == s[j];
    assert ShouldRunNow((s + extra)[j], later);
  }
}
