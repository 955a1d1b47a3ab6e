/**
  RegisteredTask: a countdown that runs a task when it reaches zero and
  then, if a repeat interval is set, rearms itself.

  The task body is left abstract: a run is recorded as the tick it was given.
  Counters are unbounded integers (the source's `long` never wraps in practice).
 */
module Ticker {
  import opened Arith

  datatype Task = Task(leftTicks: int, repeatInterval: int)

  /** `delay(task, d)`: run once, d checks from now. */
  function Delay(delay: int): (t: Task)
    ensures t.leftTicks == delay && t.repeatInterval == 0
  {
    Task(delay, 0)
  }

  /** `repeat(task, r)`: run on the next check, then every r checks. */
  function Repeat(repeat: int): (t: Task)
    ensures t.leftTicks == 1 && t.repeatInterval == repeat
  {
    Task(1, repeat)
  }

  /** `delayAndRepeat(task, d, r)`. */
  function DelayAndRepeat(delay: int, repeat: int): (t: Task)
    ensures t.leftTicks == delay && t.repeatInterval == repeat
  {
    Task(delay, repeat)
  }

  /** What one `check` does: the task afterwards, and whether it ran. */
  datatype Checked = Checked(task: Task, ran: bool)

  /** `check(tick)`: count down by one; on reaching exactly zero, run and rearm with the interval. */
  function Check(t: Task): (c: Checked)
    ensures c.task.repeatInterval == t.repeatInterval
    ensures c.ran <==> t.leftTicks == 1
    ensures c.ran ==> c.task.leftTicks == t.repeatInterval
    ensures !c.ran ==> c.task.leftTicks == t.leftTicks - 1
  {
    var left := t.leftTicks - 1;
    if left == 0 then Checked(Task(left + t.repeatInterval, t.repeatInterval), true)
    else Checked(Task(left, t.repeatInterval), false)
  }

  /** `stopRepeating()`. */
  function StopRepeating(t: Task): (s: Task)
    ensures s.leftTicks == -1 && s.repeatInterval == t.repeatInterval
  {
    t.(leftTicks := -1)
  }

  /** The task after n checks. */
  function After(t: Task, n: nat): (a: Task)
    ensures a.repeatInterval == t.repeatInterval
  {
    if n == 0 then t else Check(After(t, n - 1)).task
  }

  /** Whether the k-th check (counting from 1) runs the task. */
  predicate RunsOn(t: Task, k: nat)
    requires k >= 1
  {
    Check(After(t, k - 1)).ran
  }

  /** Feeds one `check` per tick and returns the task and the ticks the task ran with. */
  function Run(t: Task, ticks: seq<int>): (r: (Task, seq<int>))
    ensures r.0 == After(t, |ticks|)
    ensures |r.1| <= |ticks|
    decreases |ticks|
  {
    if ticks == [] then (t, [])
    else
      var init := Run(t, ticks[..|ticks| - 1]);
      assert init.0 == After(t, |ticks| - 1);
      var c := Check(init.0);
      (c.task, if c.ran then init.1 + [ticks[|ticks| - 1]] else init.1)
  }

  /** A task whose counter is zero or below never runs again. */
  lemma {:induction false} NonPositiveNeverRuns(t: Task, n: nat)
    requires t.leftTicks <= 0
    ensures After(t, n).leftTicks == t.leftTicks - n
    ensures forall k :: 1 <= k <= n ==> !RunsOn(t, k)
  {
    if n > 0 {
      NonPositiveNeverRuns(t, n - 1);
    }
  }

  /** A delay of zero or less means the task never runs, whatever the interval. */
  lemma NonPositiveDelayNeverRuns(delay: int, repeat: int, k: nat)
    requires delay <= 0 && k >= 1
    ensures !RunsOn(DelayAndRepeat(delay, repeat), k)
  {
    NonPositiveNeverRuns(DelayAndRepeat(delay, repeat), k);
  }

  /** After `stopRepeating` no later check runs the task. */
  lemma StoppedNeverRuns(t: Task, k: nat)
    requires k >= 1
    ensures !RunsOn(StopRepeating(t), k)
  {
    NonPositiveNeverRuns(StopRepeating(t), k);
  }

  /** Without a repeat interval the task runs at most once. */
  lemma {:induction false} NoRepeatRunsAtMostOnce(t: Task, j: nat, k: nat)
    requires t.repeatInterval == 0
    requires 1 <= j < k
    ensures !(RunsOn(t, j) && RunsOn(t, k))
  {
    if RunsOn(t, j) {
      var s := After(t, j);
      assert s.leftTicks == 0;
      NonPositiveNeverRuns(s, k - j);
      AfterAdds(t, j, k - 1 - j);
      assert !RunsOn(s, k - j);
    }
  }

  lemma {:induction false} AfterAdds(t: Task, m: nat, n: nat)
    ensures After(After(t, m), n) == After(t, m + n)
  {
    if n > 0 {
      AfterAdds(t, m, n - 1);
    }
  }

  /**
    With a delay d >= 1 and an interval r >= 1, the counter after j checks
    counts down to the first run and then cycles through r, r-1, ..., 1.
   */
  lemma {:induction false} CounterAfter(d: int, r: int, j: nat)
    requires d >= 1 && r >= 1
    ensures After(Task(d, r), j).repeatInterval == r
    ensures j < d ==> After(Task(d, r), j).leftTicks == d - j
    ensures j >= d ==> After(Task(d, r), j).leftTicks == r - (j - d) % r
  {
    if j > 0 {
      CounterAfter(d, r, j - 1);
      if j - 1 >= d {
        ModStep(j - 1 - d, j - d, r);
      }
    }
  }

  /** Stepping a remainder on by one: y is x + 1. */
  lemma ModStep(x: nat, y: nat, r: int)
    requires r >= 1 && y == x + 1
    ensures y % r == if x % r == r - 1 then 0 else x % r + 1
  {
    var q := x / r;
    assert x == q * r + x % r;
    if x % r == r - 1 {
      assert y == (q + 1) * r;
      ModUnique(y, r, q + 1, 0);
    } else {
      ModUnique(y, r, q, x % r + 1);
    }
  }

  /**
    The schedule: with delay d >= 1 and interval r >= 1 the task runs on the
    k-th check exactly when k is d, d + r, d + 2r, ...
   */
  lemma Schedule(d: int, r: int, k: nat)
    requires d >= 1 && r >= 1 && k >= 1
    ensures RunsOn(DelayAndRepeat(d, r), k) <==> k >= d && (k - d) % r == 0
  {
    CounterIsOne(d, r, k - 1, k - d);
  }

  /** After j checks the counter is 1, so the next check runs, exactly when x = j + 1 - d is on the schedule. */
  lemma CounterIsOne(d: int, r: int, j: nat, x: int)
    requires d >= 1 && r >= 1 && x == j + 1 - d
    ensures After(Task(d, r), j).leftTicks == 1 <==> x >= 0 && x % r == 0
  {
    CounterAfter(d, r, j);
    ScheduleCounter(d, r, j, After(Task(d, r), j).leftTicks, x);
  }

  /** The arithmetic of `CounterIsOne`, on the counter value `CounterAfter` gives. */
  lemma ScheduleCounter(d: int, r: int, j: nat, left: int, x: int)
    requires d >= 1 && r >= 1 && x == j + 1 - d
    requires j < d ==> left == d - j
    requires j >= d ==> left == r - (j - d) % r
    ensures left == 1 <==> x >= 0 && x % r == 0
  {
    if j >= d {
      ModStep(j - d, x, r);
    }
  }

  /** `delay(d)` with d >= 1 runs on the d-th check and on no other. */
  lemma DelayRunsOnce(d: int, k: nat)
    requires d >= 1 && k >= 1
    ensures RunsOn(Delay(d), k) <==> k == d
  {
    var t := Delay(d);
    if k < d {
      CounterFromDelay(d, k - 1);
    } else if k == d {
      CounterFromDelay(d, d - 1);
    } else {
      CounterFromDelay(d, d - 1);
      NoRepeatRunsAtMostOnce(t, d, k);
    }
  }

  lemma {:induction false} CounterFromDelay(d: int, j: nat)
    requires d >= 1 && j < d
    ensures After(Delay(d), j) == Task(d - j, 0)
  {
    if j > 0 {
      CounterFromDelay(d, j - 1);
      CountDownStep(After(Delay(d), j - 1), d - j);
    }
  }

  /** A check on a counter above 1 and no interval only counts down. */
  lemma CountDownStep(t: Task, left: int)
    requires t == Task(left + 1, 0) && left >= 1
    ensures Check(t) == Checked(Task(left, 0), false)
  {
  }

  /** `repeat(r)` with r >= 1 runs on every r-th check starting with the first. */
  lemma RepeatSchedule(r: int, k: nat)
    requires r >= 1 && k >= 1
    ensures RunsOn(Repeat(r), k) <==> (k - 1) % r == 0
  {
    Schedule(1, r, k);
  }

  /** The ticks `Run` reports are exactly the ticks of the checks that ran, in order. */
  lemma {:induction false} RunReportsRuns(t: Task, ticks: seq<int>)
    ensures Run(t, ticks).1 == RanTicks(t, ticks, |ticks|)
    decreases |ticks|
  {
    if ticks != [] {
      var n := |ticks|;
      var init := ticks[..n - 1];
      RunReportsRuns(t, init);
      RanTicksPrefix(t, ticks, n - 1);
      var prev := Run(t, init);
      var c := Check(prev.0);
      assert RunsOn(t, n) == c.ran;
      assert Run(t, ticks).1 == if c.ran then prev.1 + [ticks[n - 1]] else prev.1;
    }
  }

  /** The ticks among the first n whose check ran the task. */
  function RanTicks(t: Task, ticks: seq<int>, n: nat): seq<int>
    requires n <= |ticks|
  {
    if n == 0 then [] else RanTicks(t, ticks, n - 1) + (if RunsOn(t, n) then [ticks[n - 1]] else [])
  }

  lemma {:induction false} RanTicksPrefix(t: Task, ticks: seq<int>, n: nat)
    requires n <= |ticks| - 1
    ensures RanTicks(t, ticks[..|ticks| - 1], n) == RanTicks(t, ticks, n)
  {
    if n > 0 {
      RanTicksPrefix(t, ticks, n - 1);
    }
  }
}
