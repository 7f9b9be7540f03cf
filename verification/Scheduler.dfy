/** The cooperative scheduler: Task and Node::CheckScheduler, and the rates at which a task runs over a whole run. */
module Scheduler {

  const WORD := 0x1_0000_0000_0000_0000
  type u64 = n: nat | n < 0x1_0000_0000_0000_0000

  /** The addition of uint64_t: the sum modulo 2^64, in linear terms. */
  function Plus(a: u64, b: u64): u64 { if a + b < WORD then a + b else a + b - WORD }

  lemma PlusIsModulo(a: u64, b: u64)
    ensures Plus(a, b) == (a + b) % WORD
  {
  }

  // ---------------------------------------------------------------- objects

  /** A task; its `next_run_` has no initialiser, so the first value is whatever the memory held. */
  class Task {
    const interval: u64
    var nextRun: u64

    constructor (interval: u64, memory: u64)
      ensures this.interval == interval && nextRun == memory
    {
      this.interval := interval;
      nextRun := memory;
    }

    function NextRun(): u64
      reads this
    {
      nextRun
    }

    method UpdateNextRun(currentTime: u64)
      modifies this
      ensures nextRun == Plus(currentTime, interval)
    {
      nextRun := Plus(currentTime, interval);
    }
  }

  /** One call of a task's Execute. */
  datatype Execution = Execution(task: nat, time: u64)

  /** The scheduling part of a node. `executions` records the calls of Execute in their order. */
  class Node {
    var schedule: seq<Task>
    var online: bool
    var startedAt: u64
    var executions: seq<Execution>

    ghost predicate Valid()
      reads this
    {
      forall i, j | 0 <= i < j < |schedule| :: schedule[i] != schedule[j]
    }

    /** The next run times, task by task. */
    ghost function NextRuns(): (r: seq<u64>)
      reads this, schedule
      ensures |r| == |schedule| && forall i | 0 <= i < |r| :: r[i] == schedule[i].nextRun
    {
      seq(|schedule|, i requires 0 <= i < |schedule| reads this, schedule => schedule[i].nextRun)
    }

    ghost function Intervals(): (r: seq<u64>)
      reads this
      ensures |r| == |schedule| && forall i | 0 <= i < |r| :: r[i] == schedule[i].interval
    {
      seq(|schedule|, i requires 0 <= i < |schedule| reads this => schedule[i].interval)
    }

    /** Like `next_run_`, `online_` is not initialised. */
    constructor (memory: bool)
      ensures Valid() && schedule == [] && online == memory && startedAt == 0 && executions == []
    {
      schedule, online, startedAt, executions := [], memory, 0, [];
    }

    /** Takes the task over: it is not scheduled already. */
    method Schedule(task: Task)
      requires Valid() && task !in schedule
      modifies this`schedule
      ensures Valid() && schedule == old(schedule) + [task]
    {
      schedule := schedule + [task];
    }

    method StartNode(startedAt: u64)
      requires Valid()
      modifies this`startedAt, this`online
      ensures Valid() && online && this.startedAt == startedAt
    {
      this.startedAt := startedAt;
      online := true;
    }

    /** One turn of the loop: the task takes the step of its automaton, the others are as they were. */
    method Check(i: nat, now: u64)
      requires Valid() && i < |schedule|
      modifies this`executions, schedule[i]
      ensures Valid()
      ensures NextRuns() == old(NextRuns())[i := AfterTick(old(NextRuns())[i], Intervals()[i], now)]
      ensures executions == old(executions) + if now >= old(NextRuns())[i] then [Execution(i, now)] else []
    {
      var task := schedule[i];
      if now >= task.NextRun() {
        task.UpdateNextRun(now);
        executions := executions + [Execution(i, now)];
      }
    }

    /** Every task that is due runs once, in the order of scheduling, and each task takes the step of its own automaton;
        a node that is not online does nothing. */
    method CheckScheduler(now: u64)
      requires Valid()
      modifies this`executions, set t | t in schedule
      ensures Valid() && schedule == old(schedule)
      ensures NextRuns() == if online then AllAfterTick(old(NextRuns()), Intervals(), now) else old(NextRuns())
      ensures executions == old(executions) + if online then DueTasks(old(NextRuns()), now) else []
      ensures old(executions) <= executions
      ensures online ==> OnceInOrder(executions[|old(executions)|..], old(NextRuns()), now)
    {
      if online {
        ghost var before, intervals, recorded := NextRuns(), Intervals(), executions;
        var i := 0;
        while i < |schedule|
          invariant i <= |schedule| && Valid() && schedule == old(schedule) && Intervals() == intervals
          invariant Ticked(before, NextRuns(), intervals, now, i)
          invariant executions == recorded + DueTasks(before[..i], now)
        {
          LastTicked(before, NextRuns(), intervals, now, i);
          DueMore(recorded, before, now, i);
          Check(i, now);
          i := i + 1;
        }
        AllTicked(before, NextRuns(), intervals, now);
        assert before[..i] == before;
        DueInOrder(before, now);
        assert executions[|recorded|..] == DueTasks(before, now);
      }
    }
  }

  /** The first `n` tasks have taken their step. */
  predicate Ticked(before: seq<u64>, after: seq<u64>, intervals: seq<u64>, now: u64, n: nat)
    requires |before| == |intervals|
  {
    && |after| == |before| && n <= |before| && after[n..] == before[n..]
    && after[..n] == AllAfterTick(before, intervals, now)[..n]
  }

  lemma LastTicked(before: seq<u64>, after: seq<u64>, intervals: seq<u64>, now: u64, i: nat)
    requires |before| == |intervals| && i < |before| && Ticked(before, after, intervals, now, i)
    ensures after[i] == before[i]
    ensures Ticked(before, after[i := AfterTick(before[i], intervals[i], now)], intervals, now, i + 1)
  {
    var later := after[i := AfterTick(before[i], intervals[i], now)];
    assert after[i] == after[i..][0] && before[i] == before[i..][0];
    assert later[..i + 1] == after[..i] + [later[i]];
    assert later[i + 1..] == after[i..][1..] && before[i + 1..] == before[i..][1..];
  }

  lemma AllTicked(before: seq<u64>, after: seq<u64>, intervals: seq<u64>, now: u64)
    requires |before| == |intervals| && Ticked(before, after, intervals, now, |before|)
    ensures after == AllAfterTick(before, intervals, now)
  {
    assert after[..|before|] == after;
  }

  /** Every task takes the step of its own automaton. */
  function AllAfterTick(next: seq<u64>, intervals: seq<u64>, now: u64): (r: seq<u64>)
    requires |next| == |intervals|
    ensures |r| == |next|
  {
    seq(|next|, i requires 0 <= i < |next| => AfterTick(next[i], intervals[i], now))
  }

  /** The tasks that are due, in order. */
  function DueTasks(next: seq<u64>, now: u64): seq<Execution> {
    if |next| == 0 then []
    else
      var n := |next| - 1;
      DueTasks(next[..n], now) + if now >= next[n] then [Execution(n, now)] else []
  }

  /** Exactly the tasks whose next run time has come, each once, in the order of scheduling, at the current time. */
  ghost predicate OnceInOrder(s: seq<Execution>, next: seq<u64>, now: u64) {
    && (forall i, j | 0 <= i < j < |s| :: s[i].task < s[j].task)
    && (forall i | 0 <= i < |s| :: s[i].time == now && s[i].task < |next| && next[s[i].task] <= now)
    && forall t | 0 <= t < |next| && next[t] <= now :: Execution(t, now) in s
  }

  lemma {:induction false} DueInOrder(next: seq<u64>, now: u64)
    ensures OnceInOrder(DueTasks(next, now), next, now)
  {
    if |next| > 0 {
      var n := |next| - 1;
      DueInOrder(next[..n], now);
      OneMoreDue(DueTasks(next[..n], now), next, now);
    }
  }

  lemma OneMoreDue(s: seq<Execution>, next: seq<u64>, now: u64)
    requires |next| > 0 && OnceInOrder(s, next[..|next| - 1], now)
    ensures OnceInOrder(s + if now >= next[|next| - 1] then [Execution(|next| - 1, now)] else [], next, now)
  {
    var n := |next| - 1;
    var last := if now >= next[n] then [Execution(n, now)] else [];
    forall t | 0 <= t < |next| && next[t] <= now
      ensures Execution(t, now) in s + last
    {
      assert t < n ==> next[..n][t] == next[t];
    }
  }

  lemma DueMore(recorded: seq<Execution>, next: seq<u64>, now: u64, i: nat)
    requires i < |next|
    ensures recorded + DueTasks(next[..i + 1], now)
      == recorded + DueTasks(next[..i], now) + if now >= next[i] then [Execution(i, now)] else []
  {
    assert next[..i + 1][..i] == next[..i];
  }

  // ---------------------------------------------------------------- one task over a run

  /** The automaton of a task: what a tick makes of the next run time. */
  function AfterTick(next: u64, interval: u64, now: u64): u64 {
    if now >= next then Plus(now, interval) else next
  }

  function NextAfter(next: u64, interval: u64, ticks: seq<u64>): u64 {
    if |ticks| == 0 then next else AfterTick(NextAfter(next, interval, ticks[..|ticks| - 1]), interval, ticks[|ticks| - 1])
  }

  /** The ticks at which the task runs. */
  function Runs(next: u64, interval: u64, ticks: seq<u64>): seq<u64> {
    if |ticks| == 0 then []
    else
      var n := |ticks| - 1;
      Runs(next, interval, ticks[..n]) + if ticks[n] >= NextAfter(next, interval, ticks[..n]) then [ticks[n]] else []
  }

  /** No execution comes before the next run time that the one before it set. */
  predicate Linked(s: seq<u64>, interval: u64) {
    forall i | 0 < i < |s| :: Plus(s[i - 1], interval) <= s[i]
  }

  /** The next run time: what the last execution set, or the first value if there was none. */
  predicate SetByLast(next: u64, s: seq<u64>, due: u64, interval: u64) {
    due == if |s| == 0 then next else Plus(s[|s| - 1], interval)
  }

  lemma {:induction false} RunsLinked(next: u64, interval: u64, ticks: seq<u64>)
    ensures Linked(Runs(next, interval, ticks), interval)
    ensures SetByLast(next, Runs(next, interval, ticks), NextAfter(next, interval, ticks), interval)
  {
    if |ticks| > 0 {
      var n := |ticks| - 1;
      RunsLinked(next, interval, ticks[..n]);
      LinkedMore(next, Runs(next, interval, ticks[..n]), NextAfter(next, interval, ticks[..n]), ticks[n], interval);
    }
  }

  /** One tick more, at `x`. */
  lemma LinkedMore(next: u64, s: seq<u64>, due: u64, x: u64, interval: u64)
    requires Linked(s, interval) && SetByLast(next, s, due, interval)
    ensures var r := s + if x >= due then [x] else [];
      Linked(r, interval) && SetByLast(next, r, AfterTick(due, interval, x), interval)
  {
  }

  predicate Spaced(s: seq<u64>, interval: u64) {
    forall i | 0 < i < |s| :: s[i - 1] + interval <= s[i]
  }

  /** None of these executions is so late that the next run time wraps around. */
  predicate NoWrap(s: seq<u64>, interval: u64) {
    forall i | 0 <= i < |s| :: s[i] + interval < WORD
  }

  function ButLast(s: seq<u64>): seq<u64> { if |s| == 0 then s else s[..|s| - 1] }

  /** Whatever the ticks, consecutive executions are at least an interval apart exactly when none of them, except perhaps
      the last, made the next run time wrap around. */
  lemma RunsSpaced(next: u64, interval: u64, ticks: seq<u64>)
    ensures var r := Runs(next, interval, ticks);
      Spaced(r, interval) <==> NoWrap(ButLast(r), interval)
  {
    RunsLinked(next, interval, ticks);
    LinkedSpaced(Runs(next, interval, ticks), interval);
  }

  lemma LinkedSpaced(s: seq<u64>, interval: u64)
    requires Linked(s, interval)
    ensures Spaced(s, interval) <==> NoWrap(ButLast(s), interval)
  {
    if NoWrap(ButLast(s), interval) {
      forall i | 0 < i < |s|
        ensures s[i - 1] + interval <= s[i]
      {
        assert ButLast(s)[i - 1] + interval < WORD;
      }
    } else {
      var i :| 0 <= i < |s| - 1 && s[i] + interval >= WORD;
      assert s[(i + 1) - 1] + interval > s[i + 1];
    }
  }

  /** The spacing is safe after some ticks, that is, no further tick can break it, exactly when no execution so far made the
      next run time wrap around; otherwise the very next tick may run the task again. */
  lemma SpacingIffNoWrap(next: u64, interval: u64, ticks: seq<u64>)
    ensures (forall later: u64 | Last(ticks) <= later :: Spaced(Runs(next, interval, ticks + [later]), interval))
      <==> NoWrap(Runs(next, interval, ticks), interval)
  {
    var r, due := Runs(next, interval, ticks), NextAfter(next, interval, ticks);
    forall later: u64 | Last(ticks) <= later
      ensures Spaced(Runs(next, interval, ticks + [later]), interval)
        <==> NoWrap(if later >= due then r else ButLast(r), interval)
    {
      RunsMore(next, interval, ticks, later);
      RunsSpaced(next, interval, ticks + [later]);
    }
    var soon: u64 := if Last(ticks) <= due then due else Last(ticks);
    assert Spaced(Runs(next, interval, ticks + [soon]), interval) <==> NoWrap(r, interval);
  }

  function Last(ticks: seq<u64>): u64 { if |ticks| == 0 then 0 else ticks[|ticks| - 1] }

  lemma RunsMore(next: u64, interval: u64, ticks: seq<u64>, later: u64)
    ensures var r, s := Runs(next, interval, ticks), Runs(next, interval, ticks + [later]);
      if later >= NextAfter(next, interval, ticks) then s == r + [later] && ButLast(s) == r else s == r
  {
    assert (ticks + [later])[..|ticks|] == ticks;
  }

  lemma SpacedMore(s: seq<u64>, x: u64, interval: u64)
    requires Spaced(s, interval) && (|s| > 0 ==> s[|s| - 1] + interval <= x)
    ensures Spaced(s + [x], interval)
  {
  }

  /** The part of a run that falls between `a` and `b`. */
  function Window(s: seq<u64>, a: u64, b: u64): seq<u64> {
    if |s| == 0 then []
    else
      var n := |s| - 1;
      Window(s[..n], a, b) + if a <= s[n] <= b then [s[n]] else []
  }

  predicate Inside(s: seq<u64>, a: u64, b: u64) {
    forall i | 0 <= i < |s| :: a <= s[i] <= b
  }

  lemma {:induction false} WindowSpaced(s: seq<u64>, a: u64, b: u64, interval: u64)
    requires Spaced(s, interval)
    ensures var w := Window(s, a, b);
      Spaced(w, interval) && Inside(w, a, b) && (|w| > 0 ==> |s| > 0 && w[|w| - 1] <= s[|s| - 1])
  {
    if |s| > 0 {
      var n := |s| - 1;
      var head, x := s[..n], s[n];
      SpacedInit(s, interval);
      WindowSpaced(head, a, b, interval);
      WindowStep(Window(head, a, b), head, x, a, b, interval);
    }
  }

  lemma SpacedInit(s: seq<u64>, interval: u64)
    requires Spaced(s, interval) && |s| > 0
    ensures Spaced(s[..|s| - 1], interval)
    ensures |s| > 1 ==> s[..|s| - 1][|s| - 2] + interval <= s[|s| - 1]
  {
  }

  lemma WindowStep(w: seq<u64>, head: seq<u64>, x: u64, a: u64, b: u64, interval: u64)
    requires Spaced(w, interval) && Inside(w, a, b) && (|w| > 0 ==> |head| > 0 && w[|w| - 1] <= head[|head| - 1])
    requires |head| > 0 ==> head[|head| - 1] + interval <= x
    ensures var v := w + if a <= x <= b then [x] else [];
      Spaced(v, interval) && Inside(v, a, b) && (|v| > 0 ==> v[|v| - 1] <= x)
  {
    if a <= x <= b {
      SpacedMore(w, x, interval);
    }
  }

  lemma {:induction false} SpacedSpread(s: seq<u64>, interval: u64)
    requires Spaced(s, interval) && |s| > 0
    ensures s[0] + (|s| - 1) * interval <= s[|s| - 1]
  {
    var n := |s| - 1;
    if n > 0 {
      SpacedInit(s, interval);
      SpacedSpread(s[..n], interval);
      assert n * interval == (n - 1) * interval + interval;
    }
  }

  /** At most floor((b - a) / interval) + 1 executions fall between `a` and `b`. */
  lemma RateBound(next: u64, interval: u64, ticks: seq<u64>, a: u64, b: u64)
    requires NoWrap(ButLast(Runs(next, interval, ticks)), interval) && interval > 0 && a <= b
    ensures |Window(Runs(next, interval, ticks), a, b)| <= (b - a) / interval + 1
  {
    var r := Runs(next, interval, ticks);
    RunsSpaced(next, interval, ticks);
    WindowSpaced(r, a, b, interval);
    WindowBound(Window(r, a, b), interval, a, b);
  }

  lemma WindowBound(w: seq<u64>, interval: u64, a: u64, b: u64)
    requires Spaced(w, interval) && Inside(w, a, b) && interval > 0 && a <= b
    ensures |w| <= (b - a) / interval + 1
  {
    if |w| > 0 {
      SpacedSpread(w, interval);
      QuotientAtLeast(b - a, interval, |w| - 1);
    } else {
      QuotientAtLeast(b - a, interval, 0);
    }
  }

  lemma QuotientAtLeast(n: nat, d: nat, q: nat)
    requires d > 0 && q * d <= n
    ensures q <= n / d
  {
    var k := n / d;
    assert n == d * k + n % d;
    Growing(k + 1, q, d);
  }

  lemma Growing(a: nat, b: nat, d: nat)
    ensures a <= b ==> a * d <= b * d
    ensures a * d == d * (a - 1) + d
  {
  }

  /** Ticks in order, at most `d` apart. */
  predicate Steady(ticks: seq<u64>, d: nat) {
    forall i | 0 < i < |ticks| :: ticks[i - 1] <= ticks[i] <= ticks[i - 1] + d
  }

  predicate Close(s: seq<u64>, gap: nat) {
    forall i | 0 < i < |s| :: s[i] < s[i - 1] + gap
  }

  /** With steady ticks the executions are less than an interval and a tick apart, wrap-around or not: a task can be late by
      less than a tick. After every tick the next execution is still ahead, unless that tick was an execution whose next
      run time wrapped around. */
  lemma {:induction false} RunsClose(next: u64, interval: u64, ticks: seq<u64>, d: nat)
    requires interval > 0 && Steady(ticks, d)
    ensures Close(Runs(next, interval, ticks), interval + d)
    ensures |ticks| > 0 ==>
      Caught(Runs(next, interval, ticks), NextAfter(next, interval, ticks), ticks[|ticks| - 1], interval)
  {
    if |ticks| > 0 {
      var n := |ticks| - 1;
      var before, last := ticks[..n], ticks[n];
      RunsClose(next, interval, before, d);
      RunsLinked(next, interval, before);
      var r, due := Runs(next, interval, before), NextAfter(next, interval, before);
      if n > 0 {
        assert before[n - 1] == ticks[n - 1] && ticks[n - 1] <= ticks[n] <= ticks[n - 1] + d;
        CloseStep(r, due, before[n - 1], last, interval, d);
      }
      CaughtAgain(r, due, last, interval);
    }
  }

  lemma CaughtAgain(r: seq<u64>, due: u64, x: u64, interval: u64)
    requires interval > 0
    ensures Caught(r + if x >= due then [x] else [], AfterTick(due, interval, x), x, interval)
  {
  }

  predicate Caught(r: seq<u64>, due: u64, tick: u64, interval: u64) {
    tick < due || (|r| > 0 && r[|r| - 1] == tick && tick + interval >= WORD)
  }

  /** A tick at `x` that runs the task, at most `d` after the tick before it. */
  lemma CloseStep(r: seq<u64>, due: u64, tick: u64, x: u64, interval: u64, d: nat)
    requires interval > 0 && Close(r, interval + d) && (|r| > 0 ==> due == Plus(r[|r| - 1], interval))
    requires Caught(r, due, tick, interval) && tick <= x <= tick + d
    ensures Close(r + if x >= due then [x] else [], interval + d)
  {
    if |r| > 0 {
      CloseMore(r, x, interval + d);
    }
  }

  lemma CloseMore(s: seq<u64>, x: u64, gap: nat)
    requires Close(s, gap) && (|s| > 0 ==> x < s[|s| - 1] + gap)
    ensures Close(s + [x], gap)
  {
  }

  // ---------------------------------------------------------------- the polling loop

  /** The times at which task `i` was executed. */
  function TimesOf(s: seq<Execution>, i: nat): seq<u64> {
    if |s| == 0 then []
    else
      var n := |s| - 1;
      TimesOf(s[..n], i) + if s[n].task == i then [s[n].time] else []
  }

  lemma {:induction false} TimesConcat(s: seq<Execution>, t: seq<Execution>, i: nat)
    ensures TimesOf(s + t, i) == TimesOf(s, i) + TimesOf(t, i)
  {
    if |t| == 0 {
      assert s + t == s;
    } else {
      var n := |t| - 1;
      assert (s + t)[..|s + t| - 1] == s + t[..n];
      TimesConcat(s, t[..n], i);
    }
  }

  lemma {:induction false} DueOnce(next: seq<u64>, now: u64, i: nat)
    ensures TimesOf(DueTasks(next, now), i) == if i < |next| && now >= next[i] then [now] else []
  {
    if |next| > 0 {
      var n := |next| - 1;
      DueOnce(next[..n], now, i);
      TimesConcat(DueTasks(next[..n], now), if now >= next[n] then [Execution(n, now)] else [], i);
      assert TimesOf([Execution(n, now)], i) == if n == i then [now] else [] by {
        assert [Execution(n, now)][..0] == [];
      }
    }
  }

  /** All the next run times, and all the executions, after a run of an online node. */
  function AllAfter(next: seq<u64>, intervals: seq<u64>, ticks: seq<u64>): (r: seq<u64>)
    requires |next| == |intervals|
    ensures |r| == |next|
  {
    if |ticks| == 0 then next
    else AllAfterTick(AllAfter(next, intervals, ticks[..|ticks| - 1]), intervals, ticks[|ticks| - 1])
  }

  function History(next: seq<u64>, intervals: seq<u64>, ticks: seq<u64>): seq<Execution>
    requires |next| == |intervals|
  {
    if |ticks| == 0 then []
    else
      var before := ticks[..|ticks| - 1];
      History(next, intervals, before) + DueTasks(AllAfter(next, intervals, before), ticks[|ticks| - 1])
  }

  /** Tasks do not disturb each other: in the run of a node, each of them runs exactly when its own automaton says. */
  lemma {:induction false} TasksIndependent(next: seq<u64>, intervals: seq<u64>, ticks: seq<u64>, i: nat)
    requires i < |next| == |intervals|
    ensures AllAfter(next, intervals, ticks)[i] == NextAfter(next[i], intervals[i], ticks)
    ensures TimesOf(History(next, intervals, ticks), i) == Runs(next[i], intervals[i], ticks)
  {
    if |ticks| > 0 {
      var before, now := ticks[..|ticks| - 1], ticks[|ticks| - 1];
      var due := DueTasks(AllAfter(next, intervals, before), now);
      TasksIndependent(next, intervals, before, i);
      TimesConcat(History(next, intervals, before), due, i);
      DueOnce(AllAfter(next, intervals, before), now, i);
    }
  }

  /** The polling loop over any number of ticks. */
  method Poll(node: Node, ticks: seq<u64>)
    requires node.Valid() && node.online
    modifies node`executions, set t | t in node.schedule
    ensures node.Valid() && node.schedule == old(node.schedule)
    ensures node.NextRuns() == AllAfter(old(node.NextRuns()), node.Intervals(), ticks)
    ensures node.executions == old(node.executions) + History(old(node.NextRuns()), node.Intervals(), ticks)
  {
    ghost var next, intervals, before := node.NextRuns(), node.Intervals(), node.executions;
    ghost var history: seq<Execution> := [];
    var k := 0;
    assert ticks[..0] == [] && before + [] == before;
    while k < |ticks|
      invariant k <= |ticks| && node.Valid() && node.online && node.schedule == old(node.schedule)
      invariant node.Intervals() == intervals && |node.NextRuns()| == |next|
      invariant Reached(next, intervals, ticks[..k], node.NextRuns(), history)
      invariant node.executions == before + history
    {
      ghost var state := node.NextRuns();
      ghost var due := DueTasks(state, ticks[k]);
      node.CheckScheduler(ticks[k]);
      ReachedMore(next, intervals, ticks, k, state, history);
      Regroup(before, history, due);
      history := history + due;
      k := k + 1;
    }
    assert ticks[..k] == ticks;
  }

  /** The state and the record of executions after some ticks. */
  predicate Reached(next: seq<u64>, intervals: seq<u64>, ticks: seq<u64>, state: seq<u64>, history: seq<Execution>)
    requires |next| == |intervals|
  {
    state == AllAfter(next, intervals, ticks) && history == History(next, intervals, ticks)
  }

  lemma ReachedMore(next: seq<u64>, intervals: seq<u64>, ticks: seq<u64>, k: nat, state: seq<u64>, history: seq<Execution>)
    requires |next| == |intervals| && k < |ticks| && Reached(next, intervals, ticks[..k], state, history)
    ensures Reached(next, intervals, ticks[..k + 1], AllAfterTick(state, intervals, ticks[k]),
                    history + DueTasks(state, ticks[k]))
  {
    assert ticks[..k + 1][..k] == ticks[..k];
  }

  lemma Regroup(a: seq<Execution>, b: seq<Execution>, c: seq<Execution>)
    ensures (a + b) + c == a + (b + c)
  {
  }
}
