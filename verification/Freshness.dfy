/** The scheduler and the pump together: a node whose tasks publish frames with deadlines, and an interface that drains its
    queue, tick after tick. When the deadline of an execution has passed by the next tick that can run the task again, its
    frame is never sent at or after the task's next execution; when it has not, there is a run in which it is. */
module Freshness {
  import opened Scheduler
  import opened Transmission

  const MEGA := 1_000_000

  // ---------------------------------------------------------------- deadlines

  /** A periodic task: TByteArray and TLatencyMeasurement set the deadline to the microsecond before the next run,
      THeartbeat to one second after the execution. */
  datatype Periodic = Periodic(interval: u64, heartbeat: bool, priority: nat)

  function Deadline(k: Periodic, now: u64): u64 {
    if k.heartbeat then Plus(now, MEGA) else Plus(Plus(now, k.interval), WORD - 1)
  }

  /** The first tick that can run the task again after an execution at `now`; a next run time that has wrapped around is
      reached at once. */
  function NextDue(k: Periodic, now: u64): u64 {
    if Plus(now, k.interval) >= now then Plus(now, k.interval) else now
  }

  /** The frame of an execution at `now` is timed out at the first tick that can run the task again. */
  predicate Expires(k: Periodic, now: u64) {
    0 < Deadline(k, now) <= NextDue(k, now)
  }

  /** What a caller can check beforehand, wrap-around included. A heartbeat needs an interval of a second; for the other
      tasks the next run time must not be 0 or 1, where the microsecond before it is the largest number or the zero that
      means "never". */
  lemma ExpiresIff(k: Periodic, now: u64)
    ensures !k.heartbeat ==>
      (Expires(k, now) <==> Plus(now, k.interval) >= 2 || (Plus(now, k.interval) == 0 && now == WORD - 1))
    ensures k.heartbeat && now + MEGA < WORD ==> (Expires(k, now) <==> k.interval >= MEGA && now + k.interval < WORD)
    ensures k.heartbeat && now + MEGA >= WORD ==> (Expires(k, now) <==> now + MEGA != WORD)
  {
  }

  /** The next run time does not wrap around. */
  predicate Early(k: Periodic, now: u64) {
    now + k.interval < WORD
  }

  /** A heartbeat of at least a second, any other task of at least two microseconds. */
  predicate LongEnough(k: Periodic) {
    k.interval >= if k.heartbeat then MEGA else 2
  }

  /** As long as times do not wrap around, the interval alone decides. */
  lemma AlwaysExpiresIff(k: Periodic)
    ensures (forall now: u64 | Early(k, now) :: Expires(k, now)) <==> LongEnough(k)
  {
    if LongEnough(k) {
      forall now: u64 | Early(k, now)
        ensures Expires(k, now)
      {
        ExpiresIff(k, now);
      }
    } else {
      ExpiresIff(k, 0);
      assert !Expires(k, 0);
    }
  }

  // ---------------------------------------------------------------- the state machine

  /** What the node has published so far, by which task and when; a frame's `id` is its index here. */
  datatype Publication = Publication(task: nat, time: u64)

  /** `clock` is the time of the last tick, `sentAt` the times of the transmissions recorded in the books. */
  datatype World = World(next: seq<u64>, published: seq<Publication>, books: Books, sentAt: seq<u64>, clock: u64)

  /** Task `i` at one tick: if it is due, it moves its next run and publishes, which fails when the queue is full. */
  function RunTask(w: World, tasks: seq<Periodic>, i: nat, now: u64, capacity: nat): World
    requires i < |tasks| == |w.next|
  {
    if now >= w.next[i] then
      var f := Frame(|w.published|, tasks[i].priority, Deadline(tasks[i], now));
      w.(next := w.next[i := AfterTick(w.next[i], tasks[i].interval, now)], published := w.published + [Publication(i, now)],
         books := AfterPush(w.books, f, capacity))
    else w
  }

  function RunTasks(w: World, tasks: seq<Periodic>, n: nat, now: u64, capacity: nat): (r: World)
    requires n <= |tasks| == |w.next|
    ensures |r.next| == |w.next|
  {
    if n == 0 then w.(clock := now) else RunTask(RunTasks(w, tasks, n - 1, now, capacity), tasks, n - 1, now, capacity)
  }

  /** The interface at one tick, if the pump gets to it. */
  function Pump(w: World, now: u64, send: nat -> int): World {
    var books := AfterDrain(w.books, now, send);
    w.(books := books, sentAt := w.sentAt + Stamps(SentBy(w, now, send), now))
  }

  function Stamps(n: nat, now: u64): seq<u64> { seq(n, _ => now) }

  function SentBy(w: World, now: u64, send: nat -> int): nat {
    |AfterDrain(w.books, now, send).sent| - |w.books.sent|
  }

  datatype Tick = Tick(now: u64, served: bool)

  function Step(w: World, tasks: seq<Periodic>, tick: Tick, capacity: nat, send: nat -> int): (r: World)
    requires |tasks| == |w.next|
    ensures |r.next| == |w.next|
  {
    var v := RunTasks(w, tasks, |tasks|, tick.now, capacity);
    if tick.served then Pump(v, tick.now, send) else v
  }

  function Run(w: World, tasks: seq<Periodic>, ticks: seq<Tick>, capacity: nat, send: nat -> int): (r: World)
    requires |tasks| == |w.next|
    ensures |r.next| == |w.next|
  {
    if |ticks| == 0 then w
    else Step(Run(w, tasks, ticks[..|ticks| - 1], capacity, send), tasks, ticks[|ticks| - 1], capacity, send)
  }

  // ---------------------------------------------------------------- the invariant

  /** A frame carries the deadline its execution gave it, and the priority of its task. */
  predicate Honest(w: World, tasks: seq<Periodic>, f: Frame) {
    && f.id < |w.published| && w.published[f.id].task < |tasks|
    && f.deadline == Deadline(tasks[w.published[f.id].task], w.published[f.id].time)
    && f.priority == tasks[w.published[f.id].task].priority
  }

  predicate AllHonest(w: World, tasks: seq<Periodic>, s: seq<Frame>) {
    forall i | 0 <= i < |s| :: Honest(w, tasks, s[i])
  }

  /** After an execution, its task's next run time is no earlier than an interval later, until the clock has reached it. */
  predicate Paced(w: World, tasks: seq<Periodic>) {
    forall j | 0 <= j < |w.published| :: PacedBy(w, tasks, w.published[j])
  }

  predicate PacedBy(w: World, tasks: seq<Periodic>, p: Publication) {
    && p.task < |tasks| == |w.next| && p.time <= w.clock
    && (w.next[p.task] >= Plus(p.time, tasks[p.task].interval) || w.clock >= Plus(p.time, tasks[p.task].interval))
  }

  /** Of two executions of one task the later one is not before the first tick that can run the task again. */
  predicate InTurn(w: World, tasks: seq<Periodic>) {
    forall i, j | 0 <= i < j < |w.published| :: Successive(tasks, w.published[i], w.published[j])
  }

  predicate Successive(tasks: seq<Periodic>, p: Publication, q: Publication) {
    p.task == q.task < |tasks| ==> q.time >= NextDue(tasks[p.task], p.time)
  }

  /** Every frame was live when it was sent. */
  predicate InTime(w: World) {
    |w.sentAt| == |w.books.sent| && forall i | 0 <= i < |w.sentAt| :: Live(w.books.sent[i], w.sentAt[i])
  }

  predicate Inv(w: World, tasks: seq<Periodic>) {
    && |w.next| == |tasks| && Paced(w, tasks) && InTurn(w, tasks) && InTime(w)
    && AllHonest(w, tasks, w.books.queue) && AllHonest(w, tasks, w.books.sent)
  }

  lemma HonestLater(w: World, v: World, tasks: seq<Periodic>, s: seq<Frame>)
    requires AllHonest(w, tasks, s) && w.published <= v.published
    ensures AllHonest(v, tasks, s)
  {
    forall i | 0 <= i < |s|
      ensures Honest(v, tasks, s[i])
    {
      assert Honest(w, tasks, s[i]);
    }
  }

  lemma {:induction false} HonestInsert(w: World, tasks: seq<Periodic>, q: seq<Frame>, f: Frame)
    requires AllHonest(w, tasks, q) && Honest(w, tasks, f)
    ensures AllHonest(w, tasks, Insert(q, f))
  {
    if |q| > 0 && q[|q| - 1].priority > f.priority {
      HonestInsert(w, tasks, q[..|q| - 1], f);
    }
  }

  lemma PacedTask(w: World, tasks: seq<Periodic>, i: nat, now: u64)
    requires Paced(w, tasks) && InTurn(w, tasks) && i < |tasks| == |w.next| && w.clock == now && now >= w.next[i]
    ensures var v := w.(next := w.next[i := AfterTick(w.next[i], tasks[i].interval, now)],
                        published := w.published + [Publication(i, now)]);
      Paced(v, tasks) && InTurn(v, tasks)
  {
    var v := w.(next := w.next[i := AfterTick(w.next[i], tasks[i].interval, now)],
                published := w.published + [Publication(i, now)]);
    forall j | 0 <= j < |v.published|
      ensures PacedBy(v, tasks, v.published[j])
    {
      if j < |w.published| {
        assert PacedBy(w, tasks, w.published[j]);
      }
    }
    forall j, k | 0 <= j < k < |v.published|
      ensures Successive(tasks, v.published[j], v.published[k])
    {
      if k < |w.published| {
        assert Successive(tasks, w.published[j], w.published[k]);
      } else {
        assert PacedBy(w, tasks, w.published[j]);
      }
    }
  }

  lemma KeepsTask(w: World, tasks: seq<Periodic>, i: nat, now: u64, capacity: nat)
    requires Inv(w, tasks) && i < |tasks| && w.clock == now
    ensures var v := RunTask(w, tasks, i, now, capacity); Inv(v, tasks) && v.clock == now
  {
    var v := RunTask(w, tasks, i, now, capacity);
    if now >= w.next[i] {
      PacedTask(w, tasks, i, now);
      HonestLater(w, v, tasks, w.books.queue);
      HonestLater(w, v, tasks, w.books.sent);
      var f := Frame(|w.published|, tasks[i].priority, Deadline(tasks[i], now));
      assert Honest(v, tasks, f);
      HonestInsert(v, tasks, w.books.queue, f);
      KeptApart(v, w.(next := v.next, published := v.published), tasks);
    }
  }

  /** The schedule's part of the invariant does not look at the books. */
  lemma KeptApart(v: World, u: World, tasks: seq<Periodic>)
    requires v.next == u.next && v.published == u.published && v.clock == u.clock
    requires Paced(u, tasks) && InTurn(u, tasks)
    ensures Paced(v, tasks) && InTurn(v, tasks)
  {
    forall j | 0 <= j < |v.published|
      ensures PacedBy(v, tasks, v.published[j])
    {
      assert PacedBy(u, tasks, u.published[j]);
    }
  }

  lemma ClockMoves(w: World, tasks: seq<Periodic>, now: u64)
    requires Inv(w, tasks) && w.clock <= now
    ensures Inv(w.(clock := now), tasks)
  {
    var v := w.(clock := now);
    forall j | 0 <= j < |v.published|
      ensures PacedBy(v, tasks, v.published[j])
    {
      assert PacedBy(w, tasks, w.published[j]);
    }
    HonestLater(w, v, tasks, w.books.queue);
    HonestLater(w, v, tasks, w.books.sent);
  }

  lemma {:induction false} KeepsTasks(w: World, tasks: seq<Periodic>, n: nat, now: u64, capacity: nat)
    requires Inv(w, tasks) && n <= |tasks| && w.clock <= now
    ensures var v := RunTasks(w, tasks, n, now, capacity); Inv(v, tasks) && v.clock == now
  {
    if n == 0 {
      ClockMoves(w, tasks, now);
    } else {
      KeepsTasks(w, tasks, n - 1, now, capacity);
      KeepsTask(RunTasks(w, tasks, n - 1, now, capacity), tasks, n - 1, now, capacity);
    }
  }

  lemma {:induction false} UnexpiredHonest(w: World, tasks: seq<Periodic>, s: seq<Frame>, now: u64)
    requires AllHonest(w, tasks, s)
    ensures AllHonest(w, tasks, Unexpired(s, now))
    ensures forall i | 0 <= i < |Unexpired(s, now)| :: Live(Unexpired(s, now)[i], now)
  {
    if |s| > 0 {
      var n := |s| - 1;
      assert Honest(w, tasks, s[n]);
      UnexpiredHonest(w, tasks, s[..n], now);
    }
  }

  lemma HonestConcat(w: World, tasks: seq<Periodic>, s: seq<Frame>, t: seq<Frame>)
    requires AllHonest(w, tasks, s) && AllHonest(w, tasks, t)
    ensures AllHonest(w, tasks, s + t)
  {
  }

  lemma HonestPart(w: World, tasks: seq<Periodic>, s: seq<Frame>, n: nat)
    requires AllHonest(w, tasks, s) && n <= |s|
    ensures AllHonest(w, tasks, s[..n]) && AllHonest(w, tasks, s[n..])
  {
  }

  lemma KeepsPump(w: World, tasks: seq<Periodic>, now: u64, send: nat -> int)
    requires Inv(w, tasks) && w.clock == now
    ensures var v := Pump(w, now, send); Inv(v, tasks) && v.clock == now
  {
    var v := Pump(w, now, send);
    var q := w.books.queue;
    var n := DrainOf(q, now, send, w.books.calls).popped;
    HonestPart(w, tasks, q, n);
    UnexpiredHonest(w, tasks, q[..n], now);
    HonestConcat(w, tasks, w.books.sent, Unexpired(q[..n], now));
    HonestLater(w, v, tasks, v.books.queue);
    HonestLater(w, v, tasks, v.books.sent);
    KeptApart(v, w, tasks);
  }

  /** A monotonic clock. */
  predicate Forward(clock: u64, ticks: seq<Tick>) {
    && (forall i | 0 <= i < |ticks| :: clock <= ticks[i].now)
    && forall i, j | 0 <= i <= j < |ticks| :: ticks[i].now <= ticks[j].now
  }

  function LastTick(clock: u64, ticks: seq<Tick>): u64 { if |ticks| == 0 then clock else ticks[|ticks| - 1].now }

  lemma {:induction false} KeepsRun(w: World, tasks: seq<Periodic>, ticks: seq<Tick>, capacity: nat, send: nat -> int)
    requires Inv(w, tasks) && Forward(w.clock, ticks)
    ensures var v := Run(w, tasks, ticks, capacity, send); Inv(v, tasks) && v.clock == LastTick(w.clock, ticks)
  {
    if |ticks| > 0 {
      var n := |ticks| - 1;
      var before, tick := ticks[..n], ticks[n];
      KeepsRun(w, tasks, before, capacity, send);
      var u := Run(w, tasks, before, capacity, send);
      KeepsTasks(u, tasks, |tasks|, tick.now, capacity);
      if tick.served {
        KeepsPump(RunTasks(u, tasks, |tasks|, tick.now, capacity), tasks, tick.now, send);
      }
    }
  }

  /** A fresh node with arbitrary first run times. */
  function Fresh(next: seq<u64>): World { World(next, [], Books([], [], [], 0), [], 0) }

  // ---------------------------------------------------------------- freshness

  /** The frame of the `s`-th transmission was sent before the `j`-th execution, a later one of the same task. */
  predicate SentBefore(w: World, s: nat, j: nat)
    requires s < |w.books.sent| && j < |w.published|
  {
    |w.sentAt| == |w.books.sent| && w.sentAt[s] < w.published[j].time
  }

  predicate LaterExecution(w: World, s: nat, j: nat) {
    && s < |w.books.sent| && w.books.sent[s].id < j < |w.published|
    && w.published[j].task == w.published[w.books.sent[s].id].task
  }

  /** No stale transmission: over any run with a monotonic clock, any answers of the transceiver and any choice of the ticks
      at which the interface is served, the frame of an execution whose deadline expires is never sent at or after a later
      execution of its task. Nothing is asked of other executions. */
  lemma NoStaleTransmission(next: seq<u64>, tasks: seq<Periodic>, ticks: seq<Tick>, capacity: nat, send: nat -> int,
    s: nat, j: nat)
    requires |next| == |tasks| && Forward(0, ticks)
    requires var w := Run(Fresh(next), tasks, ticks, capacity, send);
      LaterExecution(w, s, j)
    ensures var w := Run(Fresh(next), tasks, ticks, capacity, send);
      var p := w.published[w.books.sent[s].id];
      p.task < |tasks| && (Expires(tasks[p.task], p.time) ==> SentBefore(w, s, j))
  {
    KeepsRun(Fresh(next), tasks, ticks, capacity, send);
    var w := Run(Fresh(next), tasks, ticks, capacity, send);
    var f := w.books.sent[s];
    assert Honest(w, tasks, f);
    assert Successive(tasks, w.published[f.id], w.published[j]);
  }

  /** So a configuration can be judged by its intervals: if they are long enough and the clock stays clear of wrap-around,
      no frame is ever stale. */
  lemma LongIntervalsSuffice(next: seq<u64>, tasks: seq<Periodic>, ticks: seq<Tick>, capacity: nat, send: nat -> int,
    s: nat, j: nat)
    requires |next| == |tasks| && Forward(0, ticks)
    requires forall i | 0 <= i < |tasks| :: LongEnough(tasks[i]) && Early(tasks[i], LastTick(0, ticks))
    requires var w := Run(Fresh(next), tasks, ticks, capacity, send);
      LaterExecution(w, s, j)
    ensures SentBefore(Run(Fresh(next), tasks, ticks, capacity, send), s, j)
  {
    var w := Run(Fresh(next), tasks, ticks, capacity, send);
    KeepsRun(Fresh(next), tasks, ticks, capacity, send);
    NoStaleTransmission(next, tasks, ticks, capacity, send, s, j);
    var p := w.published[w.books.sent[s].id];
    assert PacedBy(w, tasks, p);
    var k := tasks[p.task];
    assert Early(k, p.time);
    AlwaysExpiresIff(k);
  }

  /** The condition is exact: for every task and every time at which the deadline does not expire there is a run, with an
      interface that is merely not served at one tick, in which the frame goes out at the very time of the task's next
      execution. */
  lemma StaleOtherwise(k: Periodic, first: u64, now: u64, capacity: nat, send: nat -> int) returns (w: World)
    requires !Expires(k, now) && first <= now && capacity > 0
    requires forall n: nat :: send(n) > 0
    ensures Forward(0, [Tick(now, false), Tick(NextDue(k, now), true)])
    ensures w == Run(Fresh([first]), [k], [Tick(now, false), Tick(NextDue(k, now), true)], capacity, send)
    ensures LaterExecution(w, 0, 1) && w.books.sent[0].id == 0 && w.published[0] == Publication(0, now)
    ensures |w.sentAt| == |w.books.sent| && w.sentAt[0] == w.published[1].time == NextDue(k, now)
  {
    var due := NextDue(k, now);
    var one, two := TwoExecutions(k, first, now, due, capacity);
    var f := Frame(0, k.priority, Deadline(k, now));
    w := Pump(two, due, send);
    HeadIsSent(f, two, due, send);
    TwoTicks(Fresh([first]), [k], Tick(now, false), Tick(due, true), capacity, send);
  }

  /** Two executions of a single task without a transmission in between. */
  lemma TwoExecutions(k: Periodic, first: u64, now: u64, due: u64, capacity: nat) returns (one: World, two: World)
    requires first <= now && Plus(now, k.interval) <= due && capacity > 0
    ensures |one.next| == 1 && one == RunTasks(Fresh([first]), [k], 1, now, capacity)
    ensures two == RunTasks(one, [k], 1, due, capacity)
    ensures two.published == [Publication(0, now), Publication(0, due)] && two.sentAt == [] && two.books.sent == []
    ensures |two.books.queue| > 0 && two.books.queue[0] == Frame(0, k.priority, Deadline(k, now)) && two.books.calls == 0
  {
    var f, g := Frame(0, k.priority, Deadline(k, now)), Frame(1, k.priority, Deadline(k, due));
    OneTask(Fresh([first]), k, now, capacity);
    one := RunTasks(Fresh([first]), [k], 1, now, capacity);
    assert one.books.queue == [f];
    OneTask(one, k, due, capacity);
    assert Insert([f], g) == [f, g];
    two := RunTasks(one, [k], 1, due, capacity);
  }

  lemma TwoTicks(w: World, tasks: seq<Periodic>, a: Tick, b: Tick, capacity: nat, send: nat -> int)
    requires |tasks| == |w.next|
    ensures Run(w, tasks, [a, b], capacity, send) == Step(Step(w, tasks, a, capacity, send), tasks, b, capacity, send)
  {
    assert [a, b][..1] == [a] && [a][..0] == [];
    assert Run(w, tasks, [a], capacity, send) == Step(Run(w, tasks, [a][..0], capacity, send), tasks, a, capacity, send);
  }

  /** One tick of a node with a single task that is due. */
  lemma OneTask(w: World, k: Periodic, now: u64, capacity: nat)
    requires |w.next| == 1 && now >= w.next[0]
    ensures RunTasks(w, [k], 1, now, capacity)
      == World([Plus(now, k.interval)], w.published + [Publication(0, now)],
               AfterPush(w.books, Frame(|w.published|, k.priority, Deadline(k, now)), capacity), w.sentAt, now)
  {
    assert RunTasks(w, [k], 0, now, capacity) == w.(clock := now);
    assert w.next[0 := Plus(now, k.interval)] == [Plus(now, k.interval)];
  }

  lemma HeadIsSent(f: Frame, w: World, now: u64, send: nat -> int)
    requires |w.books.queue| > 0 && w.books.queue[0] == f && Live(f, now)
    requires w.books.sent == [] && w.sentAt == [] && forall n: nat :: send(n) > 0
    ensures var v := Pump(w, now, send);
      |v.sentAt| == |v.books.sent| > 0 && v.books.sent[0] == f && v.sentAt[0] == now
  {
    var queue := w.books.queue;
    UnexpiredHead(queue, DrainOf(queue, now, send, w.books.calls).popped, now);
  }

  /** An interval of one microsecond at time zero: the deadline means "never". */
  lemma StaleExample(send: nat -> int) returns (w: World)
    requires forall n: nat :: send(n) > 0
    ensures w == Run(Fresh([0]), [Periodic(1, false, 0)], [Tick(0, false), Tick(1, true)], 100, send)
    ensures LaterExecution(w, 0, 1) && !SentBefore(w, 0, 1)
  {
    assert NextDue(Periodic(1, false, 0), 0) == 1;
    w := StaleOtherwise(Periodic(1, false, 0), 0, 0, 100, send);
  }

  /** A heartbeat every half second is a more likely case: its deadline is a second away, so a heartbeat that was not sent in
      time goes out together with the next one. */
  lemma FastHeartbeatIsStale(send: nat -> int) returns (w: World)
    requires forall n: nat :: send(n) > 0
    ensures w == Run(Fresh([0]), [Periodic(MEGA / 2, true, 0)], [Tick(0, false), Tick(MEGA / 2, true)], 100, send)
    ensures LaterExecution(w, 0, 1) && !SentBefore(w, 0, 1)
  {
    w := StaleOtherwise(Periodic(MEGA / 2, true, 0), 0, 0, 100, send);
  }

  // ---------------------------------------------------------------- the machine is the scheduler

  /** In one tick the tasks do to their next run times what Node.CheckScheduler does, and publish in the order of the
      executions it records. */
  lemma {:induction false} TasksAreScheduled(w: World, tasks: seq<Periodic>, n: nat, now: u64, capacity: nat)
    requires n <= |tasks| == |w.next|
    ensures var v, due := RunTasks(w, tasks, n, now, capacity), DueTasks(w.next[..n], now);
      && |v.next| == |w.next|
      && (forall i | 0 <= i < n :: v.next[i] == AfterTick(w.next[i], tasks[i].interval, now))
      && (forall i | n <= i < |w.next| :: v.next[i] == w.next[i])
      && v.published == w.published + Publications(due)
  {
    if n == 0 {
      assert w.published + [] == w.published;
    } else {
      var before := w.next[..n - 1];
      TasksAreScheduled(w, tasks, n - 1, now, capacity);
      assert w.next[..n][..n - 1] == before;
      PublicationsMore(DueTasks(before, now), Execution(n - 1, now));
    }
  }

  function Publications(s: seq<Execution>): seq<Publication> {
    seq(|s|, i requires 0 <= i < |s| => Publication(s[i].task, s[i].time))
  }

  lemma PublicationsMore(s: seq<Execution>, e: Execution)
    ensures Publications(s + [e]) == Publications(s) + [Publication(e.task, e.time)]
    ensures Publications(s + []) == Publications(s)
  {
    assert s + [] == s;
  }

  // ---------------------------------------------------------------- the machine as objects

  /** The tasks are different objects and have the intervals of their kinds. */
  ghost predicate Matching(tasks: seq<Task>, kinds: seq<Periodic>)
    requires |tasks| == |kinds|
  {
    && (forall i | 0 <= i < |tasks| :: tasks[i].interval == kinds[i].interval)
    && forall i, j | 0 <= i < j < |tasks| :: tasks[i] != tasks[j]
  }

  /** A node with its tasks, its interface and the loop of main. */
  class Station {
    const tasks: seq<Task>
    const kinds: seq<Periodic>
    const port: Port
    var published: seq<Publication>
    var sentAt: seq<u64>
    var clock: u64

    ghost predicate Valid()
      reads this, port
    {
      |tasks| == |kinds| && Matching(tasks, kinds) && Ordered(port.queue)
    }

    ghost function NextRuns(): (r: seq<u64>)
      reads this, tasks
      ensures |r| == |tasks| && forall i | 0 <= i < |r| :: r[i] == tasks[i].nextRun
    {
      seq(|tasks|, i requires 0 <= i < |tasks| reads this, tasks => tasks[i].nextRun)
    }

    ghost function State(): World
      reads this, tasks, port
    {
      World(NextRuns(), published, port.Record(), sentAt, clock)
    }

    constructor (tasks: seq<Task>, kinds: seq<Periodic>)
      requires |tasks| == |kinds| && Matching(tasks, kinds)
      ensures Valid() && this.tasks == tasks && this.kinds == kinds && fresh(port)
      ensures State() == Fresh(NextRuns())
    {
      this.tasks, this.kinds := tasks, kinds;
      published, sentAt, clock := [], [], 0;
      port := new Port();
    }

    /** The Execute methods: one frame, its deadline computed from the current time. */
    method Execute(i: nat, now: u64, capacity: nat)
      requires Valid() && i < |tasks|
      modifies this`published, port`queue
      ensures Valid() && published == old(published) + [Publication(i, now)]
      ensures port.Record()
        == AfterPush(old(port.Record()), Frame(|old(published)|, kinds[i].priority, Deadline(kinds[i], now)), capacity)
    {
      var deadline := if kinds[i].heartbeat then Plus(now, MEGA) else Plus(Plus(now, tasks[i].interval), WORD - 1);
      var r := port.Push(Frame(|published|, kinds[i].priority, deadline), capacity);
      published := published + [Publication(i, now)];
    }

    /** One task of Node::CheckScheduler: it moves its next run before it executes. */
    method Check(i: nat, now: u64, capacity: nat)
      requires Valid() && i < |tasks|
      modifies this`published, port`queue, tasks[i]
      ensures Valid() && State() == RunTask(old(State()), kinds, i, now, capacity)
    {
      if now >= tasks[i].NextRun() {
        tasks[i].UpdateNextRun(now);
        Execute(i, now, capacity);
        assert NextRuns() == old(NextRuns())[i := Plus(now, tasks[i].interval)];
      } else {
        assert NextRuns() == old(NextRuns());
      }
    }

    method CheckScheduler(now: u64, capacity: nat)
      requires Valid()
      modifies this`published, this`clock, port`queue, tasks
      ensures Valid() && State() == RunTasks(old(State()), kinds, |kinds|, now, capacity)
    {
      ghost var start := State();
      SetClock(now);
      var i := 0;
      while i < |tasks|
        invariant i <= |tasks| && Valid()
        invariant State() == RunTasks(start, kinds, i, now, capacity)
      {
        Check(i, now, capacity);
        i := i + 1;
      }
    }

    method SetClock(now: u64)
      requires Valid()
      modifies this`clock
      ensures Valid() && State() == old(State()).(clock := now)
    {
      clock := now;
      assert NextRuns() == old(NextRuns());
    }

    method HandleTxQueue(now: u64, send: nat -> int)
      requires Valid()
      modifies this`sentAt, port
      ensures Valid() && State() == Pump(old(State()), now, send)
    {
      var before := |port.sent|;
      var stop := port.DrainQueue(now, send);
      Stamp(|port.sent| - before, now);
    }

    /** Notes the time of `n` transmissions. */
    method Stamp(n: nat, now: u64)
      requires Valid()
      modifies this`sentAt
      ensures Valid() && State() == old(State()).(sentAt := old(sentAt) + Stamps(n, now))
    {
      sentAt := sentAt + Stamps(n, now);
      assert NextRuns() == old(NextRuns());
    }

    /** The loop of main over any number of ticks is a run of the machine. */
    method Loop(ticks: seq<Tick>, capacity: nat, send: nat -> int)
      requires Valid()
      modifies this`published, this`clock, this`sentAt, port, tasks
      ensures Valid() && State() == Run(old(State()), kinds, ticks, capacity, send)
    {
      ghost var start := State();
      var n := 0;
      while n < |ticks|
        invariant n <= |ticks| && Valid()
        invariant State() == Run(start, kinds, ticks[..n], capacity, send)
      {
        CheckScheduler(ticks[n].now, capacity);
        if ticks[n].served {
          HandleTxQueue(ticks[n].now, send);
        }
        assert ticks[..n + 1][..n] == ticks[..n];
        n := n + 1;
      }
      assert ticks[..n] == ticks;
    }
  }
}
