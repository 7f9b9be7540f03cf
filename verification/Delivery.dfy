/** What becomes of the frames when the transceiver takes everything it is offered: an interface that is served sends every
    frame that is not timed out, at that very tick and in the order of priority, and drops the others. */
module Delivery {
  import opened Scheduler
  import opened Transmission
  import opened Freshness

  // ---------------------------------------------------------------- each frame is in one place

  predicate NoTwin(q: seq<Frame>) {
    forall i, j | 0 <= i < j < |q| :: q[i].id != q[j].id
  }

  predicate Apart(q: seq<Frame>, s: seq<Frame>) {
    forall i, j | 0 <= i < |q| && 0 <= j < |s| :: q[i].id != s[j].id
  }

  /** The waiting frames are in order and different from each other and from those that were sent. */
  predicate Sorted(w: World) {
    Ordered(w.books.queue) && NoTwin(w.books.queue) && Apart(w.books.queue, w.books.sent)
  }

  /** All frames come from executions so far. */
  predicate Known(s: seq<Frame>, n: nat) {
    forall i | 0 <= i < |s| :: s[i].id < n
  }

  lemma HonestKnown(w: World, tasks: seq<Periodic>, s: seq<Frame>)
    requires AllHonest(w, tasks, s)
    ensures Known(s, |w.published|)
  {
    forall i | 0 <= i < |s|
      ensures s[i].id < |w.published|
    {
      assert Honest(w, tasks, s[i]);
    }
  }

  lemma InsertNew(q: seq<Frame>, s: seq<Frame>, f: Frame)
    requires Ordered(q) && NoTwin(q) && Apart(q, s) && Known(q, f.id) && Known(s, f.id)
    ensures Ordered(Insert(q, f)) && NoTwin(Insert(q, f)) && Apart(Insert(q, f), s)
    ensures f in Insert(q, f) && forall g | g in q :: g in Insert(q, f)
  {
    hide Insert, PlaceFor, Ordered;
    InsertOrdered(q, f);
    var i := PlaceFor(q, f);
    NewBetween(q, s, f, i, q[..i] + ([f] + q[i..]));
  }

  lemma NewBetween(q: seq<Frame>, s: seq<Frame>, f: Frame, i: nat, r: seq<Frame>)
    requires i <= |q| && r == q[..i] + ([f] + q[i..])
    requires NoTwin(q) && Apart(q, s) && Known(q, f.id) && Known(s, f.id)
    ensures NoTwin(r) && Apart(r, s) && f in r && forall g | g in q :: g in r
  {
    assert |r| == |q| + 1 && r[i] == f;
    assert forall j | 0 <= j < i :: r[j] == q[j];
    assert forall j | i <= j < |q| :: r[j + 1] == q[j];
    assert forall j | i < j < |r| :: r[j] == q[j - 1];
  }

  lemma SortedTask(w: World, tasks: seq<Periodic>, i: nat, now: u64, capacity: nat)
    requires Inv(w, tasks) && Sorted(w) && i < |tasks|
    ensures Sorted(RunTask(w, tasks, i, now, capacity))
  {
    HonestKnown(w, tasks, w.books.queue);
    HonestKnown(w, tasks, w.books.sent);
    if now >= w.next[i] {
      InsertNew(w.books.queue, w.books.sent, Frame(|w.published|, tasks[i].priority, Deadline(tasks[i], now)));
    }
  }

  /** From `u` to `v` no waiting frame is lost, and every new publication has its frame in the queue. */
  ghost predicate Queued(u: World, v: World) {
    && |u.published| <= |v.published|
    && (forall f | f in u.books.queue :: f in v.books.queue)
    && (forall j | |u.published| <= j < |v.published| :: Waiting(v, j))
    && v.books.sent == u.books.sent && v.sentAt == u.sentAt && v.books.freed == u.books.freed
  }

  ghost predicate Waiting(w: World, j: nat) {
    exists f :: f in w.books.queue && f.id == j
  }

  lemma QueuedTask(u: World, w: World, tasks: seq<Periodic>, i: nat, now: u64, capacity: nat)
    requires Inv(w, tasks) && Sorted(w) && i < |tasks| && Queued(u, w) && |w.books.queue| < capacity
    ensures var v := RunTask(w, tasks, i, now, capacity); Queued(u, v) && |v.books.queue| <= |w.books.queue| + 1
  {
    var v := RunTask(w, tasks, i, now, capacity);
    if now >= w.next[i] {
      var f := Frame(|w.published|, tasks[i].priority, Deadline(tasks[i], now));
      HonestKnown(w, tasks, w.books.queue);
      HonestKnown(w, tasks, w.books.sent);
      InsertNew(w.books.queue, w.books.sent, f);
      forall j | |u.published| <= j < |v.published|
        ensures Waiting(v, j)
      {
        if j < |w.published| {
          assert Waiting(w, j);
          var g :| g in w.books.queue && g.id == j;
          assert g in v.books.queue;
        } else {
          assert f in v.books.queue;
        }
      }
    }
  }

  /** The frames that were waiting stay, whether there is room or not. */
  lemma KeptTask(w: World, tasks: seq<Periodic>, i: nat, now: u64, capacity: nat)
    requires Inv(w, tasks) && Sorted(w) && i < |tasks|
    ensures var v := RunTask(w, tasks, i, now, capacity);
      (forall f | f in w.books.queue :: f in v.books.queue) && v.books.sent == w.books.sent && v.sentAt == w.sentAt
      && v.books.freed == w.books.freed && w.published <= v.published
  {
    HonestKnown(w, tasks, w.books.queue);
    HonestKnown(w, tasks, w.books.sent);
    if now >= w.next[i] {
      InsertNew(w.books.queue, w.books.sent, Frame(|w.published|, tasks[i].priority, Deadline(tasks[i], now)));
    }
  }

  lemma SameBooks(u: World, v: World)
    requires Sorted(u) && u.books == v.books
    ensures Sorted(v)
  {
  }

  lemma {:induction false} SortedTasks(u: World, tasks: seq<Periodic>, n: nat, now: u64, capacity: nat)
    requires Inv(u, tasks) && Sorted(u) && n <= |tasks| && u.clock <= now
    ensures var v := RunTasks(u, tasks, n, now, capacity);
      && Inv(v, tasks) && Sorted(v) && v.clock == now && u.published <= v.published
      && (forall f | f in u.books.queue :: f in v.books.queue)
      && v.books.sent == u.books.sent && v.sentAt == u.sentAt && v.books.freed == u.books.freed
  {
    hide RunTask, Sorted, Inv;
    KeepsTasks(u, tasks, n, now, capacity);
    if n > 0 {
      SortedTasks(u, tasks, n - 1, now, capacity);
      var w := RunTasks(u, tasks, n - 1, now, capacity);
      KeepsTask(w, tasks, n - 1, now, capacity);
      SortedTask(w, tasks, n - 1, now, capacity);
      KeptTask(w, tasks, n - 1, now, capacity);
    } else {
      SameBooks(u, u.(clock := now));
    }
  }

  lemma {:induction false} QueuedTasks(u: World, tasks: seq<Periodic>, n: nat, now: u64, capacity: nat)
    requires Inv(u, tasks) && Sorted(u) && n <= |tasks| && u.clock <= now && |u.books.queue| + n <= capacity
    ensures var v := RunTasks(u, tasks, n, now, capacity); Queued(u, v) && |v.books.queue| <= |u.books.queue| + n
  {
    assert |u.next| == |tasks|;
    hide RunTask, Sorted, Inv;
    if n > 0 {
      SortedTasks(u, tasks, n - 1, now, capacity);
      QueuedTasks(u, tasks, n - 1, now, capacity);
      QueuedTask(u, RunTasks(u, tasks, n - 1, now, capacity), tasks, n - 1, now, capacity);
    }
  }

  // ---------------------------------------------------------------- the drain

  lemma {:induction false} UnexpiredMembers(q: seq<Frame>, now: u64)
    ensures forall f :: f in Unexpired(q, now) <==> f in q && Live(f, now)
  {
    if |q| > 0 {
      var n := |q| - 1;
      UnexpiredMembers(q[..n], now);
      assert q == q[..n] + [q[n]];
    }
  }

  lemma {:induction false} UnexpiredOrdered(q: seq<Frame>, now: u64)
    requires Ordered(q)
    ensures Ordered(Unexpired(q, now))
  {
    if |q| > 0 {
      var n := |q| - 1;
      UnexpiredOrdered(q[..n], now);
      UnexpiredMembers(q[..n], now);
      forall f | f in Unexpired(q[..n], now)
        ensures f.priority <= q[n].priority
      {
        var i :| 0 <= i < n && q[..n][i] == f;
      }
    }
  }

  lemma PartsApart(q: seq<Frame>, s: seq<Frame>, n: nat, now: u64)
    requires Ordered(q) && NoTwin(q) && Apart(q, s) && n <= |q|
    ensures Ordered(q[n..]) && NoTwin(q[n..]) && Apart(q[n..], s + Unexpired(q[..n], now))
  {
    UnexpiredMembers(q[..n], now);
    forall i, j | 0 <= i < |q[n..]| && 0 <= j < |s + Unexpired(q[..n], now)|
      ensures q[n..][i].id != (s + Unexpired(q[..n], now))[j].id
    {
      if j >= |s| {
        var f := Unexpired(q[..n], now)[j - |s|];
        assert f in q[..n];
        var k :| 0 <= k < n && q[..n][k] == f;
      }
    }
  }

  lemma SortedPump(w: World, now: u64, send: nat -> int)
    requires Sorted(w)
    ensures Sorted(Pump(w, now, send))
  {
    PartsApart(w.books.queue, w.books.sent, DrainOf(w.books.queue, now, send, w.books.calls).popped, now);
  }

  lemma {:induction false} SortedRun(w: World, tasks: seq<Periodic>, ticks: seq<Tick>, capacity: nat, send: nat -> int)
    requires Inv(w, tasks) && Sorted(w) && Forward(w.clock, ticks)
    ensures var v := Run(w, tasks, ticks, capacity, send);
      Inv(v, tasks) && Sorted(v) && v.clock == LastTick(w.clock, ticks)
  {
    KeepsRun(w, tasks, ticks, capacity, send);
    if |ticks| > 0 {
      var n := |ticks| - 1;
      SortedRun(w, tasks, ticks[..n], capacity, send);
      var u := Run(w, tasks, ticks[..n], capacity, send);
      SortedTasks(u, tasks, |tasks|, ticks[n].now, capacity);
      if ticks[n].served {
        SortedPump(RunTasks(u, tasks, |tasks|, ticks[n].now, capacity), ticks[n].now, send);
      }
    }
  }

  /** The transceiver takes every frame. */
  ghost predicate Accepting(send: nat -> int) {
    forall n: nat :: send(n) > 0
  }

  lemma AllDrained(q: seq<Frame>, now: u64, send: nat -> int, calls: nat)
    requires Accepting(send)
    ensures DrainOf(q, now, send, calls).popped == |q|
  {
    DrainConserves(q, now, send, calls);
  }

  lemma DrainedPump(v: World, now: u64, send: nat -> int)
    requires Accepting(send) && |v.sentAt| == |v.books.sent|
    ensures var w := Pump(v, now, send);
      && w.books.queue == [] && w.books.freed == v.books.freed + v.books.queue && w.published == v.published
      && w.books.sent == v.books.sent + Unexpired(v.books.queue, now)
      && w.sentAt == v.sentAt + Stamps(|Unexpired(v.books.queue, now)|, now)
  {
    var q := v.books.queue;
    AllDrained(q, now, send, v.books.calls);
    assert q[..|q|] == q && q[|q|..] == [];
  }

  // ---------------------------------------------------------------- what is sent when

  /** At `t` the frame of an execution at `time` is not timed out: before the microsecond that precedes the next run, for a
      heartbeat before the end of a second; all times are those of a 64-bit clock, on which zero means "never". */
  predicate InGoodTime(k: Periodic, time: u64, t: u64) {
    if k.heartbeat then
      var end := (time + 1_000_000) % 0x1_0000_0000_0000_0000;
      end == 0 || t < end
    else
      var next := (time + k.interval) % 0x1_0000_0000_0000_0000;
      if next == 0 then t < 0xFFFF_FFFF_FFFF_FFFF else next == 1 || t + 1 < next
  }

  lemma LiveInGoodTime(k: Periodic, time: u64, t: u64, id: nat)
    ensures Live(Frame(id, k.priority, Deadline(k, time)), t) <==> InGoodTime(k, time, t)
  {
    PlusIsModulo(time, MEGA);
    PlusIsModulo(time, k.interval);
  }

  /** Away from wrap-around. */
  lemma InGoodTimeIff(k: Periodic, time: u64, t: u64)
    requires LongEnough(k) && time + k.interval < WORD
    ensures InGoodTime(k, time, t) <==> if k.heartbeat then t < time + 1_000_000 else t + 1 < time + k.interval
  {
  }

  /** The frame of the `j`-th execution was sent at time `t`. */
  predicate SentAt(w: World, j: nat, t: u64) {
    |w.sentAt| == |w.books.sent| && exists s | 0 <= s < |w.sentAt| :: w.books.sent[s].id == j && w.sentAt[s] == t
  }

  predicate NeverSent(w: World, j: nat) {
    forall s | 0 <= s < |w.books.sent| :: w.books.sent[s].id != j
  }

  lemma FrameSettled(v: World, w: World, f: Frame, now: u64)
    requires Sorted(v) && |v.sentAt| == |v.books.sent| && f in v.books.queue
    requires w.books.sent == v.books.sent + Unexpired(v.books.queue, now)
    requires w.sentAt == v.sentAt + Stamps(|Unexpired(v.books.queue, now)|, now)
    ensures if Live(f, now) then SentAt(w, f.id, now) else NeverSent(w, f.id)
    ensures SentAt(w, f.id, now) ==> Live(f, now)
  {
    var q, s := v.books.queue, v.books.sent;
    var live := Unexpired(q, now);
    UnexpiredMembers(q, now);
    if Live(f, now) {
      var k :| 0 <= k < |live| && live[k] == f;
      assert w.books.sent[|s| + k].id == f.id && w.sentAt[|s| + k] == now;
    } else {
      forall k | 0 <= k < |w.books.sent|
        ensures w.books.sent[k].id != f.id
      {
        if k >= |s| {
          assert live[k - |s|] in q && Live(live[k - |s|], now);
        }
      }
    }
  }

  /** What a served tick does, over any run with a monotonic clock and whatever the transceiver did before: the queue is
      empty afterwards, the frames go out in the order of priority, and the frame of every execution that was waiting, or that
      was published in this tick and found room, leaves the queue, sent at this tick if it is in good time and never sent
      otherwise. */
  lemma ServedTick(next: seq<u64>, tasks: seq<Periodic>, ticks: seq<Tick>, last: Tick, capacity: nat, before: nat -> int,
    send: nat -> int, j: nat)
    requires |next| == |tasks| && Forward(0, ticks + [last]) && last.served && Accepting(send)
    requires var u := Run(Fresh(next), tasks, ticks, capacity, before);
      var w := Run(u, tasks, [last], capacity, send);
      j < |w.published| && (Waiting(u, j) || (|u.published| <= j && |u.books.queue| + |tasks| <= capacity))
    ensures var u := Run(Fresh(next), tasks, ticks, capacity, before);
      var w := Run(u, tasks, [last], capacity, send);
      var p := w.published[j];
      && w.books.queue == [] && (exists f :: f in w.books.freed && f.id == j) && p.task < |tasks|
      && |u.books.sent| <= |w.books.sent| && Ordered(w.books.sent[|u.books.sent|..])
      && (SentAt(w, j, last.now) <==> InGoodTime(tasks[p.task], p.time, last.now))
      && (NeverSent(w, j) <==> !InGoodTime(tasks[p.task], p.time, last.now))
  {
    var u, now := Run(Fresh(next), tasks, ticks, capacity, before), last.now;
    TicksBefore(ticks, last);
    SortedRun(Fresh(next), tasks, ticks, capacity, before);
    SortedTasks(u, tasks, |tasks|, now, capacity);
    var v := RunTasks(u, tasks, |tasks|, now, capacity);
    OneTick(u, tasks, last, capacity, send);
    DrainedPump(v, now, send);
    if |u.books.queue| + |tasks| <= capacity {
      QueuedTasks(u, tasks, |tasks|, now, capacity);
    }
    assert Waiting(v, j);
    var f :| f in v.books.queue && f.id == j;
    WaitingHonest(v, tasks, f);
    var w := Pump(v, now, send);
    FrameSettled(v, w, f, now);
    LiveInGoodTime(tasks[w.published[j].task], w.published[j].time, now, j);
    UnexpiredOrdered(v.books.queue, now);
    assert w.books.sent[|u.books.sent|..] == Unexpired(v.books.queue, now);
    assert f in w.books.freed;
  }

  lemma WaitingHonest(v: World, tasks: seq<Periodic>, f: Frame)
    requires AllHonest(v, tasks, v.books.queue) && f in v.books.queue
    ensures Honest(v, tasks, f)
  {
  }

  lemma TicksBefore(ticks: seq<Tick>, last: Tick)
    requires Forward(0, ticks + [last])
    ensures Forward(0, ticks) && LastTick(0, ticks) <= last.now
  {
    var all := ticks + [last];
    forall i, j | 0 <= i <= j < |ticks|
      ensures ticks[i].now <= ticks[j].now
    {
      assert all[i].now <= all[j].now;
    }
    forall i | 0 <= i < |ticks|
      ensures 0 <= ticks[i].now <= last.now
    {
      assert all[i].now <= all[|ticks|].now;
    }
  }

  lemma OneTick(u: World, tasks: seq<Periodic>, tick: Tick, capacity: nat, send: nat -> int)
    requires |tasks| == |u.next|
    ensures Run(u, tasks, [tick], capacity, send) == Step(u, tasks, tick, capacity, send)
  {
    assert [tick][..0] == [];
  }

  lemma PublishedInTick(u: World, tasks: seq<Periodic>, tick: Tick, capacity: nat, send: nat -> int)
    requires |tasks| == |u.next|
    ensures Run(u, tasks, [tick], capacity, send).published == u.published + Publications(DueTasks(u.next, tick.now))
  {
    OneTick(u, tasks, tick, capacity, send);
    TasksAreScheduled(u, tasks, |tasks|, tick.now, capacity);
    assert u.next[..|tasks|] == u.next;
  }

  /** A task that is due in a served tick publishes, and its frame is sent in the same tick, provided that there is room and
      that its deadline is not over at once. */
  lemma DueIsSent(next: seq<u64>, tasks: seq<Periodic>, ticks: seq<Tick>, last: Tick, capacity: nat, before: nat -> int,
    send: nat -> int, i: nat) returns (j: nat)
    requires |next| == |tasks| && Forward(0, ticks + [last]) && last.served && Accepting(send) && i < |tasks|
    requires var u := Run(Fresh(next), tasks, ticks, capacity, before);
      u.next[i] <= last.now && |u.books.queue| + |tasks| <= capacity
    requires InGoodTime(tasks[i], last.now, last.now)
    ensures var u := Run(Fresh(next), tasks, ticks, capacity, before);
      var w := Run(u, tasks, [last], capacity, send);
      |u.published| <= j < |w.published| && w.published[j] == Publication(i, last.now) && SentAt(w, j, last.now)
  {
    hide Run, RunTasks, Step, Pump, DueTasks, InGoodTime;
    var u, now := Run(Fresh(next), tasks, ticks, capacity, before), last.now;
    var due := DueTasks(u.next, now);
    PublishedInTick(u, tasks, last, capacity, send);
    DueInOrder(u.next, now);
    assert Execution(i, now) in due;
    var k :| 0 <= k < |due| && due[k] == Execution(i, now);
    j := |u.published| + k;
    ServedTick(next, tasks, ticks, last, capacity, before, send, j);
  }

  /** For instance a heartbeat in the very first tick. */
  lemma FirstHeartbeat(send: nat -> int)
    requires Accepting(send)
    ensures var w := Run(Fresh([0]), [Periodic(MEGA, true, 0)], [Tick(0, true)], 100, send);
      SentAt(w, 0, 0) && w.books.queue == []
  {
    var tasks, tick := [Periodic(MEGA, true, 0)], Tick(0, true);
    assert [] + [tick] == [tick] && Run(Fresh([0]), tasks, [], 100, send) == Fresh([0]);
    DueOnceHere([0], 0);
    PublishedInTick(Fresh([0]), tasks, tick, 100, send);
    hide Run, DueTasks;
    var j := DueIsSent([0], tasks, [], tick, 100, send, send, 0);
    ServedTick([0], tasks, [], tick, 100, send, send, j);
  }

  lemma DueOnceHere(next: seq<u64>, now: u64)
    requires |next| == 1
    ensures |DueTasks(next, now)| <= 1
  {
    assert next[..0] == [];
  }
}
