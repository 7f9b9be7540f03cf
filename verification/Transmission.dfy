/** Publishing and pumping: OpenCyphal::Publish and HandleTxRxQueues over the prioritized queues of libcanard. A
    transceiver is an arbitrary oracle: call after call, a number above, equal to or below zero. */
module Transmission {
  import opened Scheduler

  /** A frame waiting for transmission; a smaller number is a higher priority. */
  datatype Frame = Frame(id: nat, priority: nat, deadline: u64)

  /** Highest priority first. */
  predicate Ordered(q: seq<Frame>) {
    forall i, j | 0 <= i < j < |q| :: q[i].priority <= q[j].priority
  }

  /** canardTxPush of a single-frame transfer into a queue with room. */
  function Insert(q: seq<Frame>, f: Frame): (r: seq<Frame>)
    ensures |r| == |q| + 1
  {
    if |q| == 0 || q[|q| - 1].priority <= f.priority then q + [f]
    else Insert(q[..|q| - 1], f) + [q[|q| - 1]]
  }

  /** Where the new frame goes: behind every frame of its priority or a higher one. */
  function PlaceFor(q: seq<Frame>, f: Frame): (i: nat)
    ensures i <= |q|
  {
    if |q| == 0 || q[|q| - 1].priority <= f.priority then |q| else PlaceFor(q[..|q| - 1], f)
  }

  lemma {:induction false} InsertPlaced(q: seq<Frame>, f: Frame)
    ensures Insert(q, f) == q[..PlaceFor(q, f)] + ([f] + q[PlaceFor(q, f)..])
    ensures Around(q, f, PlaceFor(q, f))
  {
    if |q| > 0 && q[|q| - 1].priority > f.priority {
      InsertPlaced(q[..|q| - 1], f);
      Regroup(q, f, PlaceFor(q, f));
    } else {
      assert q[..|q|] == q && [f] + q[|q|..] == [f];
    }
  }

  /** Up to `i` comes a frame that `f` does not overtake, from there on only those that it does. */
  predicate Around(q: seq<Frame>, f: Frame, i: nat) {
    && i <= |q| && (i > 0 ==> q[i - 1].priority <= f.priority)
    && forall j | i <= j < |q| :: q[j].priority > f.priority
  }

  lemma Regroup(q: seq<Frame>, f: Frame, i: nat)
    requires |q| > 0 && i < |q|
    ensures (q[..|q| - 1][..i] + ([f] + q[..|q| - 1][i..])) + [q[|q| - 1]] == q[..i] + ([f] + q[i..])
  {
    assert q[..|q| - 1][..i] == q[..i] && q[..|q| - 1][i..] + [q[|q| - 1]] == q[i..];
  }

  /** In an ordered queue the new frame stands behind all frames of its priority or a higher one and before all others, and
      the others keep their order: frames of equal priority leave in the order of their arrival. */
  lemma InsertOrdered(q: seq<Frame>, f: Frame)
    requires Ordered(q)
    ensures var i := PlaceFor(q, f);
      && Insert(q, f) == q[..i] + ([f] + q[i..])
      && (forall j | 0 <= j < i :: q[j].priority <= f.priority) && (forall j | i <= j < |q| :: q[j].priority > f.priority)
    ensures Ordered(Insert(q, f)) && multiset(Insert(q, f)) == multiset(q) + multiset{f}
  {
    var i := PlaceFor(q, f);
    InsertPlaced(q, f);
    BetweenOrdered(q, f, i);
    BetweenMembers(q, f, i);
  }

  lemma BetweenOrdered(q: seq<Frame>, f: Frame, i: nat)
    requires Ordered(q) && Around(q, f, i)
    ensures forall j | 0 <= j < i :: q[j].priority <= f.priority
    ensures Ordered(q[..i] + ([f] + q[i..]))
  {
    var r := q[..i] + ([f] + q[i..]);
    assert forall j | 0 <= j < i :: q[j].priority <= f.priority;
    forall j, k | 0 <= j < k < |r|
      ensures r[j].priority <= r[k].priority
    {
      assert r[j] == if j < i then q[j] else if j == i then f else q[j - 1];
      assert r[k] == if k < i then q[k] else if k == i then f else q[k - 1];
    }
  }

  lemma BetweenMembers(q: seq<Frame>, f: Frame, i: nat)
    requires i <= |q|
    ensures multiset(q[..i] + ([f] + q[i..])) == multiset(q) + multiset{f}
  {
    assert q == q[..i] + q[i..];
  }

  // ---------------------------------------------------------------- draining one queue

  /** Not yet timed out; a deadline of zero means never. */
  predicate Live(f: Frame, now: u64) { f.deadline == 0 || f.deadline > now }

  datatype Stop = Drained | Busy | Failure(code: int)

  /** How many frames leave the queue, how many calls the transceiver has seen, and why the loop ended. */
  datatype Drain = Drain(popped: nat, calls: nat, stop: Stop)

  /** The drain loop as a function of the queue and of the oracle from its call `calls` on. */
  function DrainOf(q: seq<Frame>, now: u64, send: nat -> int, calls: nat): (d: Drain)
    ensures d.popped <= |q|
  {
    if |q| == 0 then Drain(0, calls, Drained)
    else if Live(q[0], now) then
      var r := send(calls);
      if r == 0 then Drain(0, calls + 1, Busy)
      else if r < 0 then Drain(0, calls + 1, Failure(-r))
      else
        var d := DrainOf(q[1..], now, send, calls + 1);
        d.(popped := d.popped + 1)
    else
      var d := DrainOf(q[1..], now, send, calls);
      d.(popped := d.popped + 1)
  }

  /** The frames that are still live. */
  function Unexpired(q: seq<Frame>, now: u64): seq<Frame> {
    if |q| == 0 then []
    else Unexpired(q[..|q| - 1], now) + if Live(q[|q| - 1], now) then [q[|q| - 1]] else []
  }

  lemma {:induction false} UnexpiredCons(f: Frame, q: seq<Frame>, now: u64)
    ensures Unexpired([f] + q, now) == (if Live(f, now) then [f] else []) + Unexpired(q, now)
  {
    if |q| == 0 {
      assert [f] + q == [f] && [f][..0] == [];
      assert Unexpired([f], now) == Unexpired([], now) + if Live(f, now) then [f] else [];
    } else {
      var n := |q| - 1;
      assert ([f] + q)[..n + 1] == [f] + q[..n];
      UnexpiredCons(f, q[..n], now);
    }
  }

  lemma UnexpiredHead(q: seq<Frame>, n: nat, now: u64)
    requires 0 < n <= |q|
    ensures Unexpired(q[..n], now) == (if Live(q[0], now) then [q[0]] else []) + Unexpired(q[1..][..n - 1], now)
  {
    assert q[..n] == [q[0]] + q[1..][..n - 1];
    UnexpiredCons(q[0], q[1..][..n - 1], now);
  }

  /** The transceiver takes every frame it is offered in the calls from `a` up to `b`. */
  predicate Accepts(send: nat -> int, a: nat, b: nat) {
    forall k | a <= k < b :: send(k) > 0
  }

  lemma AcceptsMore(send: nat -> int, a: nat, b: nat)
    requires send(a) > 0 && Accepts(send, a + 1, b)
    ensures Accepts(send, a, b)
  {
  }

  /** What the oracle answered to the calls of one drain: yes to every live frame that left the queue, in order, and then
      at most one other answer, for the frame that stayed at the head. */
  lemma {:induction false} DrainConserves(q: seq<Frame>, now: u64, send: nat -> int, calls: nat)
    ensures var d := DrainOf(q, now, send, calls);
      var accepted := |Unexpired(q[..d.popped], now)|;
      && d.calls == calls + accepted + (if d.stop.Drained? then 0 else 1)
      && Accepts(send, calls, calls + accepted)
      && (d.stop.Drained? <==> d.popped == |q|)
      && (!d.stop.Drained? ==> Live(q[d.popped], now) && send(d.calls - 1) <= 0)
      && (d.stop.Busy? ==> send(d.calls - 1) == 0)
      && (d.stop.Failure? ==> d.stop.code == -send(d.calls - 1) > 0)
  {
    if |q| > 0 {
      var tail := q[1..];
      if !Live(q[0], now) || send(calls) > 0 {
        var next := if Live(q[0], now) then calls + 1 else calls;
        var d := DrainOf(tail, now, send, next);
        DrainConserves(tail, now, send, next);
        UnexpiredHead(q, d.popped + 1, now);
        if Live(q[0], now) {
          AcceptsMore(send, calls, next + |Unexpired(tail[..d.popped], now)|);
        }
      } else {
        assert q[..0] == [];
      }
    }
  }

  // ---------------------------------------------------------------- objects

  /** One interface: its queue, the frames the transceiver accepted, the frames handed to memory_free, and the number of
      calls of SendCanardFrame. */
  datatype Books = Books(queue: seq<Frame>, sent: seq<Frame>, freed: seq<Frame>, calls: nat)

  /** The books after a drain: what was popped is freed, and what was live of it was sent. */
  function AfterDrain(b: Books, now: u64, send: nat -> int): Books {
    var d := DrainOf(b.queue, now, send, b.calls);
    var popped := b.queue[..d.popped];
    Books(b.queue[d.popped..], b.sent + Unexpired(popped, now), b.freed + popped, d.calls)
  }

  function StopOf(b: Books, now: u64, send: nat -> int): Stop {
    DrainOf(b.queue, now, send, b.calls).stop
  }

  /** One turn of the loop that pops the head. */
  function AfterPop(b: Books, now: u64): Books
    requires |b.queue| > 0
  {
    var f := b.queue[0];
    if Live(f, now) then Books(b.queue[1..], b.sent + [f], b.freed + [f], b.calls + 1)
    else Books(b.queue[1..], b.sent, b.freed + [f], b.calls)
  }

  lemma PopThenDrain(b: Books, now: u64, send: nat -> int)
    requires |b.queue| > 0 && (Live(b.queue[0], now) ==> send(b.calls) > 0)
    ensures AfterDrain(b, now, send) == AfterDrain(AfterPop(b, now), now, send)
    ensures StopOf(b, now, send) == StopOf(AfterPop(b, now), now, send)
  {
    hide Live, Unexpired;
    var q, c := b.queue, AfterPop(b, now);
    var n := DrainOf(c.queue, now, send, c.calls).popped;
    UnexpiredHead(q, n + 1, now);
    assert q[..n + 1] == [q[0]] + c.queue[..n] && q[n + 1..] == c.queue[n..];
    HeadFirst(b.freed, q[0], c.queue[..n]);
    if Live(q[0], now) {
      HeadFirst(b.sent, q[0], Unexpired(c.queue[..n], now));
    } else {
      assert [] + Unexpired(c.queue[..n], now) == Unexpired(c.queue[..n], now);
    }
  }

  lemma HeadFirst(s: seq<Frame>, f: Frame, t: seq<Frame>)
    ensures s + ([f] + t) == (s + [f]) + t
  {
  }

  class Port {
    var queue: seq<Frame>
    var sent: seq<Frame>
    var freed: seq<Frame>
    var calls: nat

    ghost function Record(): Books
      reads this
    {
      Books(queue, sent, freed, calls)
    }

    constructor ()
      ensures Record() == Books([], [], [], 0)
    {
      queue, sent, freed, calls := [], [], [], 0;
    }

    /** canardTxPush: the number of frames, or a negative error when the queue is full. */
    method Push(f: Frame, capacity: nat) returns (r: int)
      requires Ordered(queue)
      modifies this`queue
      ensures Ordered(queue)
      ensures if |old(queue)| < capacity then r == 1 && queue == Insert(old(queue), f) else r < 0 && queue == old(queue)
      ensures r == 1 ==> multiset(queue) == multiset(old(queue)) + multiset{f}
    {
      if |queue| < capacity {
        InsertOrdered(queue, f);
        queue := Insert(queue, f);
        return 1;
      }
      return -2;
    }

    /** canardTxPop, and the release of the frame's memory. */
    method Pop()
      requires |queue| > 0
      modifies this`queue, this`freed
      ensures queue == old(queue)[1..] && freed == old(freed) + [old(queue)[0]]
    {
      freed := freed + [queue[0]];
      queue := queue[1..];
    }

    /** The drain loop. */
    method DrainQueue(now: u64, send: nat -> int) returns (stop: Stop)
      requires Ordered(queue)
      modifies this
      ensures Record() == AfterDrain(old(Record()), now, send) && stop == StopOf(old(Record()), now, send)
      ensures Ordered(queue)
    {
      ghost var start := Record();
      while |queue| > 0
        invariant Ordered(queue)
        invariant AfterDrain(Record(), now, send) == AfterDrain(start, now, send)
        invariant StopOf(Record(), now, send) == StopOf(start, now, send)
        decreases |queue|
      {
        var tqi := queue[0];
        ghost var before := Record();
        if tqi.deadline == 0 || tqi.deadline > now {
          var result := send(calls);
          calls := calls + 1;
          if result == 0 {
            HeadStays(before, now, send);
            return Busy;
          }
          if result < 0 {
            HeadStays(before, now, send);
            return Failure(-result);
          }
          sent := sent + [tqi];
        }
        Pop();
        assert Record() == AfterPop(before, now);
        PopThenDrain(before, now, send);
        OrderedTail(before.queue);
      }
      NothingLeft(Record(), now, send);
      return Drained;
    }
  }

  lemma OrderedTail(q: seq<Frame>)
    requires Ordered(q) && |q| > 0
    ensures Ordered(q[1..])
  {
  }

  lemma HeadStays(b: Books, now: u64, send: nat -> int)
    requires |b.queue| > 0 && Live(b.queue[0], now) && send(b.calls) <= 0
    ensures AfterDrain(b, now, send) == b.(calls := b.calls + 1)
    ensures StopOf(b, now, send) == if send(b.calls) == 0 then Busy else Failure(-send(b.calls))
  {
    assert b.queue[..0] == [] && b.queue[0..] == b.queue && b.freed + [] == b.freed && b.sent + [] == b.sent;
  }

  lemma NothingLeft(b: Books, now: u64, send: nat -> int)
    requires |b.queue| == 0
    ensures AfterDrain(b, now, send) == b && StopOf(b, now, send) == Drained
  {
  }

  /** Conservation: the queue before is what was freed followed by what remains; the live frames among the freed ones, and
      no others, were sent, each once and in order; a frame the transceiver refused is still at the head. */
  lemma DrainLaws(b: Books, now: u64, send: nat -> int)
    ensures var c := AfterDrain(b, now, send);
      exists popped ::
        && b.queue == popped + c.queue && c.freed == b.freed + popped && c.sent == b.sent + Unexpired(popped, now)
        && Accepts(send, b.calls, b.calls + |Unexpired(popped, now)|)
        && (StopOf(b, now, send).Drained? <==> c.queue == [])
        && (!StopOf(b, now, send).Drained? ==>
              c.queue != [] && Live(c.queue[0], now) && c.calls > 0 && send(c.calls - 1) <= 0)
  {
    var d := DrainOf(b.queue, now, send, b.calls);
    DrainConserves(b.queue, now, send, b.calls);
    assert b.queue == b.queue[..d.popped] + b.queue[d.popped..];
  }

  predicate HasRoom(b: Books, capacity: nat) { |b.queue| < capacity }

  function AfterPush(b: Books, f: Frame, capacity: nat): Books {
    if HasRoom(b, capacity) then b.(queue := Insert(b.queue, f)) else b
  }

  predicate PushedTo(before: seq<Books>, after: seq<Books>, f: Frame, capacity: nat, i: nat)
    requires |before| == |after| && i < |before|
  {
    after[i] == AfterPush(before[i], f, capacity)
  }

  predicate Untouched(before: seq<Books>, after: seq<Books>, i: nat)
    requires |before| == |after| && i < |before|
  {
    after[i] == before[i]
  }

  /** The frame was pushed to the first `n` interfaces. */
  predicate Pushed(before: seq<Books>, after: seq<Books>, f: Frame, capacity: nat, n: nat) {
    && |after| == |before| && n <= |before|
    && (forall i | 0 <= i < n :: PushedTo(before, after, f, capacity, i))
    && (forall i | n <= i < |before| :: Untouched(before, after, i))
  }

  lemma LastPushed(start: seq<Books>, before: seq<Books>, f: Frame, capacity: nat, i: nat)
    requires i < |start| && Pushed(start, before, f, capacity, i)
    ensures before[i] == start[i]
    ensures Pushed(start, before[i := AfterPush(start[i], f, capacity)], f, capacity, i + 1)
  {
    var after := before[i := AfterPush(start[i], f, capacity)];
    assert Untouched(start, before, i);
    forall j | 0 <= j < i
      ensures PushedTo(start, after, f, capacity, j)
    {
      assert PushedTo(start, before, f, capacity, j);
    }
    forall j | i < j < |start|
      ensures Untouched(start, after, j)
    {
      assert Untouched(start, before, j);
    }
    assert PushedTo(start, after, f, capacity, i);
  }

  /** OpenCyphal with its redundant interfaces. */
  class Cyphal {
    const ports: seq<Port>

    ghost predicate Valid()
      reads ports
    {
      && (forall i, j | 0 <= i < j < |ports| :: ports[i] != ports[j])
      && forall i | 0 <= i < |ports| :: Ordered(ports[i].queue)
    }

    ghost function Records(): (r: seq<Books>)
      reads ports
      ensures |r| == |ports| && forall i | 0 <= i < |r| :: r[i] == ports[i].Record()
    {
      seq(|ports|, i requires 0 <= i < |ports| reads ports => ports[i].Record())
    }

    constructor (ports: seq<Port>)
      requires forall i, j | 0 <= i < j < |ports| :: ports[i] != ports[j]
      requires forall i | 0 <= i < |ports| :: Ordered(ports[i].queue)
      ensures Valid() && this.ports == ports
    {
      this.ports := ports;
    }

    method PushTo(i: nat, f: Frame, capacity: nat) returns (r: int)
      requires Valid() && i < |ports|
      modifies ports[i]
      ensures Valid() && Records() == old(Records())[i := AfterPush(old(Records())[i], f, capacity)]
      ensures if HasRoom(old(Records())[i], capacity) then r == 1 else r < 0
    {
      r := ports[i].Push(f, capacity);
    }

    /** Publishing pushes to every interface and reports the outcome of the last one only. */
    method Publish(f: Frame, capacity: nat) returns (retval: int)
      requires Valid()
      modifies set p | p in ports
      ensures Valid() && Pushed(old(Records()), Records(), f, capacity, |ports|)
      ensures |ports| == 0 ==> retval == 0
      ensures |ports| > 0 ==> if HasRoom(old(Records())[|ports| - 1], capacity) then retval == 1 else retval < 0
    {
      retval := 0;
      ghost var start := Records();
      var i := 0;
      while i < |ports|
        invariant i <= |ports| && Valid() && Pushed(start, Records(), f, capacity, i)
        invariant i == 0 ==> retval == 0
        invariant i > 0 ==> if HasRoom(start[i - 1], capacity) then retval == 1 else retval < 0
      {
        LastPushed(start, Records(), f, capacity, i);
        retval := PushTo(i, f, capacity);
        i := i + 1;
      }
    }

    /** Drains the queue of one interface; the others keep their records. */
    method Serve(i: nat, now: u64, send: nat -> int) returns (stop: Stop)
      requires Valid() && i < |ports|
      modifies ports[i]
      ensures Valid() && Records() == old(Records())[i := AfterDrain(old(Records())[i], now, send)]
      ensures stop == StopOf(old(Records())[i], now, send)
    {
      stop := ports[i].DrainQueue(now, send);
    }

    /** The pump. `send[i]` answers for the transmissions of interface `i`, `receive[i]` for its reception. The interfaces
        are drained in order, up to and including the first one that fails or has nothing to receive; those behind it are
        not served at all. */
    method HandleTxRxQueues(now: u64, send: seq<nat -> int>, receive: seq<int>) returns (result: int, served: nat)
      requires Valid() && |send| == |ports| == |receive|
      modifies set p | p in ports
      ensures Valid() && Pumped(old(Records()), Records(), now, send, receive, served, result)
      ensures Reported(Records(), send, receive, served, result)
    {
      result, served := 0, 0;
      ghost var start := Records();
      while served < |ports|
        invariant served <= |ports| && Valid() && result == 0 && |start| == |ports|
        invariant AllWell(start, Records(), now, send, receive, served)
      {
        ghost var before := Records();
        var i := served;
        var stop := Serve(i, now, send[i]);
        served := served + 1;
        LastServed(start, before, now, send, receive, i);
        if stop.Failure? {
          PumpReports(start, Records(), now, send, receive, served, stop.code);
          return stop.code, served;
        }
        if receive[i] == 0 {
          break;
        }
        if receive[i] < 0 {
          PumpReports(start, Records(), now, send, receive, served, -receive[i]);
          return -receive[i], served;
        }
      }
      if served == |ports| && AllWell(start, Records(), now, send, receive, served) {
        AllServed(start, Records(), now, send, receive);
      }
      PumpReports(start, Records(), now, send, receive, served, result);
    }
  }

  lemma AllServed(start: seq<Books>, after: seq<Books>, now: u64, send: seq<nat -> int>, receive: seq<int>)
    requires |start| == |send| == |receive| && AllWell(start, after, now, send, receive, |start|)
    ensures Pumped(start, after, now, send, receive, |start|, 0)
  {
    forall i | 0 <= i < |start|
      ensures ServedBy(start, after, now, send, i)
    {
      assert WellServed(start, after, now, send, receive, i);
    }
    if |start| > 0 {
      assert WellServed(start, after, now, send, receive, |start| - 1);
    }
  }

  /** Interface `i` has been drained. */
  ghost predicate ServedBy(before: seq<Books>, after: seq<Books>, now: u64, send: seq<nat -> int>, i: nat)
    requires |before| == |send| == |after| && i < |before|
  {
    after[i] == AfterDrain(before[i], now, send[i])
  }

  /** Interface `i` has been drained without failure, and something was received from it. */
  ghost predicate WellServed(before: seq<Books>, after: seq<Books>, now: u64, send: seq<nat -> int>, receive: seq<int>,
    i: nat)
    requires |before| == |send| == |receive| == |after| && i < |before|
  {
    ServedBy(before, after, now, send, i) && !StopOf(before[i], now, send[i]).Failure? && receive[i] > 0
  }

  /** The first `served` interfaces were drained without failure and received something. */
  ghost predicate AllWell(before: seq<Books>, after: seq<Books>, now: u64, send: seq<nat -> int>, receive: seq<int>,
    served: nat)
    requires |before| == |send| == |receive|
  {
    && |after| == |before| && served <= |before|
    && (forall i | 0 <= i < served :: WellServed(before, after, now, send, receive, i))
    && (forall i | served <= i < |before| :: Untouched(before, after, i))
  }

  lemma LastServed(start: seq<Books>, before: seq<Books>, now: u64, send: seq<nat -> int>, receive: seq<int>, i: nat)
    requires |start| == |send| == |receive| && i < |start| && AllWell(start, before, now, send, receive, i)
    ensures before[i] == start[i]
    ensures var after := before[i := AfterDrain(start[i], now, send[i])];
      var stop := StopOf(start[i], now, send[i]);
      && (!stop.Failure? && receive[i] > 0 ==> AllWell(start, after, now, send, receive, i + 1))
      && (stop.Failure? || receive[i] <= 0 || i + 1 == |start| ==>
            Pumped(start, after, now, send, receive, i + 1, PumpResult(stop, receive[i])))
  {
    var after := before[i := AfterDrain(start[i], now, send[i])];
    assert Untouched(start, before, i);
    forall j | 0 <= j < i
      ensures WellServed(start, after, now, send, receive, j) && ServedBy(start, after, now, send, j)
    {
      assert WellServed(start, before, now, send, receive, j);
    }
    forall j | i < j < |start|
      ensures Untouched(start, after, j)
    {
      assert Untouched(start, before, j);
    }
    assert ServedBy(start, after, now, send, i);
  }

  /** The effect of the pump: the first `served` interfaces are drained, the others are as they were, and only the last one
      served can have failed or had nothing to receive. */
  ghost predicate Pumped(before: seq<Books>, after: seq<Books>, now: u64, send: seq<nat -> int>, receive: seq<int>,
    served: nat, result: int)
    requires |before| == |send| == |receive|
  {
    && |after| == |before| && served <= |before| && (|before| > 0 ==> served > 0)
    && (forall i | 0 <= i < served :: ServedBy(before, after, now, send, i))
    && (forall i | served <= i < |before| :: Untouched(before, after, i))
    && (forall i | 0 <= i < served - 1 :: WellServed(before, after, now, send, receive, i))
    && (served == 0 ==> result == 0)
    && (served > 0 ==>
          var stop := StopOf(before[served - 1], now, send[served - 1]);
          && result == PumpResult(stop, receive[served - 1])
          && (served < |before| ==> stop.Failure? || receive[served - 1] <= 0))
  }

  /** The transceiver's last answer, if it was not a yes: a frame that is still at the head was refused by it. */
  function LastAnswer(c: Books, send: nat -> int): int {
    if c.queue != [] && c.calls > 0 then send(c.calls - 1) else 0
  }

  lemma StopAnswer(b: Books, now: u64, send: nat -> int)
    ensures var c, stop := AfterDrain(b, now, send), StopOf(b, now, send);
      if stop.Failure? then LastAnswer(c, send) < 0 && stop.code == -LastAnswer(c, send) else LastAnswer(c, send) == 0
  {
    DrainConserves(b.queue, now, send, b.calls);
  }

  /** The result in terms of the answers: that of the last interface served, the transmission before the reception, and with
      the sign reversed. Every interface before it answered well, and only the end of the list or a bad answer stops. */
  ghost predicate Reported(after: seq<Books>, send: seq<nat -> int>, receive: seq<int>, served: nat, result: int)
    requires |after| == |send| == |receive|
  {
    && served <= |after| && (served == 0 ==> after == [] && result == 0)
    && (served > 0 ==>
          var last, got := LastAnswer(after[served - 1], send[served - 1]), receive[served - 1];
          && result == (if last < 0 then -last else if got < 0 then -got else 0)
          && (served < |after| ==> last < 0 || got <= 0))
    && forall i | 0 <= i < served - 1 :: LastAnswer(after[i], send[i]) >= 0 && receive[i] > 0
  }

  lemma PumpReports(before: seq<Books>, after: seq<Books>, now: u64, send: seq<nat -> int>, receive: seq<int>,
    served: nat, result: int)
    requires |before| == |send| == |receive| && Pumped(before, after, now, send, receive, served, result)
    ensures Reported(after, send, receive, served, result)
  {
    if served > 0 {
      assert ServedBy(before, after, now, send, served - 1);
      StopAnswer(before[served - 1], now, send[served - 1]);
    }
    forall i | 0 <= i < served - 1
      ensures LastAnswer(after[i], send[i]) >= 0 && receive[i] > 0
    {
      assert WellServed(before, after, now, send, receive, i);
      StopAnswer(before[i], now, send[i]);
    }
  }

  /** What the pump returns after the last interface it served. */
  function PumpResult(stop: Stop, received: int): int {
    if stop.Failure? then stop.code else if received < 0 then -received else 0
  }
}
