/** The latency measurement: TLatencyMeasurement notes the send time of a request in a ring of the node and publishes it, and
    LatencyMeasurementNode subtracts the noted time when the response comes in. */
module Latency {
  import opened Scheduler

  type u8 = n: nat | n < 0x100
  type Slot = n: nat | n < 32

  /** The difference of uint64_t, in linear terms. */
  function Minus(a: u64, b: u64): u64 { if a >= b then a - b else a - b + WORD }

  lemma MinusIsModulo(a: u64, b: u64)
    ensures Minus(a, b) == (a - b) % WORD
  {
  }

  /** What is left of a transfer id in the tail byte of a CAN frame, and so in the response. */
  function WireId(id: u8): Slot { id % 32 }

  /** A time stored in the ring. */
  datatype Note = Note(slot: Slot, time: u64)

  // ---------------------------------------------------------------- objects

  /** PUavcanPrimitiveEmpty. Asking for the serialized message moves the transfer id on. */
  class PrimitiveEmpty {
    var transferId: u8

    constructor ()
      ensures transferId == 0
    {
      transferId := 0;
    }

    function Metadata(): u8
      reads this
    {
      transferId
    }

    method SerializedMessage()
      modifies this
      ensures transferId == (old(transferId) + 1) % 0x100
    {
      transferId := (transferId + 1) % 0x100;
    }
  }

  /** The part of a LatencyMeasurementNode that all its latency tasks share. The ring has no initialiser: `memory` is what it
      held at first, `noted` what has been stored since, and `published` the ids in the metadata handed to libcanard. */
  class LatencyNode {
    const latency: array<u64>
    const memory: seq<u64>
    ghost var noted: seq<Note>
    var published: seq<u8>

    ghost predicate Valid()
      reads this, latency
    {
      |memory| == 32 && latency[..] == RingOf(memory, noted)
    }

    /** Every published request has its time noted in the slot of the id that it carries. */
    ghost predicate Consistent()
      reads this
    {
      |noted| == |published| && forall i | 0 <= i < |noted| :: noted[i].slot == WireId(published[i])
    }

    constructor (memory: seq<u64>)
      requires |memory| == 32
      ensures Valid() && Consistent() && this.memory == memory && fresh(latency) && published == []
    {
      latency := new u64[32](i requires 0 <= i < 32 => memory[i]);
      this.memory, noted, published := memory, [], [];
      new;
      assert latency[..] == memory;
    }

    method Store(slot: Slot, time: u64)
      requires Valid()
      modifies this`noted, latency
      ensures Valid() && noted == old(noted) + [Note(slot, time)]
    {
      latency[slot] := time;
      noted := noted + [Note(slot, time)];
      assert noted[..|noted| - 1] == old(noted);
    }

    /** Node::Publish: the metadata is copied before the payload is asked for. */
    method Publish(message: PrimitiveEmpty)
      modifies this`published, message
      ensures published == old(published) + [old(message.transferId)]
      ensures message.transferId == (old(message.transferId) + 1) % 0x100
    {
      var metadata := message.Metadata();
      message.SerializedMessage();
      published := published + [metadata];
    }

    /** The response to a request, with the transfer id as it arrived. */
    method ProcessResponse(id: Slot, now: u64) returns (delta: u64)
      requires Valid()
      ensures delta == (now - RingOf(memory, noted)[id]) % WORD
    {
      assert latency[..][id] == latency[id];
      MinusIsModulo(now, latency[id]);
      delta := Minus(now, latency[id]);
    }
  }

  class LatencyTask {
    const message: PrimitiveEmpty

    constructor ()
      ensures fresh(message) && message.transferId == 0
    {
      message := new PrimitiveEmpty();
    }

    /** The slot is computed before publishing, from metadata that the publication then carries. */
    method Execute(node: LatencyNode, monotonic: u64)
      requires node.Valid()
      modifies message, node, node.latency
      ensures node.Valid() && (old(node.Consistent()) ==> node.Consistent())
      ensures node.published == old(node.published) + [old(message.transferId)]
      ensures node.noted == old(node.noted) + [Note(WireId(old(message.transferId)), monotonic)]
      ensures message.transferId == (old(message.transferId) + 1) % 0x100
    {
      node.Store(message.Metadata() % 32, monotonic);
      node.Publish(message);
    }
  }

  // ---------------------------------------------------------------- the ring

  function RingOf(memory: seq<u64>, notes: seq<Note>): (r: seq<u64>)
    requires |memory| == 32
    ensures |r| == 32
  {
    if |notes| == 0 then memory
    else
      var n := |notes| - 1;
      RingOf(memory, notes[..n])[notes[n].slot := notes[n].time]
  }

  /** The last note in a slot, or -1. */
  function LastNote(notes: seq<Note>, slot: Slot): (k: int)
    ensures -1 <= k < |notes| && (k >= 0 ==> notes[k].slot == slot)
    ensures forall j | k < j < |notes| :: notes[j].slot != slot
  {
    if |notes| == 0 then -1
    else
      var n := |notes| - 1;
      if notes[n].slot == slot then n else LastNote(notes[..n], slot)
  }

  /** Whichever tasks took the notes, a slot holds the time of the last note in it. */
  lemma {:induction false} RingHoldsLatest(memory: seq<u64>, notes: seq<Note>, slot: Slot)
    requires |memory| == 32
    ensures var k := LastNote(notes, slot);
      RingOf(memory, notes)[slot] == if k < 0 then memory[slot] else notes[k].time
  {
    if |notes| > 0 {
      RingHoldsLatest(memory, notes[..|notes| - 1], slot);
    }
  }

  // ---------------------------------------------------------------- one task

  /** The notes of a single task, from the transfer id `first` on. */
  predicate Consecutive(notes: seq<Note>, first: u8) {
    forall i | 0 <= i < |notes| :: notes[i].slot == (first + i) % 32
  }

  /** With a single task the time of a request is in its slot until 32 further requests have been made, and no longer,
      however often the ids have wrapped around. */
  lemma HeldIff(notes: seq<Note>, first: u8, k: nat)
    requires Consecutive(notes, first) && k < |notes|
    ensures LastNote(notes, notes[k].slot) == k <==> |notes| <= k + 32
  {
    if |notes| <= k + 32 {
      var last := LastNote(notes, notes[k].slot);
      if last > k {
        DistinctSlots(first + k, first + last);
      }
    } else {
      assert notes[k + 32].slot == notes[k].slot;
    }
  }

  lemma DistinctSlots(j: nat, k: nat)
    requires j < k < j + 32
    ensures j % 32 != k % 32
  {
  }

  /** The id after `i` requests, and its low five bits. */
  lemma IdAfter(first: u8, i: nat, id: u8)
    requires id == (first + i) % 0x100
    ensures WireId(id) == (first + i) % 32 && (id + 1) % 0x100 == (first + i + 1) % 0x100
  {
    var q := (first + i) / 0x100;
    assert first + i == 0x100 * q + id && id == 32 * (id / 32) + id % 32;
    Remainder32(first + i, 8 * q + id / 32, id % 32);
    if id == 0xFF {
      Remainder256(first + i + 1, q + 1, 0);
    } else {
      Remainder256(first + i + 1, q, id + 1);
    }
  }

  lemma Remainder32(n: nat, q: nat, r: Slot)
    requires n == 32 * q + r
    ensures n % 32 == r
  {
  }

  lemma Remainder256(n: nat, q: nat, r: u8)
    requires n == 0x100 * q + r
    ensures n % 0x100 == r
  {
  }

  /** All notes of the node are this task's, and it carries on where they end. */
  ghost predicate Alone(node: LatencyNode, task: LatencyTask, first: u8)
    reads node, node.latency, task.message
  {
    && node.Valid() && node.Consistent() && Consecutive(node.noted, first)
    && task.message.transferId == (first + |node.noted|) % 0x100
  }

  /** Any number of executions of one task. */
  method Repeat(node: LatencyNode, task: LatencyTask, times: seq<u64>, ghost first: u8)
    requires Alone(node, task, first)
    modifies task.message, node, node.latency
    ensures Alone(node, task, first) && old(node.noted) <= node.noted && old(node.published) <= node.published
    ensures |node.noted| == |old(node.noted)| + |times|
    ensures forall i | 0 <= i < |times| :: node.noted[|old(node.noted)| + i].time == times[i]
  {
    ghost var start := node.noted;
    var i := 0;
    while i < |times|
      invariant i <= |times| && Alone(node, task, first) && |node.noted| == |start| + i
      invariant start <= node.noted && old(node.published) <= node.published
      invariant forall j | 0 <= j < i :: node.noted[|start| + j].time == times[j]
    {
      IdAfter(first, |node.noted|, task.message.transferId);
      task.Execute(node, times[i]);
      i := i + 1;
    }
  }

  /** The measurement: when the response to a request of a single task arrives before 32 further requests were made, the
      time since that very request is reported. */
  method Measure(node: LatencyNode, task: LatencyTask, times: seq<u64>, k: nat, now: u64, ghost first: u8)
    returns (delta: u64)
    requires Alone(node, task, first) && k < |node.noted| && |node.noted| + |times| <= k + 32
    modifies task.message, node, node.latency
    ensures Alone(node, task, first) && delta == (now - old(node.noted)[k].time) % WORD
    ensures old(node.noted)[k].time <= now ==> delta == now - old(node.noted)[k].time
  {
    var id := WireId(node.published[k]);
    Repeat(node, task, times, first);
    HeldIff(node.noted, first, k);
    RingHoldsLatest(node.memory, node.noted, id);
    delta := node.ProcessResponse(id, now);
    MinusIsModulo(now, node.noted[k].time);
  }

  // ---------------------------------------------------------------- several tasks

  /** Executions of several tasks in any order: notes and publications stay consistent. */
  method Interleave(node: LatencyNode, tasks: seq<LatencyTask>, order: seq<nat>, times: seq<u64>)
    requires node.Valid() && node.Consistent() && |order| == |times|
    requires forall i | 0 <= i < |order| :: order[i] < |tasks|
    modifies set i | 0 <= i < |tasks| :: tasks[i].message
    modifies node, node.latency
    ensures node.Valid() && node.Consistent() && |node.noted| == |old(node.noted)| + |times|
    ensures old(node.noted) <= node.noted
    ensures forall i | 0 <= i < |times| :: node.noted[|old(node.noted)| + i].time == times[i]
  {
    ghost var start := node.noted;
    var i := 0;
    while i < |times|
      invariant i <= |times| && node.Valid() && node.Consistent() && |node.noted| == |start| + i && start <= node.noted
      invariant forall j | 0 <= j < i :: node.noted[|start| + j].time == times[j]
    {
      tasks[order[i]].Execute(node, times[i]);
      i := i + 1;
    }
  }

  /** But two tasks share the ring: both begin with the id 0, so the response to the first request of one task is measured
      against the request of the other. */
  method SharedRing(memory: seq<u64>, early: u64, late: u64, now: u64) returns (delta: u64)
    requires |memory| == 32
    ensures delta == (now - late) % WORD
    ensures early != late ==> delta != (now - early) % WORD
  {
    var node := new LatencyNode(memory);
    var a := new LatencyTask();
    var b := new LatencyTask();
    a.Execute(node, early);
    var id := WireId(node.published[0]);
    b.Execute(node, late);
    RingHoldsLatest(memory, node.noted, id);
    delta := node.ProcessResponse(id, now);
    MinusIsModulo(now, late);
    MinusIsModulo(now, early);
  }
}
