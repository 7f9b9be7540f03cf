/** uavcan.node.Health.1.0, Mode.1.0 and Heartbeat.1.0: saturated fields smaller than a byte, each in its own object. */
module NodeHealth {
  import opened Bits
  import opened Serialization
  import opened Dsdl
  import opened Sizes
  import opened Codec
  import opened Layout

  type u32 = n: nat | n < 0x1_0000_0000

  // ---------------------------------------------------------------- Health.1.0 (two bits) and Mode.1.0 (three)

  function SmallFields(width: nat): Type { Then(Field(width), Empty) }

  function Small(width: nat): Type { Nested(SmallFields(width)) }

  /** Values that do not fit are clamped to the largest one that does. */
  function Saturated(value: nat, width: nat): (r: nat)
    ensures r < Pow2(width) && r <= value && (value < Pow2(width) ==> r == value)
  {
    if value > Pow2(width) - 1 then Pow2(width) - 1 else value
  }

  function SmallImage(value: nat, width: nat): (v: Value)
    ensures Fits(Small(width), v) && Shape(Small(width), v)
  {
    var v := Pair(Plain(ToBits(Saturated(value, width), width)), Nothing);
    assert Fits(SmallFields(width), v) && Shape(SmallFields(width), v);
    v
  }

  lemma SmallExtent(width: nat, off: nat)
    requires 0 < width <= 8 && off % 8 == 0
    ensures MinEnd(Small(width), off) == off + 8 == MaxEnd(Small(width), off)
  {
    assert Align(off) == off;
    assert MinEnd(SmallFields(width), off) == off + width == MaxEnd(SmallFields(width), off);
    NextByte(off, width);
  }

  lemma NextByte(off: nat, width: nat)
    requires 0 < width <= 8 && off % 8 == 0
    ensures Align(off + width) == off + 8
  {
  }

  lemma SmallWellFormed(width: nat)
    ensures WellFormed(Small(width))
  {
    assert WellFormed(Field(width)) && WellFormed(Empty);
  }

  lemma SmallPlaced(bytes: seq<bv8>, i: nat, value: nat, width: nat, end: nat)
    requires 0 < width < 8 && Decode(Small(width), BitsOf(bytes), 8 * i) == Done(SmallImage(value, width), end)
    ensures Bitfield(bytes, i, 0, width) == ChooseMin(value, Pow2(width) - 1) && end == 8 * (i + 1)
  {
    hide Decode, Pow2, ToBits, Unsigned;
    var b, v, sat := BitsOf(bytes), SmallImage(value, width), Saturated(value, width);
    var inner := BodyDecoded(Small(width), b, 8 * i, v, end);
    NumberFirst(SmallFields(width), b, 8 * i, v, inner, width, sat);
    DivModUnique(sat, Pow2(width), 0, sat);
    EmptyDecoded(b, 8 * i + width, v.rest, inner);
    NextByte(8 * i, width);
  }

  method SerializeSmall(value: u8, width: nat, buf: array<bv8>, at: nat, capacity: nat) returns (r: Status, size: nat)
    requires 0 < width < 8 && at + capacity <= buf.Length
    modifies buf
    ensures Serialized(Small(width), SmallImage(value, width), old(BitsOf(buf[..])), BitsOf(buf[..]), at, capacity, r, size)
    ensures r == if capacity < 1 then BufferTooSmall else Ok
    ensures r == Ok ==> size == 1 && Bitfield(buf[..], at, 0, width) == ChooseMin(value, Pow2(width) - 1)
  {
    ghost var t, v := SmallFields(width), SmallImage(value, width);
    SmallExtent(width, 0);
    if 8 * capacity < 8 {
      return BufferTooSmall, 0;
    }
    var off := 0;
    ghost var job, p := Begin(t, v, buf, at, capacity);
    var sat := value;
    if sat > Pow2(width) - 1 {
      sat := Pow2(width) - 1;
    }
    off, p := LowField(buf, at, capacity, off, sat, width, job, p);
    r, size := Complete(t, v, buf, at, capacity, off, job, p);
    assert 8 * size == 8;
    SmallWellFormed(width);
    WrittenDecodes(Small(width), v, job.was, buf[..], at, capacity, size);
    SmallPlaced(buf[..], at, value, width, 8 * (at + size));
  }

  method DeserializeSmall(bytes: seq<bv8>, width: nat) returns (r: Status, value: u8, size: nat)
    requires 0 < width < 8
    ensures r == Ok && value < Pow2(width) && Deserialized(Small(width), bytes, r, SmallImage(value, width), size)
    ensures value == Bitfield(bytes, 0, 0, width)
  {
    ghost var t := SmallFields(width);
    ghost var whole, c := ReadStart(t, bytes);
    var off, low := 0, 0;
    low, off, c := ReadLow(bytes, off, width, whole, c);
    value := low;
    size := Conclude(bytes, off, t, whole, c, SmallImage(value, width));
    r := Ok;
    ghost var end := ReadDecodes(Small(width), bytes, r, SmallImage(value, width), size);
    SmallPlaced(bytes, 0, value, width, end);
  }

  method SmallField(buf: array<bv8>, at: nat, capacity: nat, off: nat, value: u8, width: nat,
    ghost job: Job, ghost p: Point)
    returns (r: Status, next: nat, ghost q: Point)
    requires Ready(buf, at, capacity, off, job, p) && off % 8 == 0 && 0 < width < 8
    requires Next(p, Small(width), SmallImage(value, width), off, 8, capacity)
    modifies buf
    ensures r == Ok && Ready(buf, at, capacity, next, job, q) && Past(q, p) && next == off + 8 && next % 8 == 0
  {
    ghost var mid := BitsOf(buf[..]);
    var size;
    r, size := SerializeSmall(value, width, buf, at + off / 8, 1);
    SmallExtent(width, 0);
    FitsIffValid(Small(width), SmallImage(value, width));
    next := off + 8 * size;
    q := NestedField(buf, mid, at, capacity, off, 1, job, p, r, size, next);
  }

  method ReadSmall(bytes: seq<bv8>, off: nat, width: nat, ghost whole: Result, ghost c: Cursor)
    returns (r: Status, value: u8, next: nat, ghost d: Cursor)
    requires Reading(whole, bytes, off, c) && c.t.Then? && c.t.first == Small(width) && off % 8 == 0 && 0 < width < 8
    ensures r == Ok && Reading(whole, bytes, next, d) && After(d, c, SmallImage(value, width)) && next % 8 == 0
    ensures value <= if width == 2 then 3 else if width == 3 then 7 else 0xFF
  {
    var size;
    SmallBounds();
    r, value, size := DeserializeSmall(Rest(bytes, off), width);
    next := off + 8 * size;
    d := NestedTaken(whole, bytes, off, c, r, SmallImage(value, width), size, next);
  }

  lemma SmallBounds()
    ensures Pow2(2) == 4 && Pow2(3) == 8
  {
  }

  // ---------------------------------------------------------------- Heartbeat.1.0

  const HEALTH := Nested(Then(Field(2), Empty))
  const MODE := Nested(Then(Field(3), Empty))
  const HEARTBEAT_FIELDS := Then(Field(32), Then(HEALTH, Then(MODE, Then(Field(8), Empty))))
  const HEARTBEAT := Nested(HEARTBEAT_FIELDS)

  datatype Heartbeat = Heartbeat(uptime: u32, health: u8, mode: u8, vendorStatus: u8) {
    function Image(): (v: Value)
      ensures Shape(HEARTBEAT, v)
    {
      var v := Pair(Plain(ToBits(uptime, 32)), Pair(SmallImage(health, 2), Pair(SmallImage(mode, 3),
        Pair(Plain(ToBits(vendorStatus, 8)), Nothing))));
      assert Shape(HEARTBEAT_FIELDS, v);
      v
    }
  }

  /** The uptime, the clamped health in the low bits of byte 4, the clamped mode in those of byte 5, the vendor's byte. */
  predicate HeartbeatAt(bytes: seq<bv8>, i: nat, obj: Heartbeat) {
    && Number(bytes, i, 4) == obj.uptime && Number(bytes, i + 6, 1) == obj.vendorStatus
    && Bitfield(bytes, i + 4, 0, 2) == ChooseMin(obj.health, 3) && Bitfield(bytes, i + 5, 0, 3) == ChooseMin(obj.mode, 7)
  }

  lemma HeartbeatWellFormed()
    ensures WellFormed(HEARTBEAT)
  {
    assert WellFormed(HEALTH) && WellFormed(MODE);
    assert WellFormed(HEARTBEAT_FIELDS.rest.rest);
    assert WellFormed(HEARTBEAT_FIELDS);
  }

  lemma HeartbeatPlaced(bytes: seq<bv8>, i: nat, obj: Heartbeat, end: nat)
    requires Decode(HEARTBEAT, BitsOf(bytes), 8 * i) == Done(obj.Image(), end)
    ensures HeartbeatAt(bytes, i, obj)
  {
    hide Decode, Number, Bitfield, Pow2, ToBits, SmallImage;
    NativePowers();
    SmallBounds();
    var b, v, t := BitsOf(bytes), obj.Image(), HEARTBEAT_FIELDS;
    var inner := BodyDecoded(HEARTBEAT, b, 8 * i, v, end);
    WholeFirst(t, bytes, i, v, inner, 4, obj.uptime);
    var mid := FirstDecoded(t.rest, b, 8 * (i + 4), v.rest, inner);
    SmallPlaced(bytes, i + 4, obj.health, 2, mid);
    mid := FirstDecoded(t.rest.rest, b, 8 * (i + 5), v.rest.rest, inner);
    SmallPlaced(bytes, i + 5, obj.mode, 3, mid);
    WholeFirst(t.rest.rest.rest, bytes, i + 6, v.rest.rest.rest, inner, 1, obj.vendorStatus);
  }

  lemma HeartbeatExtent()
    ensures MinEnd(HEARTBEAT, 0) == 56 == MaxEnd(HEARTBEAT, 0)
  {
    SmallExtent(2, 32);
    SmallExtent(3, 40);
    ThenExtent(HEARTBEAT_FIELDS.rest.rest, 40, 48, 56, 40, 48, 56);
    ThenExtent(HEARTBEAT_FIELDS.rest, 32, 40, 56, 32, 40, 56);
    ThenExtent(HEARTBEAT_FIELDS, 0, 32, 56, 0, 32, 56);
    NestedExtent(HEARTBEAT_FIELDS, 56, 56);
  }

  /** The two nested objects in the middle. */
  method HealthAndMode(buf: array<bv8>, at: nat, capacity: nat, off: nat, obj: Heartbeat,
    ghost job: Job, ghost p: Point)
    returns (r: Status, next: nat, ghost q: Point)
    requires Ready(buf, at, capacity, off, job, p) && off % 8 == 0 && off + 16 <= 8 * capacity
    requires p.t == HEARTBEAT_FIELDS.rest && p.v == obj.Image().rest
    modifies buf
    ensures r == Ok && Ready(buf, at, capacity, next, job, q) && next == off + 16 && next % 8 == 0
    ensures q.t == HEARTBEAT_FIELDS.rest.rest.rest && q.v == obj.Image().rest.rest.rest
  {
    r, next, q := SmallField(buf, at, capacity, off, obj.health, 2, job, p);
    r, next, q := SmallField(buf, at, capacity, next, obj.mode, 3, job, q);
  }

  method SerializeHeartbeat(obj: Heartbeat, buf: array<bv8>, at: nat, capacity: nat) returns (r: Status, size: nat)
    requires at + capacity <= buf.Length
    modifies buf
    ensures Serialized(HEARTBEAT, obj.Image(), old(BitsOf(buf[..])), BitsOf(buf[..]), at, capacity, r, size)
    ensures r == (if capacity < 7 then BufferTooSmall else Ok) && (r == Ok ==> HeartbeatAt(buf[..], at, obj))
  {
    hide Ready, Runs, Serialized, MinEnd, MaxEnd, WellFormed, Decode, HeartbeatAt;
    HeartbeatExtent();
    if 8 * capacity < 56 {
      TooSmall(HEARTBEAT, obj.Image(), BitsOf(buf[..]), at, capacity);
      return BufferTooSmall, 0;
    }
    var off := 0;
    ghost var v := obj.Image();
    ghost var job, p := Begin(HEARTBEAT_FIELDS, v, buf, at, capacity);
    off, p := IntegerField(buf, at, capacity, off, obj.uptime, 4, job, p);
    r, off, p := HealthAndMode(buf, at, capacity, off, obj, job, p);
    off, p := ByteField(buf, at, capacity, off, obj.vendorStatus, job, p);
    r, size := Complete(HEARTBEAT_FIELDS, v, buf, at, capacity, off, job, p);
    HeartbeatWellFormed();
    WrittenDecodes(HEARTBEAT, v, job.was, buf[..], at, capacity, size);
    HeartbeatPlaced(buf[..], at, obj, 8 * (at + size));
  }

  method DeserializeHeartbeat(bytes: seq<bv8>) returns (r: Status, obj: Heartbeat, size: nat)
    ensures r == Ok && obj.health <= 3 && obj.mode <= 7 && Deserialized(HEARTBEAT, bytes, r, obj.Image(), size)
    ensures HeartbeatAt(bytes, 0, obj)
  {
    ghost var whole, c := ReadStart(HEARTBEAT_FIELDS, bytes);
    var off, uptime, health, mode, vendorStatus := 0, 0, 0, 0, 0;
    uptime, off, c := ReadInteger(bytes, off, 32, 32, whole, c);
    r, health, off, c := ReadSmall(bytes, off, 2, whole, c);
    r, mode, off, c := ReadSmall(bytes, off, 3, whole, c);
    vendorStatus, off, c := ReadLow(bytes, off, 8, whole, c);
    obj := Heartbeat(uptime, health, mode, vendorStatus);
    size := Conclude(bytes, off, HEARTBEAT_FIELDS, whole, c, obj.Image());
    ghost var end := ReadDecodes(HEARTBEAT, bytes, r, obj.Image(), size);
    HeartbeatPlaced(bytes, 0, obj, end);
  }
}
