/** uavcan.node.IOStatistics.0.1 and the response of uavcan.node.GetTransportStatistics.0.1: truncated counters, and loops
    over nested objects. */
module NodeStatistics {
  import opened Bits
  import opened Serialization
  import opened Dsdl
  import opened Sizes
  import opened Codec
  import opened Layout

  // ---------------------------------------------------------------- uavcan.node.IOStatistics.0.1

  const IO_FIELDS := Then(Field(40), Then(Field(40), Then(Field(40), Empty)))
  const IO := Nested(IO_FIELDS)

  datatype IOStatistics = IOStatistics(emitted: u64, received: u64, errored: u64) {
    function Image(): (v: Value)
      ensures Fits(IO, v) && Shape(IO, v)
    {
      Pair(Plain(ToBits(emitted, 40)), Pair(Plain(ToBits(received, 40)), Pair(Plain(ToBits(errored, 40)), Nothing)))
    }

    predicate InRange() { emitted < Pow2(40) && received < Pow2(40) && errored < Pow2(40) }
  }

  lemma IOExtent(off: nat)
    requires off % 8 == 0
    ensures MinEnd(IO, off) == off + 120 == MaxEnd(IO, off)
  {
    assert Align(off) == off;
    assert MinEnd(IO_FIELDS, off) == off + 120 == MaxEnd(IO_FIELDS, off);
  }

  /** Three counters of five bytes each, truncated. */
  predicate IOAt(bytes: seq<bv8>, i: nat, obj: IOStatistics) {
    && Number(bytes, i, 5) == obj.emitted % 0x100_0000_0000
    && Number(bytes, i + 5, 5) == obj.received % 0x100_0000_0000
    && Number(bytes, i + 10, 5) == obj.errored % 0x100_0000_0000
  }

  lemma IOWellFormed()
    ensures WellFormed(IO)
  {
    assert WellFormed(IO_FIELDS);
  }

  lemma IOPlaced(bytes: seq<bv8>, i: nat, obj: IOStatistics, end: nat)
    requires Decode(IO, BitsOf(bytes), 8 * i) == Done(obj.Image(), end)
    ensures IOAt(bytes, i, obj) && end == 8 * (i + 15)
  {
    hide Decode, Number, Pow2, ToBits;
    Pow2Of40();
    var v := obj.Image();
    var inner := BodyDecoded(IO, BitsOf(bytes), 8 * i, v, end);
    CountFirst(IO_FIELDS, bytes, i, v, inner, 5, obj.emitted);
    CountFirst(IO_FIELDS.rest, bytes, i + 5, v.rest, inner, 5, obj.received);
    CountFirst(IO_FIELDS.rest.rest, bytes, i + 10, v.rest.rest, inner, 5, obj.errored);
    EmptyDecoded(BitsOf(bytes), 8 * (i + 15), v.rest.rest.rest, inner);
  }

  /** It can always be read. */
  lemma IORead(b: seq<bool>, i: nat) returns (v: Value)
    ensures Decode(IO, b, 8 * i) == Done(v, 8 * (i + 15))
  {
    var r := Decode(IO_FIELDS, b, 8 * i);
    assert r.Done? && r.next == 8 * i + 120;
    v := r.value;
  }

  method SerializeIO(obj: IOStatistics, buf: array<bv8>, at: nat, capacity: nat) returns (r: Status, size: nat)
    requires at + capacity <= buf.Length
    modifies buf
    ensures Serialized(IO, obj.Image(), old(BitsOf(buf[..])), BitsOf(buf[..]), at, capacity, r, size)
    ensures r == (if capacity < 15 then BufferTooSmall else Ok) && (r == Ok ==> size == 15 && IOAt(buf[..], at, obj))
  {
    hide Ready, Runs, Serialized, MinEnd, MaxEnd, WellFormed, Decode, IOAt;
    IOExtent(0);
    if 8 * capacity < 120 {
      TooSmall(IO, obj.Image(), BitsOf(buf[..]), at, capacity);
      return BufferTooSmall, 0;
    }
    var off := 0;
    ghost var job, p := Begin(IO_FIELDS, obj.Image(), buf, at, capacity);
    off, p := IntegerField(buf, at, capacity, off, obj.emitted, 5, job, p);
    off, p := IntegerField(buf, at, capacity, off, obj.received, 5, job, p);
    off, p := IntegerField(buf, at, capacity, off, obj.errored, 5, job, p);
    r, size := Complete(IO_FIELDS, obj.Image(), buf, at, capacity, off, job, p);
    assert 8 * size == 120;
    IOWellFormed();
    WrittenDecodes(IO, obj.Image(), job.was, buf[..], at, capacity, size);
    IOPlaced(buf[..], at, obj, 8 * (at + size));
  }

  method DeserializeIO(bytes: seq<bv8>) returns (r: Status, obj: IOStatistics, size: nat)
    ensures r == Ok && Deserialized(IO, bytes, r, obj.Image(), size)
    ensures obj.InRange() && IOAt(bytes, 0, obj)
  {
    ghost var whole, c := ReadStart(IO_FIELDS, bytes);
    var off, emitted, received, errored := 0, 0, 0, 0;
    emitted, off, c := ReadInteger(bytes, off, 64, 40, whole, c);
    received, off, c := ReadInteger(bytes, off, 64, 40, whole, c);
    errored, off, c := ReadInteger(bytes, off, 64, 40, whole, c);
    obj := IOStatistics(emitted, received, errored);
    size := Conclude(bytes, off, IO_FIELDS, whole, c, obj.Image());
    r := Ok;
    ghost var end := ReadDecodes(IO, bytes, r, obj.Image(), size);
    IOPlaced(bytes, 0, obj, end);
  }

  // ---------------------------------------------------------------- uavcan.node.GetTransportStatistics.0.1, response

  const INTERFACES := List(8, IO, 3)
  const TRANSPORT_FIELDS := Then(IO, Then(INTERFACES, Empty))
  const TRANSPORT := Nested(TRANSPORT_FIELDS)

  function Images(s: seq<IOStatistics>): (vs: seq<Value>)
    ensures |vs| == |s| && forall i | 0 <= i < |s| :: vs[i] == s[i].Image()
  {
    seq(|s|, i requires 0 <= i < |s| => s[i].Image())
  }

  datatype Transport = Transport(transfers: IOStatistics, interfaces: seq<IOStatistics>) {
    predicate InRange() { transfers.InRange() && forall i | 0 <= i < |interfaces| :: interfaces[i].InRange() }

    function Image(): (v: Value)
      ensures Shape(TRANSPORT, v)
    {
      ChainFits(IO, Images(interfaces));
      var v := Pair(transfers.Image(), Pair(Chain(Images(interfaces)), Nothing));
      assert Shape(INTERFACES, v.rest.first);
      assert Shape(TRANSPORT_FIELDS, v);
      v
    }
  }

  /** The totals, the number of interfaces in byte 15, and one block of fifteen bytes for each of them. */
  predicate TransportAt(bytes: seq<bv8>, i: nat, obj: Transport) {
    && IOAt(bytes, i, obj.transfers) && Number(bytes, i + 15, 1) == |obj.interfaces| <= 3
    && forall k | 0 <= k < |obj.interfaces| :: IOAt(bytes, i + 16 + 15 * k, obj.interfaces[k])
  }

  lemma TransportWellFormed()
    ensures WellFormed(TRANSPORT)
  {
    Pow2Of8();
    IOWellFormed();
    assert WellFormed(INTERFACES);
    assert WellFormed(TRANSPORT_FIELDS);
  }

  lemma {:induction false} IOListPlaced(bytes: seq<bv8>, i: nat, s: seq<IOStatistics>, n: nat, end: nat)
    requires DecodeList(Decoder(IO), n, BitsOf(bytes), 8 * i) == Done(Chain(Images(s)), end)
    ensures n == |s| && forall k | 0 <= k < n :: IOAt(bytes, i + 15 * k, s[k])
    decreases n
  {
    hide Decode, IOAt, BitsOf, Number;
    if n > 0 {
      var r := Decode(IO, BitsOf(bytes), 8 * i);
      assert Decoder(IO)(BitsOf(bytes), 8 * i) == r;
      IOPlaced(bytes, i, s[0], r.next);
      assert Images(s)[1..] == Images(s[1..]);
      IOListPlaced(bytes, i + 15, s[1..], n - 1, end);
      forall k | 0 <= k < n
        ensures IOAt(bytes, i + 15 * k, s[k])
      {
        if k > 0 {
          assert IOAt(bytes, i + 15 + 15 * (k - 1), s[1..][k - 1]);
          assert i + 15 + 15 * (k - 1) == i + 15 * k;
        }
      }
    }
  }

  lemma {:induction false} IOListRead(b: seq<bool>, i: nat, n: nat) returns (v: Value)
    ensures DecodeList(Decoder(IO), n, b, 8 * i) == Done(v, 8 * (i + 15 * n))
    decreases n
  {
    hide Decode;
    if n == 0 {
      v := Nothing;
    } else {
      var first := IORead(b, i);
      assert Decoder(IO)(b, 8 * i) == Done(first, 8 * (i + 15));
      var rest := IOListRead(b, i + 15, n - 1);
      v := Pair(first, rest);
    }
  }

  lemma TransportPlaced(bytes: seq<bv8>, i: nat, obj: Transport, end: nat)
    requires Decode(TRANSPORT, BitsOf(bytes), 8 * i) == Done(obj.Image(), end)
    ensures TransportAt(bytes, i, obj)
  {
    hide Decode, IOAt, Number;
    var b, v := BitsOf(bytes), obj.Image();
    var inner := BodyDecoded(TRANSPORT, b, 8 * i, v, end);
    var mid := FirstDecoded(TRANSPORT_FIELDS, b, 8 * i, v, inner);
    IOPlaced(bytes, i, obj.transfers, mid);
    mid := FirstDecoded(TRANSPORT_FIELDS.rest, b, 8 * (i + 15), v.rest, inner);
    InterfacesPlaced(bytes, i + 15, obj.interfaces, mid);
    forall k | 0 <= k < |obj.interfaces|
      ensures IOAt(bytes, i + 16 + 15 * k, obj.interfaces[k])
    {
      assert IOAt(bytes, i + 15 + 1 + 15 * k, obj.interfaces[k]);
    }
  }

  lemma InterfacesPlaced(bytes: seq<bv8>, i: nat, s: seq<IOStatistics>, end: nat)
    requires Decode(INTERFACES, BitsOf(bytes), 8 * i) == Done(Chain(Images(s)), end)
    ensures Number(bytes, i, 1) == |s| <= 3 && forall k | 0 <= k < |s| :: IOAt(bytes, i + 1 + 15 * k, s[k])
  {
    hide Decode, IOAt, DecodeList, Chain, Images;
    var n := Number(bytes, i, 1);
    ListDecoded(INTERFACES, BitsOf(bytes), 8 * i, n);
    IOListPlaced(bytes, i + 1, s, n, end);
  }

  lemma TransportVerdict(bytes: seq<bv8>)
    ensures Verdict(TRANSPORT, BitsOf(bytes), 0) == if Number(bytes, 15, 1) > 3 then BadArrayLength else Ok
  {
    hide Decode, Verdict;
    var b, n := BitsOf(bytes), Number(bytes, 15, 1);
    BodyVerdict(TRANSPORT, b, 0);
    FirstVerdict(TRANSPORT_FIELDS, b, 0);
    var v := IORead(b, 0);
    FirstVerdict(TRANSPORT_FIELDS.rest, b, 120);
    ListDecoded(INTERFACES, b, 120, n);
    v := IOListRead(b, 16, n);
    EmptyVerdict(b, 8 * (16 + 15 * n));
  }

  lemma TransportValidated(obj: Transport)
    ensures Validate(TRANSPORT, obj.Image()) == if |obj.interfaces| > 3 then BadArrayLength else Ok
  {
    var v, vs := obj.Image(), Images(obj.interfaces);
    ChainFits(IO, vs);
    FitsIffValid(IO, obj.transfers.Image());
    assert Validate(INTERFACES, Chain(vs)) == if |vs| > 3 then BadArrayLength else Ok;
    assert Validate(TRANSPORT_FIELDS.rest, v.rest) == if |vs| > 3 then BadArrayLength else Ok;
  }

  /** What the contract of the serializer says about the bytes. */
  lemma TransportWritten(obj: Transport, was: seq<bool>, bytes: seq<bv8>, at: nat, capacity: nat, r: Status, size: nat)
    requires Serialized(TRANSPORT, obj.Image(), was, BitsOf(bytes), at, capacity, r, size)
    ensures r == if capacity < 61 then BufferTooSmall else if |obj.interfaces| > 3 then BadArrayLength else Ok
    ensures r == Ok ==> TransportAt(bytes, at, obj)
  {
    hide Serialized, Decode, Validate, WellFormed, MaxEnd, TransportAt;
    TransportExtent();
    TransportValidated(obj);
    WrittenVerdict(TRANSPORT, obj.Image(), was, BitsOf(bytes), at, capacity, r, size);
    if r == Ok {
      TransportWellFormed();
      WrittenDecodes(TRANSPORT, obj.Image(), was, bytes, at, capacity, size);
      TransportPlaced(bytes, at, obj, 8 * (at + size));
    }
  }

  lemma TransportExtent()
    ensures MinEnd(TRANSPORT, 0) == 128 && MaxEnd(TRANSPORT, 0) == 488
  {
    IOExtent(0);
    IOExtent(128);
    IOExtent(248);
    IOExtent(368);
    InterfacesExtent();
    ThenExtent(TRANSPORT_FIELDS.rest, 120, 128, 128, 120, 488, 488);
    ThenExtent(TRANSPORT_FIELDS, 0, 120, 128, 0, 120, 488);
    NestedExtent(TRANSPORT_FIELDS, 128, 488);
  }

  lemma InterfacesExtent()
    ensures MinEnd(INTERFACES, 120) == 128 && MaxEnd(INTERFACES, 120) == 488
  {
    IOExtent(128);
    IOExtent(248);
    IOExtent(368);
    assert MaxEnds(IO, 0, 488) == 488;
    assert MaxEnds(IO, 1, 368) == 488;
    assert MaxEnds(IO, 2, 248) == 488;
    assert MaxEnds(IO, 3, 128) == 488;
  }

  /** One turn of the serializer's loop. */
  method PutIO(buf: array<bv8>, at: nat, capacity: nat, off: nat, obj: IOStatistics,
    ghost was: seq<bool>, ghost done: seq<bool>)
    returns (r: Status, next: nat)
    requires at + capacity <= buf.Length && off == |done| && off % 8 == 0 && off + 120 <= 8 * capacity
    requires Wrote(BitsOf(buf[..]), was, at, done)
    modifies buf
    ensures r == Ok && next == off + 120 && |Encode(IO, obj.Image(), 0)| == 120 && next % 8 == 0
    ensures Wrote(BitsOf(buf[..]), was, at, done + Encode(IO, obj.Image(), 0))
  {
    hide Encode, MinEnd, IOAt, Number;
    ghost var mid := BitsOf(buf[..]);
    var size;
    r, size := SerializeIO(obj, buf, at + off / 8, 15);
    IOExtent(0);
    NestedWritten(IO, obj.Image(), was, mid, BitsOf(buf[..]), at, done, off, 15, size);
    next := off + 8 * size;
    WholeSum(off, 120, 0);
  }

  /** The loop over the interfaces, after the length prefix. */
  method PutInterfaces(buf: array<bv8>, at: nat, capacity: nat, off: nat, s: seq<IOStatistics>,
    ghost was: seq<bool>, ghost done: seq<bool>, ghost x: seq<bool>) returns (r: Status, next: nat)
    requires at + capacity <= buf.Length && off == |done| && off % 8 == 0 && off + 368 <= 8 * capacity && |s| <= 3
    requires Wrote(BitsOf(buf[..]), was, at, done + ToBits(|s|, 8))
    requires ListEmitted(x, Encoder(IO), Images(s), 0, ToBits(|s|, 8), off)
    modifies buf
    ensures r == Ok && next == off + 8 + 120 * |s| && Wrote(BitsOf(buf[..]), was, at, done + x) && |x| == 8 + 120 * |s|
  {
    ghost var vs, sofar := Images(s), ToBits(|s|, 8);
    r, next := Ok, off + 8;
    WholeSum(off, 8, 0);
    var i := 0;
    while i < |s|
      invariant i <= |s| && next == off + |sofar| && next % 8 == 0 && r == Ok
      invariant |sofar| == 8 + 120 * i
      invariant Wrote(BitsOf(buf[..]), was, at, done + sofar)
      invariant ListEmitted(x, Encoder(IO), vs, i, sofar, off)
    {
      ghost var y := ElementStep(x, IO, vs, i, sofar, off, next);
      Associative(done, sofar, y);
      r, next := PutIO(buf, at, capacity, next, s[i], was, done + sofar);
      sofar := sofar + y;
      i := i + 1;
    }
    ListDone(x, Encoder(IO), vs, sofar, off);
  }

  method InterfacesField(buf: array<bv8>, at: nat, capacity: nat, off: nat, s: seq<IOStatistics>,
    ghost job: Job, ghost p: Point)
    returns (r: Status, next: nat, ghost q: Point)
    requires Ready(buf, at, capacity, off, job, p) && off % 8 == 0
    requires Next(p, INTERFACES, Chain(Images(s)), off, 368, capacity)
    modifies buf
    ensures r != Ok ==> Failed(buf, at, capacity, job, r)
    ensures r == Ok ==> Ready(buf, at, capacity, next, job, q) && Past(q, p) && next == off + 8 + 120 * |s| && |s| <= 3
  {
    q := p;
    ghost var vs := Images(s);
    ChainFits(IO, vs);
    if |s| > 3 {
      WroteConfined(BitsOf(buf[..]), job.was, at, p.done, capacity);
      assert Validate(INTERFACES, Chain(vs)) == BadArrayLength;
      RefusedField(job.verdict, job.all, p);
      return BadArrayLength, off, q;
    }
    assert Validate(INTERFACES, Chain(vs)) == Ok;
    ghost var x := ListStart(INTERFACES, vs, off);
    PutByte(buf, at, off, |s|, job.was, p.done);
    r, next := PutInterfaces(buf, at, capacity, off, s, job.was, p.done, x);
    q := EmitField(job.all, job.verdict, p, x);
  }

  method IOField(buf: array<bv8>, at: nat, capacity: nat, off: nat, obj: IOStatistics, ghost job: Job, ghost p: Point)
    returns (r: Status, next: nat, ghost q: Point)
    requires Ready(buf, at, capacity, off, job, p) && off % 8 == 0
    requires Next(p, IO, obj.Image(), off, 120, capacity)
    modifies buf
    ensures r == Ok && Ready(buf, at, capacity, next, job, q) && Past(q, p) && next == off + 120 && next % 8 == 0
  {
    r, next := PutIO(buf, at, capacity, off, obj, job.was, p.done);
    EncodeAnywhere(IO, obj.Image(), 0, |p.done|);
    q := EmitField(job.all, job.verdict, p, Encode(IO, obj.Image(), 0));
  }

  method SerializeTransport(obj: Transport, buf: array<bv8>, at: nat, capacity: nat) returns (r: Status, size: nat)
    requires at + capacity <= buf.Length
    modifies buf
    ensures Serialized(TRANSPORT, obj.Image(), old(BitsOf(buf[..])), BitsOf(buf[..]), at, capacity, r, size)
    ensures r == if capacity < 61 then BufferTooSmall else if |obj.interfaces| > 3 then BadArrayLength else Ok
    ensures r == Ok ==> size == 16 + 15 * |obj.interfaces| <= 61 && TransportAt(buf[..], at, obj)
  {
    ghost var was := BitsOf(buf[..]);
    r, size := EmitTransport(obj, buf, at, capacity);
    TransportWritten(obj, was, buf[..], at, capacity, r, size);
  }

  method EmitTransport(obj: Transport, buf: array<bv8>, at: nat, capacity: nat) returns (r: Status, size: nat)
    requires at + capacity <= buf.Length
    modifies buf
    ensures Serialized(TRANSPORT, obj.Image(), old(BitsOf(buf[..])), BitsOf(buf[..]), at, capacity, r, size)
    ensures r == Ok ==> size == 16 + 15 * |obj.interfaces| <= 61
  {
    TransportExtent();
    ghost var v := obj.Image();
    if 8 * capacity < 488 {
      return BufferTooSmall, 0;
    }
    var off := 0;
    ghost var job, p := Begin(TRANSPORT_FIELDS, v, buf, at, capacity);
    r, off, p := IOField(buf, at, capacity, off, obj.transfers, job, p);
    r, off, p := InterfacesField(buf, at, capacity, off, obj.interfaces, job, p);
    if r != Ok {
      Refused(TRANSPORT_FIELDS, v, buf, at, capacity, job, r);
      return r, 0;
    }
    r, size := Complete(TRANSPORT_FIELDS, v, buf, at, capacity, off, job, p);
  }

  /** One turn of the deserializer's loop. */
  method TakeIO(bytes: seq<bv8>, off: nat, ghost whole: Result, ghost vs: seq<Value>, ghost n: nat, ghost left: nat,
    ghost ref: nat) returns (r: Status, obj: IOStatistics, next: nat, ghost mark: nat)
    requires off % 8 == 0 && Tracks(8 * |bytes|, off, ref) && n == left + 1
    requires ListReading(whole, IO, BitsOf(bytes), vs, n, ref)
    ensures r == Ok && obj.InRange() && next % 8 == 0 && Tracks(8 * |bytes|, next, mark)
    ensures ListReading(whole, IO, BitsOf(bytes), vs + [obj.Image()], left, mark)
  {
    var size;
    r, obj, size := DeserializeIO(Rest(bytes, off));
    next := off + 8 * size;
    mark := ElementTaken(bytes, off, whole, IO, vs, n, left, ref, obj.Image(), size, next);
  }

  /** The loop, after the length prefix. */
  method TakeInterfaces(bytes: seq<bv8>, off: nat, count: nat, ghost whole: Result, ghost ref: nat)
    returns (r: Status, s: seq<IOStatistics>, next: nat, ghost mark: nat)
    requires off % 8 == 0 && Tracks(8 * |bytes|, off, ref) && ListReading(whole, IO, BitsOf(bytes), [], count, ref)
    ensures r == Ok && |s| == count && next % 8 == 0 && Tracks(8 * |bytes|, next, mark)
    ensures whole == Done(Chain(Images(s)), mark) && forall i | 0 <= i < |s| :: s[i].InRange()
  {
    r, s, next, mark := Ok, [], off, ref;
    ghost var vs: seq<Value>, left := [], count;
    var i := 0;
    while i < count
      invariant i == |s| <= count && vs == Images(s) && r == Ok && forall j | 0 <= j < i :: s[j].InRange()
      invariant next % 8 == 0 && Tracks(8 * |bytes|, next, mark)
      invariant ListReading(whole, IO, BitsOf(bytes), vs, left, mark) && left == count - i
    {
      var obj;
      ghost var fewer := left - 1;
      r, obj, next, mark := TakeIO(bytes, next, whole, vs, left, fewer, mark);
      ImagesStep(s, obj);
      s, vs, i, left := s + [obj], vs + [obj.Image()], i + 1, fewer;
    }
    ListFinished(whole, IO, BitsOf(bytes), vs, mark);
  }

  lemma ImagesStep(s: seq<IOStatistics>, obj: IOStatistics)
    ensures Images(s + [obj]) == Images(s) + [obj.Image()]
  {
  }

  method ReadInterfaces(bytes: seq<bv8>, off: nat, ghost whole: Result, ghost c: Cursor)
    returns (r: Status, s: seq<IOStatistics>, next: nat, ghost d: Cursor)
    requires Reading(whole, bytes, off, c) && c.t.Then? && c.t.first == INTERFACES && off % 8 == 0
    ensures r == Ok ==> Reading(whole, bytes, next, d) && After(d, c, Chain(Images(s))) && |s| <= 3
    ensures r == Ok ==> forall i | 0 <= i < |s| :: s[i].InRange()
    ensures r != Ok ==> whole == Fail(r)
  {
    d := c;
    ghost var b := BitsOf(bytes);
    var count := TakeCount(bytes, off, 8);
    next := off + 8;
    ghost var mark := c.ref + 8;
    ghost var list := ListHead(bytes, off, INTERFACES, c.ref, count, next, mark);
    if count > 3 {
      assert Open(0);
      Stuck(whole, b, c, BadArrayLength);
      return BadArrayLength, [], next, d;
    }
    WholeSum(off, 8, 0);
    r, s, next, mark := TakeInterfaces(bytes, next, count, list, mark);
    assert Open(0);
    d := Stepped(whole, b, c, Chain(Images(s)), mark);
  }

  method ReadIO(bytes: seq<bv8>, off: nat, ghost whole: Result, ghost c: Cursor)
    returns (r: Status, obj: IOStatistics, next: nat, ghost d: Cursor)
    requires Reading(whole, bytes, off, c) && c.t.Then? && c.t.first == IO && off % 8 == 0
    ensures r == Ok && obj.InRange() && Reading(whole, bytes, next, d) && After(d, c, obj.Image()) && next % 8 == 0
  {
    var size;
    r, obj, size := DeserializeIO(Rest(bytes, off));
    next := off + 8 * size;
    d := NestedTaken(whole, bytes, off, c, r, obj.Image(), size, next);
  }

  method DeserializeTransport(bytes: seq<bv8>) returns (r: Status, obj: Option<Transport>, size: nat)
    ensures r == Ok <==> obj.Some?
    ensures Deserialized(TRANSPORT, bytes, r, if r == Ok then obj.value.Image() else Nothing, size)
    ensures r == if Number(bytes, 15, 1) > 3 then BadArrayLength else Ok
    ensures r == Ok ==> obj.value.InRange() && TransportAt(bytes, 0, obj.value)
  {
    r, obj, size := FetchTransport(bytes);
    TransportVerdict(bytes);
    ghost var end := ReadDecodes(TRANSPORT, bytes, r, if r == Ok then obj.value.Image() else Nothing, size);
    if r == Ok {
      TransportPlaced(bytes, 0, obj.value, end);
    }
  }

  method FetchTransport(bytes: seq<bv8>) returns (r: Status, obj: Option<Transport>, size: nat)
    ensures r == Ok <==> obj.Some?
    ensures r == Ok ==> obj.value.InRange()
    ensures Deserialized(TRANSPORT, bytes, r, if r == Ok then obj.value.Image() else Nothing, size)
  {
    obj := None;
    ghost var whole, c := ReadStart(TRANSPORT_FIELDS, bytes);
    var off := 0;
    var transfers, interfaces;
    r, transfers, off, c := ReadIO(bytes, off, whole, c);
    r, interfaces, off, c := ReadInterfaces(bytes, off, whole, c);
    if r != Ok {
      Rejected(TRANSPORT_FIELDS, bytes, whole, r, Nothing);
      return r, obj, 0;
    }
    obj := Some(Transport(transfers, interfaces));
    size := Conclude(bytes, off, TRANSPORT_FIELDS, whole, c, obj.value.Image());
  }
}
