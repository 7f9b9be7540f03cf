/** uavcan.node.ID.1.0 and uavcan.pnp.NodeIDAllocationData.1.0: a truncated 48-bit hash and an optional nested identifier,
    written and read by loops. */
module Pnp {
  import opened Bits
  import opened Serialization
  import opened Dsdl
  import opened Sizes
  import opened Codec
  import opened Layout

  type u16 = n: nat | n < 0x1_0000

  // ---------------------------------------------------------------- uavcan.node.ID.1.0

  const ID_FIELDS := Then(Field(16), Empty)
  const ID := Nested(ID_FIELDS)

  function IdImage(id: u16): (v: Value)
    ensures Fits(ID, v) && Shape(ID, v)
  {
    Pair(Plain(ToBits(id, 16)), Nothing)
  }

  lemma IdExtent(off: nat)
    requires off % 8 == 0
    ensures MinEnd(ID, off) == off + 16 == MaxEnd(ID, off)
  {
    assert MinEnd(ID_FIELDS, off) == off + 16 == MaxEnd(ID_FIELDS, off);
  }

  lemma IdWellFormed()
    ensures WellFormed(ID)
  {
    assert WellFormed(ID_FIELDS);
  }

  lemma IdPlaced(bytes: seq<bv8>, i: nat, id: u16, end: nat)
    requires Decode(ID, BitsOf(bytes), 8 * i) == Done(IdImage(id), end)
    ensures Number(bytes, i, 2) == id && end == 8 * (i + 2)
  {
    hide Decode, Number, Pow2, ToBits;
    NativePowers();
    var inner := BodyDecoded(ID, BitsOf(bytes), 8 * i, IdImage(id), end);
    WholeFirst(ID_FIELDS, bytes, i, IdImage(id), inner, 2, id);
    EmptyDecoded(BitsOf(bytes), 8 * (i + 2), IdImage(id).rest, inner);
  }

  /** It can always be read. */
  lemma IdRead(b: seq<bool>, i: nat) returns (v: Value)
    ensures Decode(ID, b, 8 * i) == Done(v, 8 * (i + 2))
  {
    var r := Decode(ID_FIELDS, b, 8 * i);
    assert r.Done? && r.next == 8 * i + 16;
    v := r.value;
  }

  method SerializeId(id: u16, buf: array<bv8>, at: nat, capacity: nat) returns (r: Status, size: nat)
    requires at + capacity <= buf.Length
    modifies buf
    ensures Serialized(ID, IdImage(id), old(BitsOf(buf[..])), BitsOf(buf[..]), at, capacity, r, size)
    ensures r == (if capacity < 2 then BufferTooSmall else Ok) && (r == Ok ==> Number(buf[..], at, 2) == id)
  {
    hide Ready, Runs, Serialized, MinEnd, MaxEnd, WellFormed, Decode, Number;
    IdExtent(0);
    if 8 * capacity < 16 {
      TooSmall(ID, IdImage(id), BitsOf(buf[..]), at, capacity);
      return BufferTooSmall, 0;
    }
    var off := 0;
    ghost var job, p := Begin(ID_FIELDS, IdImage(id), buf, at, capacity);
    off, p := IntegerField(buf, at, capacity, off, id, 2, job, p);
    r, size := Complete(ID_FIELDS, IdImage(id), buf, at, capacity, off, job, p);
    IdWellFormed();
    WrittenDecodes(ID, IdImage(id), job.was, buf[..], at, capacity, size);
    IdPlaced(buf[..], at, id, 8 * (at + size));
  }

  method DeserializeId(bytes: seq<bv8>) returns (r: Status, id: u16, size: nat)
    ensures r == Ok && Deserialized(ID, bytes, r, IdImage(id), size) && id == Number(bytes, 0, 2)
  {
    ghost var whole, c := ReadStart(ID_FIELDS, bytes);
    var off := 0;
    id, off, c := ReadInteger(bytes, off, 16, 16, whole, c);
    size := Conclude(bytes, off, ID_FIELDS, whole, c, IdImage(id));
    r := Ok;
    ghost var end := ReadDecodes(ID, bytes, r, IdImage(id), size);
    IdPlaced(bytes, 0, id, end);
  }

  // ---------------------------------------------------------------- uavcan.pnp.NodeIDAllocationData.1.0

  const IDS := List(8, ID, 1)
  const ALLOCATION_FIELDS := Then(Field(48), Then(IDS, Empty))
  const ALLOCATION := Nested(ALLOCATION_FIELDS)

  function Images(s: seq<u16>): (vs: seq<Value>)
    ensures |vs| == |s| && forall i | 0 <= i < |s| :: vs[i] == IdImage(s[i])
  {
    seq(|s|, i requires 0 <= i < |s| => IdImage(s[i]))
  }

  datatype Allocation = Allocation(uniqueIdHash: u64, ids: seq<u16>) {
    function Image(): (v: Value)
      ensures Shape(ALLOCATION, v)
    {
      ChainFits(ID, Images(ids));
      var v := Pair(Plain(ToBits(uniqueIdHash, 48)), Pair(Chain(Images(ids)), Nothing));
      assert Shape(IDS, v.rest.first);
      assert Shape(ALLOCATION_FIELDS, v);
      v
    }
  }

  /** The truncated hash in six bytes, the number of identifiers in byte 6, and two bytes for each of them. */
  predicate AllocationAt(bytes: seq<bv8>, i: nat, obj: Allocation) {
    && Number(bytes, i, 6) == obj.uniqueIdHash % 0x1_0000_0000_0000 && Number(bytes, i + 6, 1) == |obj.ids| <= 1
    && forall k | 0 <= k < |obj.ids| :: Number(bytes, i + 7 + 2 * k, 2) == obj.ids[k]
  }

  lemma AllocationWellFormed()
    ensures WellFormed(ALLOCATION)
  {
    Pow2Of8();
    IdWellFormed();
    assert WellFormed(IDS);
    assert WellFormed(ALLOCATION_FIELDS);
  }

  lemma {:induction false} IdListPlaced(bytes: seq<bv8>, i: nat, s: seq<u16>, n: nat, end: nat)
    requires DecodeList(Decoder(ID), n, BitsOf(bytes), 8 * i) == Done(Chain(Images(s)), end)
    ensures n == |s| && forall k | 0 <= k < n :: Number(bytes, i + 2 * k, 2) == s[k]
    decreases n
  {
    hide Decode, BitsOf, Number;
    if n > 0 {
      var r := Decode(ID, BitsOf(bytes), 8 * i);
      assert Decoder(ID)(BitsOf(bytes), 8 * i) == r;
      IdPlaced(bytes, i, s[0], r.next);
      assert Images(s)[1..] == Images(s[1..]);
      IdListPlaced(bytes, i + 2, s[1..], n - 1, end);
      forall k | 0 <= k < n
        ensures Number(bytes, i + 2 * k, 2) == s[k]
      {
        if k > 0 {
          assert Number(bytes, i + 2 + 2 * (k - 1), 2) == s[1..][k - 1];
          assert i + 2 + 2 * (k - 1) == i + 2 * k;
        }
      }
    }
  }

  lemma {:induction false} IdListRead(b: seq<bool>, i: nat, n: nat) returns (v: Value)
    ensures DecodeList(Decoder(ID), n, b, 8 * i) == Done(v, 8 * (i + 2 * n))
    decreases n
  {
    hide Decode;
    if n == 0 {
      v := Nothing;
    } else {
      var first := IdRead(b, i);
      assert Decoder(ID)(b, 8 * i) == Done(first, 8 * (i + 2));
      var rest := IdListRead(b, i + 2, n - 1);
      v := Pair(first, rest);
    }
  }

  lemma IdsPlaced(bytes: seq<bv8>, i: nat, s: seq<u16>, end: nat)
    requires Decode(IDS, BitsOf(bytes), 8 * i) == Done(Chain(Images(s)), end)
    ensures Number(bytes, i, 1) == |s| <= 1 && forall k | 0 <= k < |s| :: Number(bytes, i + 1 + 2 * k, 2) == s[k]
  {
    hide Decode, DecodeList, Chain, Images;
    var n := Number(bytes, i, 1);
    ListDecoded(IDS, BitsOf(bytes), 8 * i, n);
    IdListPlaced(bytes, i + 1, s, n, end);
  }

  lemma AllocationPlaced(bytes: seq<bv8>, i: nat, obj: Allocation, end: nat)
    requires Decode(ALLOCATION, BitsOf(bytes), 8 * i) == Done(obj.Image(), end)
    ensures AllocationAt(bytes, i, obj)
  {
    hide Decode, Number, Pow2, ToBits;
    Pow2Of40();
    var b, v := BitsOf(bytes), obj.Image();
    var inner := BodyDecoded(ALLOCATION, b, 8 * i, v, end);
    CountFirst(ALLOCATION_FIELDS, bytes, i, v, inner, 6, obj.uniqueIdHash);
    var mid := FirstDecoded(ALLOCATION_FIELDS.rest, b, 8 * (i + 6), v.rest, inner);
    IdsPlaced(bytes, i + 6, obj.ids, mid);
    forall k | 0 <= k < |obj.ids|
      ensures Number(bytes, i + 7 + 2 * k, 2) == obj.ids[k]
    {
      assert Number(bytes, i + 6 + 1 + 2 * k, 2) == obj.ids[k];
    }
  }

  lemma AllocationVerdict(bytes: seq<bv8>)
    ensures Verdict(ALLOCATION, BitsOf(bytes), 0) == if Number(bytes, 6, 1) > 1 then BadArrayLength else Ok
  {
    hide Decode, Verdict;
    var b, n := BitsOf(bytes), Number(bytes, 6, 1);
    BodyVerdict(ALLOCATION, b, 0);
    FieldVerdict(ALLOCATION_FIELDS, b, 0, 48);
    FirstVerdict(ALLOCATION_FIELDS.rest, b, 48);
    ListDecoded(IDS, b, 48, n);
    var v := IdListRead(b, 7, n);
    EmptyVerdict(b, 8 * (7 + 2 * n));
  }

  lemma AllocationValidated(obj: Allocation)
    ensures Validate(ALLOCATION, obj.Image()) == if |obj.ids| > 1 then BadArrayLength else Ok
  {
    var v, vs := obj.Image(), Images(obj.ids);
    ChainFits(ID, vs);
    assert Validate(IDS, Chain(vs)) == if |vs| > 1 then BadArrayLength else Ok;
    assert Validate(ALLOCATION_FIELDS.rest, v.rest) == if |vs| > 1 then BadArrayLength else Ok;
  }

  /** What the contract of the serializer says about the bytes. */
  lemma AllocationWritten(obj: Allocation, was: seq<bool>, bytes: seq<bv8>, at: nat, capacity: nat, r: Status, size: nat)
    requires Serialized(ALLOCATION, obj.Image(), was, BitsOf(bytes), at, capacity, r, size)
    ensures r == if capacity < 9 then BufferTooSmall else if |obj.ids| > 1 then BadArrayLength else Ok
    ensures r == Ok ==> AllocationAt(bytes, at, obj)
  {
    hide Serialized, Decode, Validate, WellFormed, MaxEnd, AllocationAt;
    AllocationExtent();
    AllocationValidated(obj);
    WrittenVerdict(ALLOCATION, obj.Image(), was, BitsOf(bytes), at, capacity, r, size);
    if r == Ok {
      AllocationWellFormed();
      WrittenDecodes(ALLOCATION, obj.Image(), was, bytes, at, capacity, size);
      AllocationPlaced(bytes, at, obj, 8 * (at + size));
    }
  }

  lemma AllocationExtent()
    ensures MinEnd(ALLOCATION, 0) == 56 && MaxEnd(ALLOCATION, 0) == 72
  {
    IdExtent(56);
    assert MaxEnds(ID, 0, 72) == 72;
    assert MaxEnds(ID, 1, 56) == 72;
    ThenExtent(ALLOCATION_FIELDS.rest, 48, 56, 56, 48, 72, 72);
    ThenExtent(ALLOCATION_FIELDS, 0, 48, 56, 0, 48, 72);
    NestedExtent(ALLOCATION_FIELDS, 56, 72);
  }

  method PutId(buf: array<bv8>, at: nat, capacity: nat, off: nat, id: u16, ghost was: seq<bool>, ghost done: seq<bool>)
    returns (r: Status, next: nat)
    requires at + capacity <= buf.Length && off == |done| && off % 8 == 0 && off + 16 <= 8 * capacity
    requires Wrote(BitsOf(buf[..]), was, at, done)
    modifies buf
    ensures r == Ok && next == off + 16 && |Encode(ID, IdImage(id), 0)| == 16 && next % 8 == 0
    ensures Wrote(BitsOf(buf[..]), was, at, done + Encode(ID, IdImage(id), 0))
  {
    ghost var mid := BitsOf(buf[..]);
    var size;
    r, size := SerializeId(id, buf, at + off / 8, 2);
    IdExtent(0);
    NestedWritten(ID, IdImage(id), was, mid, BitsOf(buf[..]), at, done, off, 2, size);
    next := off + 8 * size;
    WholeSum(off, 16, 0);
  }

  /** The loop over the identifiers, after the length prefix. */
  method PutIds(buf: array<bv8>, at: nat, capacity: nat, off: nat, s: seq<u16>,
    ghost was: seq<bool>, ghost done: seq<bool>, ghost x: seq<bool>) returns (r: Status, next: nat)
    requires at + capacity <= buf.Length && off == |done| && off % 8 == 0 && off + 24 <= 8 * capacity && |s| <= 1
    requires Wrote(BitsOf(buf[..]), was, at, done + ToBits(|s|, 8))
    requires ListEmitted(x, Encoder(ID), Images(s), 0, ToBits(|s|, 8), off)
    modifies buf
    ensures r == Ok && next == off + 8 + 16 * |s| && Wrote(BitsOf(buf[..]), was, at, done + x) && |x| == 8 + 16 * |s|
  {
    ghost var vs, sofar := Images(s), ToBits(|s|, 8);
    r, next := Ok, off + 8;
    WholeSum(off, 8, 0);
    var i := 0;
    while i < |s|
      invariant i <= |s| && next == off + |sofar| && next % 8 == 0 && r == Ok
      invariant |sofar| == 8 + 16 * i
      invariant Wrote(BitsOf(buf[..]), was, at, done + sofar)
      invariant ListEmitted(x, Encoder(ID), vs, i, sofar, off)
    {
      ghost var y := ElementStep(x, ID, vs, i, sofar, off, next);
      Associative(done, sofar, y);
      r, next := PutId(buf, at, capacity, next, s[i], was, done + sofar);
      sofar := sofar + y;
      i := i + 1;
    }
    ListDone(x, Encoder(ID), vs, sofar, off);
  }

  method IdsField(buf: array<bv8>, at: nat, capacity: nat, off: nat, s: seq<u16>, ghost job: Job, ghost p: Point)
    returns (r: Status, next: nat, ghost q: Point)
    requires Ready(buf, at, capacity, off, job, p) && off % 8 == 0
    requires Next(p, IDS, Chain(Images(s)), off, 24, capacity)
    modifies buf
    ensures r != Ok ==> Failed(buf, at, capacity, job, r)
    ensures r == Ok ==> Ready(buf, at, capacity, next, job, q) && Past(q, p) && next == off + 8 + 16 * |s| && |s| <= 1
  {
    q := p;
    ghost var vs := Images(s);
    ChainFits(ID, vs);
    if |s| > 1 {
      WroteConfined(BitsOf(buf[..]), job.was, at, p.done, capacity);
      assert Validate(IDS, Chain(vs)) == BadArrayLength;
      RefusedField(job.verdict, job.all, p);
      return BadArrayLength, off, q;
    }
    assert Validate(IDS, Chain(vs)) == Ok;
    ghost var x := ListStart(IDS, vs, off);
    PutByte(buf, at, off, |s|, job.was, p.done);
    r, next := PutIds(buf, at, capacity, off, s, job.was, p.done, x);
    q := EmitField(job.all, job.verdict, p, x);
  }

  method SerializeAllocation(obj: Allocation, buf: array<bv8>, at: nat, capacity: nat) returns (r: Status, size: nat)
    requires at + capacity <= buf.Length
    modifies buf
    ensures Serialized(ALLOCATION, obj.Image(), old(BitsOf(buf[..])), BitsOf(buf[..]), at, capacity, r, size)
    ensures r == if capacity < 9 then BufferTooSmall else if |obj.ids| > 1 then BadArrayLength else Ok
    ensures r == Ok ==> size == 7 + 2 * |obj.ids| <= 9 && AllocationAt(buf[..], at, obj)
  {
    ghost var was := BitsOf(buf[..]);
    r, size := EmitAllocation(obj, buf, at, capacity);
    AllocationWritten(obj, was, buf[..], at, capacity, r, size);
  }

  method EmitAllocation(obj: Allocation, buf: array<bv8>, at: nat, capacity: nat) returns (r: Status, size: nat)
    requires at + capacity <= buf.Length
    modifies buf
    ensures Serialized(ALLOCATION, obj.Image(), old(BitsOf(buf[..])), BitsOf(buf[..]), at, capacity, r, size)
    ensures r == Ok ==> size == 7 + 2 * |obj.ids| <= 9
  {
    AllocationExtent();
    ghost var v := obj.Image();
    if 8 * capacity < 72 {
      return BufferTooSmall, 0;
    }
    var off := 0;
    ghost var job, p := Begin(ALLOCATION_FIELDS, v, buf, at, capacity);
    off, p := IntegerField(buf, at, capacity, off, obj.uniqueIdHash, 6, job, p);
    r, off, p := IdsField(buf, at, capacity, off, obj.ids, job, p);
    if r != Ok {
      Refused(ALLOCATION_FIELDS, v, buf, at, capacity, job, r);
      return r, 0;
    }
    r, size := Complete(ALLOCATION_FIELDS, v, buf, at, capacity, off, job, p);
  }

  method TakeId(bytes: seq<bv8>, off: nat, ghost whole: Result, ghost vs: seq<Value>, ghost n: nat, ghost left: nat,
    ghost ref: nat) returns (r: Status, id: u16, next: nat, ghost mark: nat)
    requires off % 8 == 0 && Tracks(8 * |bytes|, off, ref) && n == left + 1
    requires ListReading(whole, ID, BitsOf(bytes), vs, n, ref)
    ensures r == Ok && next % 8 == 0 && Tracks(8 * |bytes|, next, mark)
    ensures ListReading(whole, ID, BitsOf(bytes), vs + [IdImage(id)], left, mark)
  {
    var size;
    r, id, size := DeserializeId(Rest(bytes, off));
    next := off + 8 * size;
    mark := ElementTaken(bytes, off, whole, ID, vs, n, left, ref, IdImage(id), size, next);
  }

  /** The loop, after the length prefix. */
  method TakeIds(bytes: seq<bv8>, off: nat, count: nat, ghost whole: Result, ghost ref: nat)
    returns (r: Status, s: seq<u16>, next: nat, ghost mark: nat)
    requires off % 8 == 0 && Tracks(8 * |bytes|, off, ref) && ListReading(whole, ID, BitsOf(bytes), [], count, ref)
    ensures r == Ok && |s| == count && next % 8 == 0 && Tracks(8 * |bytes|, next, mark)
    ensures whole == Done(Chain(Images(s)), mark)
  {
    r, s, next, mark := Ok, [], off, ref;
    ghost var vs: seq<Value>, left := [], count;
    var i := 0;
    while i < count
      invariant i == |s| <= count && vs == Images(s) && r == Ok
      invariant next % 8 == 0 && Tracks(8 * |bytes|, next, mark)
      invariant ListReading(whole, ID, BitsOf(bytes), vs, left, mark) && left == count - i
    {
      var id;
      ghost var fewer := left - 1;
      r, id, next, mark := TakeId(bytes, next, whole, vs, left, fewer, mark);
      ImagesStep(s, id);
      s, vs, i, left := s + [id], vs + [IdImage(id)], i + 1, fewer;
    }
    ListFinished(whole, ID, BitsOf(bytes), vs, mark);
  }

  lemma ImagesStep(s: seq<u16>, id: u16)
    ensures Images(s + [id]) == Images(s) + [IdImage(id)]
  {
  }

  method ReadIds(bytes: seq<bv8>, off: nat, ghost whole: Result, ghost c: Cursor)
    returns (r: Status, s: seq<u16>, next: nat, ghost d: Cursor)
    requires Reading(whole, bytes, off, c) && c.t.Then? && c.t.first == IDS && off % 8 == 0
    ensures r == Ok ==> Reading(whole, bytes, next, d) && After(d, c, Chain(Images(s))) && |s| <= 1
    ensures r != Ok ==> whole == Fail(r)
  {
    d := c;
    assert Open(0);
    ghost var b := BitsOf(bytes);
    var count := TakeCount(bytes, off, 8);
    next := off + 8;
    ghost var mark := c.ref + 8;
    ghost var list := ListHead(bytes, off, IDS, c.ref, count, next, mark);
    if count > 1 {
      Stuck(whole, b, c, BadArrayLength);
      return BadArrayLength, [], next, d;
    }
    WholeSum(off, 8, 0);
    r, s, next, mark := TakeIds(bytes, next, count, list, mark);
    d := Stepped(whole, b, c, Chain(Images(s)), mark);
  }

  method ReadHash(bytes: seq<bv8>, off: nat, ghost whole: Result, ghost c: Cursor)
    returns (hash: u64, next: nat, ghost d: Cursor)
    requires Reading(whole, bytes, off, c) && c.t.Then? && c.t.first == Field(48) && off % 8 == 0
    ensures Reading(whole, bytes, next, d) && After(d, c, Plain(ToBits(hash, 48))) && next % 8 == 0 && hash < Pow2(48)
  {
    hash, next, d := ReadInteger(bytes, off, 64, 48, whole, c);
  }

  method DeserializeAllocation(bytes: seq<bv8>) returns (r: Status, obj: Option<Allocation>, size: nat)
    ensures r == Ok <==> obj.Some?
    ensures Deserialized(ALLOCATION, bytes, r, if r == Ok then obj.value.Image() else Nothing, size)
    ensures r == if Number(bytes, 6, 1) > 1 then BadArrayLength else Ok
    ensures r == Ok ==> obj.value.uniqueIdHash < 0x1_0000_0000_0000 && AllocationAt(bytes, 0, obj.value)
  {
    r, obj, size := FetchAllocation(bytes);
    AllocationVerdict(bytes);
    Pow2Of40();
    ghost var end := ReadDecodes(ALLOCATION, bytes, r, if r == Ok then obj.value.Image() else Nothing, size);
    if r == Ok {
      AllocationPlaced(bytes, 0, obj.value, end);
    }
  }

  method FetchAllocation(bytes: seq<bv8>) returns (r: Status, obj: Option<Allocation>, size: nat)
    ensures r == Ok <==> obj.Some?
    ensures r == Ok ==> obj.value.uniqueIdHash < Pow2(48)
    ensures Deserialized(ALLOCATION, bytes, r, if r == Ok then obj.value.Image() else Nothing, size)
  {
    hide Pow2;
    obj := None;
    ghost var whole, c := ReadStart(ALLOCATION_FIELDS, bytes);
    var off := 0;
    var hash, ids;
    hash, off, c := ReadHash(bytes, off, whole, c);
    r, ids, off, c := ReadIds(bytes, off, whole, c);
    if r != Ok {
      Rejected(ALLOCATION_FIELDS, bytes, whole, r, Nothing);
      return r, obj, 0;
    }
    obj := Some(Allocation(hash, ids));
    size := Conclude(bytes, off, ALLOCATION_FIELDS, whole, c, obj.value.Image());
  }
}
