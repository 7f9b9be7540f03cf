/** The composites with a single variable-length array: uavcan.primitive.String.1.0, Unstructured.1.0, the arrays of
    uavcan.primitive.array except Real16, uavcan.file.Path.1.0 and 2.0, and uavcan.register.Name.1.0. The generator emits
    the same statements for all of them; they differ in the width of the length prefix, the element and the capacity. */
module Primitive {
  import opened Bits
  import opened Serialization
  import opened Dsdl
  import opened Sizes
  import opened Codec
  import opened Layout

  const STRING := Blob(16, 8, 256)
  const UNSTRUCTURED := Blob(16, 8, 256)
  const PATH_1_0 := Blob(8, 8, 112)
  const PATH_2_0 := Blob(8, 8, 255)
  const NAME := Blob(8, 8, 255)

  function ArrayObject(t: Type): Type { Nested(Then(t, Empty)) }

  predicate IsArray(t: Type) { t.Blob? && Prefixed(t.prefix, t.unit, t.capacity) }

  function ArrayValue(t: Type, arr: Elements): (v: Value)
    requires IsArray(t)
    ensures Shape(ArrayObject(t), v)
  {
    BlobEncoded(t, arr.Image(t.unit), arr.count, 0);
    assert Shape(Then(t, Empty), Pair(arr.Image(t.unit), Nothing));
    Pair(arr.Image(t.unit), Nothing)
  }

  lemma ArrayMax(t: Type)
    requires t.Blob?
    ensures MaxEnd(ArrayObject(t), 0) == Align(t.prefix + t.capacity * t.unit)
  {
    assert MaxEnd(Then(t, Empty), 0) == MaxEnd(Empty, MaxEnd(t, 0));
  }

  // ---------------------------------------------------------------- places in the message

  lemma ArrayWellFormed(t: Type)
    requires IsArray(t)
    ensures WellFormed(ArrayObject(t))
  {
    NativePowers();
    assert WellFormed(t) && WellFormed(Empty);
  }

  lemma ArrayPlaced(t: Type, bytes: seq<bv8>, i: nat, arr: Elements, end: nat)
    requires IsArray(t) && Decode(ArrayObject(t), BitsOf(bytes), 8 * i) == Done(ArrayValue(t, arr), end)
    ensures ArrayAt(bytes, i, t.prefix / 8, t.unit, arr) && arr.count <= t.capacity
    ensures end == Align(8 * i + t.prefix + arr.count * t.unit)
  {
    hide Decode, ArrayAt;
    var v, mid := ArrayValue(t, arr), 8 * i + t.prefix + arr.count * t.unit;
    var inner := BodyDecoded(ArrayObject(t), BitsOf(bytes), 8 * i, v, end);
    ArrayFirst(Then(t, Empty), bytes, i, t.prefix / 8, v, inner, arr, mid);
    EmptyDecoded(BitsOf(bytes), mid, v.rest, inner);
  }

  lemma ArrayObjectVerdict(t: Type, bytes: seq<bv8>, i: nat)
    requires IsArray(t)
    ensures Verdict(ArrayObject(t), BitsOf(bytes), 8 * i)
      == if Number(bytes, i, t.prefix / 8) > t.capacity then BadArrayLength else Ok
  {
    hide Decode, Number, Verdict;
    var n := Number(bytes, i, t.prefix / 8);
    BodyVerdict(ArrayObject(t), BitsOf(bytes), 8 * i);
    ArrayVerdict(Then(t, Empty), bytes, i, t.prefix / 8, 8 * i + t.prefix + n * t.unit);
    EmptyVerdict(BitsOf(bytes), 8 * i + t.prefix + n * t.unit);
  }

  /** A nested array of bytes as the next field. */
  lemma ArrayObjectFirst(t: Type, a: Type, bytes: seq<bv8>, i: nat, v: Value, end: nat, arr: Elements)
    requires IsArray(a) && a.prefix == 8 && a.unit == 8 && t.Then? && t.first == ArrayObject(a)
    requires Decode(t, BitsOf(bytes), 8 * i) == Done(v, end) && (v.Pair? ==> v.first == ArrayValue(a, arr))
    ensures v.Pair? && ArrayAt(bytes, i, 1, 8, arr) && arr.count <= a.capacity
    ensures Decode(t.rest, BitsOf(bytes), 8 * (i + 1 + arr.count)) == Done(v.rest, end)
  {
    hide Decode, ArrayAt;
    var mid := FirstDecoded(t, BitsOf(bytes), 8 * i, v, end);
    ArrayPlaced(a, bytes, i, arr, mid);
  }

  lemma ArrayObjectNext(t: Type, a: Type, bytes: seq<bv8>, i: nat)
    requires IsArray(a) && a.prefix == 8 && a.unit == 8 && t.Then? && t.first == ArrayObject(a)
    ensures var n := Number(bytes, i, 1);
      Verdict(t, BitsOf(bytes), 8 * i)
        == if n > a.capacity then BadArrayLength else Verdict(t.rest, BitsOf(bytes), 8 * (i + 1 + n))
  {
    hide Number, Verdict;
    var b, n := BitsOf(bytes), Number(bytes, i, 1);
    FirstVerdict(t, b, 8 * i);
    ArrayObjectEnd(a, bytes, i, n);
  }

  lemma ArrayObjectEnd(a: Type, bytes: seq<bv8>, i: nat, n: nat)
    requires IsArray(a) && a.prefix == 8 && a.unit == 8 && n == Number(bytes, i, 1)
    ensures var r := Decode(ArrayObject(a), BitsOf(bytes), 8 * i);
      if n > a.capacity then r == Fail(BadArrayLength) else r.Done? && r.next == 8 * (i + 1 + n)
  {
    var b := BitsOf(bytes);
    BlobDecoded(a, b, 8 * i, n);
    ThenDecoded(Then(a, Empty), b, 8 * i, Decode(a, b, 8 * i));
  }

  lemma ArrayValidated(t: Type, arr: Elements)
    requires IsArray(t)
    ensures Validate(ArrayObject(t), ArrayValue(t, arr)) == if arr.count > t.capacity then BadArrayLength else Ok
  {
    var v := ArrayValue(t, arr);
    BlobEncoded(t, arr.Image(t.unit), arr.count, 0);
    BlobThen(t, v, Validate(t, v.first));
  }

  lemma BlobThen(t: Type, v: Value, s: Status)
    requires t.Blob? && v.Pair? && v.rest.Nothing? && Shape(t, v.first) && Validate(t, v.first) == s
    ensures Shape(ArrayObject(t), v) && Validate(ArrayObject(t), v) == s
  {
    assert Shape(Empty, v.rest) && Validate(Empty, v.rest) == Ok;
    assert Shape(Then(t, Empty), v) && Validate(Then(t, Empty), v) == s;
  }

  /** What the contract of the serializer says about the bytes. */
  lemma ArrayWritten(t: Type, arr: Elements, was: seq<bool>, bytes: seq<bv8>, at: nat, capacity: nat, r: Status, size: nat)
    requires IsArray(t) && Serialized(ArrayObject(t), ArrayValue(t, arr), was, BitsOf(bytes), at, capacity, r, size)
    ensures r == if 8 * capacity < Align(t.prefix + t.capacity * t.unit) then BufferTooSmall
      else if arr.count > t.capacity then BadArrayLength else Ok
    ensures r == Ok ==>
      ArrayAt(bytes, at, t.prefix / 8, t.unit, arr) && 8 * size == Align(t.prefix + arr.count * t.unit)
  {
    hide Serialized, Decode, WellFormed, MaxEnd, ArrayAt, Align, ArrayValue, Validate;
    var v, len := ArrayValue(t, arr), t.prefix + arr.count * t.unit;
    ArrayMax(t);
    ArrayValidated(t, arr);
    WrittenVerdict(ArrayObject(t), v, was, BitsOf(bytes), at, capacity, r, size);
    if r == Ok {
      ArrayWellFormed(t);
      WrittenDecodes(ArrayObject(t), v, was, bytes, at, capacity, size);
      ArrayPlaced(t, bytes, at, arr, 8 * (at + size));
      assert 8 * at + t.prefix + arr.count * t.unit == len + 8 * at;
      AlignStep(len, 8 * at);
    }
  }

  method SerializeArray(t: Type, arr: Elements, buf: array<bv8>, at: nat, capacity: nat) returns (r: Status, size: nat)
    requires IsArray(t) && arr.Backed(t.capacity * t.unit) && at + capacity <= buf.Length
    modifies buf
    ensures Serialized(ArrayObject(t), ArrayValue(t, arr), old(BitsOf(buf[..])), BitsOf(buf[..]), at, capacity, r, size)
    ensures r == if 8 * capacity < Align(t.prefix + t.capacity * t.unit) then BufferTooSmall
      else if arr.count > t.capacity then BadArrayLength else Ok
    ensures r == Ok ==>
      ArrayAt(buf[..], at, t.prefix / 8, t.unit, arr) && 8 * size == Align(t.prefix + arr.count * t.unit)
  {
    ghost var was := BitsOf(buf[..]);
    r, size := EmitArray(t, arr, buf, at, capacity);
    ArrayWritten(t, arr, was, buf[..], at, capacity, r, size);
  }

  method EmitArray(t: Type, arr: Elements, buf: array<bv8>, at: nat, capacity: nat) returns (r: Status, size: nat)
    requires IsArray(t) && arr.Backed(t.capacity * t.unit) && at + capacity <= buf.Length
    modifies buf
    ensures Serialized(ArrayObject(t), ArrayValue(t, arr), old(BitsOf(buf[..])), BitsOf(buf[..]), at, capacity, r, size)
  {
    ghost var body, v := Then(t, Empty), ArrayValue(t, arr);
    ArrayMax(t);
    if 8 * capacity < Align(t.prefix + t.capacity * t.unit) {
      return BufferTooSmall, 0;
    }
    var off := 0;
    ghost var job, p := Begin(body, v, buf, at, capacity);
    r, off, p := ArrayField(buf, at, capacity, off, t, arr, job, p);
    if r != Ok {
      Refused(body, v, buf, at, capacity, job, r);
      return r, 0;
    }
    r, size := Complete(body, v, buf, at, capacity, off, job, p);
  }

  method DeserializeArray(t: Type, bytes: seq<bv8>) returns (r: Status, arr: Elements, size: nat)
    requires IsArray(t)
    ensures arr.Backed(t.capacity * t.unit)
    ensures Deserialized(ArrayObject(t), bytes, r, ArrayValue(t, arr), size)
    ensures r == if Number(bytes, 0, t.prefix / 8) > t.capacity then BadArrayLength else Ok
    ensures r == Ok ==> ArrayAt(bytes, 0, t.prefix / 8, t.unit, arr)
  {
    r, arr, size := FetchArray(t, bytes);
    ArrayObjectVerdict(t, bytes, 0);
    ghost var end := ReadDecodes(ArrayObject(t), bytes, r, ArrayValue(t, arr), size);
    if r == Ok {
      ArrayPlaced(t, bytes, 0, arr, end);
    }
  }

  method FetchArray(t: Type, bytes: seq<bv8>) returns (r: Status, arr: Elements, size: nat)
    requires IsArray(t)
    ensures arr.Backed(t.capacity * t.unit)
    ensures Deserialized(ArrayObject(t), bytes, r, ArrayValue(t, arr), size)
  {
    ghost var whole, c := ReadStart(Then(t, Empty), bytes);
    var off := 0;
    r, arr, off, c := ReadArray(bytes, off, t, whole, c);
    if r != Ok {
      Rejected(Then(t, Empty), bytes, whole, r, ArrayValue(t, arr));
      return r, arr, 0;
    }
    size := Conclude(bytes, off, Then(t, Empty), whole, c, ArrayValue(t, arr));
  }

  // ---------------------------------------------------------------- nested in other objects

  method ArrayObjectField(buf: array<bv8>, at: nat, capacity: nat, off: nat, t: Type, arr: Elements, inner: nat,
    ghost job: Job, ghost p: Point) returns (r: Status, next: nat, ghost q: Point)
    requires IsArray(t) && t.unit % 8 == 0 && arr.Backed(t.capacity * t.unit) && 8 * inner == t.prefix + t.capacity * t.unit
    requires Ready(buf, at, capacity, off, job, p) && off % 8 == 0
    requires Next(p, ArrayObject(t), ArrayValue(t, arr), off, 8 * inner, capacity)
    modifies buf
    ensures r != Ok ==> Failed(buf, at, capacity, job, r)
    ensures r == Ok ==> Ready(buf, at, capacity, next, job, q) && Past(q, p) && next % 8 == 0
    ensures r == Ok ==> off + t.prefix <= next <= off + 8 * inner
  {
    hide Encode, MaxEnd, MinEnd, Validate, ArrayAt, Number, Align, Wrote;
    ghost var mid := BitsOf(buf[..]);
    var size;
    r, size := SerializeArray(t, arr, buf, at + off / 8, inner);
    WholeBytes(t.capacity, t.unit);
    ArrayExtent(t, 0);
    next := off + 8 * size;
    q := NestedField(buf, mid, at, capacity, off, inner, job, p, r, size, next);
  }

  method ReadArrayObject(bytes: seq<bv8>, off: nat, t: Type, ghost whole: Result, ghost c: Cursor)
    returns (r: Status, arr: Elements, next: nat, ghost d: Cursor)
    requires IsArray(t) && Reading(whole, bytes, off, c) && c.t.Then? && c.t.first == ArrayObject(t) && off % 8 == 0
    ensures arr.Backed(t.capacity * t.unit)
    ensures r == Ok ==> Reading(whole, bytes, next, d) && After(d, c, ArrayValue(t, arr)) && next % 8 == 0
    ensures r != Ok ==> whole == Fail(r)
  {
    var size;
    r, arr, size := DeserializeArray(t, Rest(bytes, off));
    next := off + 8 * size;
    d := NestedTaken(whole, bytes, off, c, r, ArrayValue(t, arr), size, next);
  }

  /** Extents at any byte boundary. */
  lemma ArrayExtent(t: Type, off: nat)
    requires t.Blob? && off % 8 == 0 && t.prefix % 8 == 0 && (t.capacity * t.unit) % 8 == 0
    ensures MinEnd(ArrayObject(t), off) == off + t.prefix
    ensures MaxEnd(ArrayObject(t), off) == off + t.prefix + t.capacity * t.unit
  {
    assert Align(off) == off;
    assert MinEnd(Then(t, Empty), off) == off + t.prefix;
    assert MaxEnd(Then(t, Empty), off) == off + t.prefix + t.capacity * t.unit;
    WholeSum(off, t.prefix, 0);
    WholeSum(off, t.prefix, t.capacity * t.unit);
  }
}
