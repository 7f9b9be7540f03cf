/** uavcan.register.Value.1.0, a tagged union of fifteen options, and the request of uavcan.register.Access.1.0, a name and
    a value one after the other. */
module Registers {
  import opened Bits
  import opened Serialization
  import opened Dsdl
  import opened Sizes
  import opened Codec
  import opened Layout
  import opened Primitive
  import R = Real16

  // ---------------------------------------------------------------- the options

  /** The array inside the option: string, unstructured, bit, integer64 to integer8, natural64 to natural8, real64 and
      real32; every one of them holds 2048 bits. */
  function OptionArray(tag: nat): (t: Type)
    requires 1 <= tag <= 13
    ensures IsArray(t) && t.capacity * t.unit == 2048
  {
    match tag
    case 1 => STRING
    case 2 => UNSTRUCTURED
    case 3 => Blob(16, 1, 2048)
    case 4 => Blob(8, 64, 32)
    case 5 => Blob(8, 32, 64)
    case 6 => Blob(8, 16, 128)
    case 7 => Blob(16, 8, 256)
    case 8 => Blob(8, 64, 32)
    case 9 => Blob(8, 32, 64)
    case 10 => Blob(8, 16, 128)
    case 11 => Blob(16, 8, 256)
    case 12 => Blob(8, 64, 32)
    case _ => Blob(8, 32, 64)
  }

  function OptionType(tag: nat): (t: Type)
    ensures t.Nested?
  {
    if tag == 0 then Nested(Empty) else if tag <= 13 then ArrayObject(OptionArray(tag)) else R.REAL16
  }

  function Options(): (os: seq<Type>)
    ensures |os| == 15 && forall i | 0 <= i < 15 :: os[i] == OptionType(i)
  {
    seq(15, i requires 0 <= i < 15 => OptionType(i))
  }

  const VALUE_BODY := Union(Options())
  const VALUE := Nested(VALUE_BODY)

  /** The tag, the memory of the array options, and the elements of the real16 option. */
  datatype RegisterValue = RegisterValue(tag: u8, memory: Elements, reals: seq<R.u32>) {
    predicate Valid() { memory.Backed(2048) }

    function Option(): (v: Value)
      ensures tag < 15 ==> Shape(OptionType(tag), v)
    {
      if 1 <= tag <= 13 then ArrayValue(OptionArray(tag), memory)
      else if tag == 14 then R.RealsImage(reals)
      else Nothing
    }

    function Image(): (v: Value)
      ensures v == Tagged(tag, Option()) && Shape(VALUE, v)
    {
      assert Shape(VALUE_BODY, Tagged(tag, Option()));
      Tagged(tag, Option())
    }

    /** What a decoded object says about the value on the wire. */
    predicate Reads(v: Value) {
      && v.Tagged? && v.tag == tag <= 14
      && (tag != 14 ==> v.option == Option())
      && (tag == 14 ==> v.option.Pair? && v.option.first.Plain? && R.Unpacked(reals, v.option.first.bits))
    }
  }

  // ---------------------------------------------------------------- places in the message

  /** Bits of an element, by tag: text and bytes 8, bits 1, the integers, naturals and reals by their names. */
  function ElementBits(tag: nat): nat {
    match tag
    case 3 => 1
    case 4 | 8 | 12 => 64
    case 5 | 9 | 13 => 32
    case 6 | 10 | 14 => 16
    case _ => 8
  }

  /** Bytes of the length: options of more than 255 elements have two. */
  function LengthBytes(tag: nat): nat {
    match tag
    case 1 | 2 | 3 | 7 | 11 => 2
    case _ => 1
  }

  /** The most elements of an option. */
  function MostElements(tag: nat): nat {
    match tag
    case 3 => 2048
    case 4 | 8 | 12 => 32
    case 5 | 9 | 13 => 64
    case 6 | 10 | 14 => 128
    case _ => 256
  }

  /** The size of a value on the wire. */
  function ValueSize(tag: nat, count: nat): nat {
    match tag
    case 0 => 1
    case 3 => 3 + (count + 7) / 8
    case 4 | 8 | 12 => 2 + 8 * count
    case 5 | 9 | 13 => 2 + 4 * count
    case 6 | 10 | 14 => 2 + 2 * count
    case _ => 3 + count
  }

  lemma OptionTable(tag: nat)
    requires 1 <= tag <= 13
    ensures OptionArray(tag) == Blob(8 * LengthBytes(tag), ElementBits(tag), MostElements(tag))
  {
  }

  /** The tag in a byte, then the length of the option and its elements. */
  predicate MemoryAt(bytes: seq<bv8>, i: nat, obj: RegisterValue) {
    && Number(bytes, i, 1) == obj.tag <= 14
    && (1 <= obj.tag <= 13 ==>
          && ArrayAt(bytes, i + 1, LengthBytes(obj.tag), ElementBits(obj.tag), obj.memory)
          && obj.memory.count <= MostElements(obj.tag))
  }

  /** A value as it is written. */
  predicate ValueAt(bytes: seq<bv8>, i: nat, obj: RegisterValue) {
    MemoryAt(bytes, i, obj) && (obj.tag == 14 ==> R.HalvesAt(bytes, i + 1, obj.reals))
  }

  /** A value as it is read. */
  predicate ValueFrom(bytes: seq<bv8>, i: nat, obj: RegisterValue) {
    MemoryAt(bytes, i, obj) && (obj.tag == 14 ==> R.UnpackedAt(bytes, i + 1, obj.reals))
  }

  /** What a reader finds wrong with the value at byte `i`, if anything. */
  function ValueFault(bytes: seq<bv8>, i: nat): Status {
    var tag := Number(bytes, i, 1);
    if tag > 14 then BadUnionTag
    else if tag > 0 && Number(bytes, i + 1, LengthBytes(tag)) > MostElements(tag) then BadArrayLength
    else Ok
  }

  lemma ValueWellFormed()
    ensures WellFormed(VALUE)
  {
    NativePowers();
    forall i | 0 <= i < 15
      ensures WellFormed(Options()[i])
    {
      OptionWellFormed(i);
    }
    assert WellFormed(VALUE_BODY);
  }

  lemma OptionWellFormed(tag: nat)
    requires tag < 15
    ensures WellFormed(OptionType(tag))
  {
    NativePowers();
    if 1 <= tag <= 13 {
      assert WellFormed(OptionArray(tag));
      assert WellFormed(Then(OptionArray(tag), Empty));
    } else if tag == 14 {
      assert WellFormed(R.REAL16_FIELDS);
    }
  }

  /** The elements of the option, wherever they are kept. */
  function ElementCount(obj: RegisterValue): nat { if obj.tag == 14 then |obj.reals| else obj.memory.count }

  lemma EmptyPlaced(b: seq<bool>, i: nat, v: Value, end: nat)
    requires Decode(Nested(Empty), b, 8 * i) == Done(v, end)
    ensures end == 8 * i
  {
    var inner := BodyDecoded(Nested(Empty), b, 8 * i, v, end);
    EmptyDecoded(b, 8 * i, v, inner);
  }

  lemma WholeBytesUp(i: nat, n: nat)
    ensures Align(8 * i + n) == 8 * (i + (n + 7) / 8)
  {
  }

  lemma AlignedEnd(i: nat)
    ensures Align(8 * i) == 8 * i
  {
  }

  /** The end of an option of one of the arrays. */
  lemma OptionEnd(tag: nat, count: nat, i: nat)
    requires 1 <= tag <= 13
    ensures Align(8 * (i + 1) + 8 * LengthBytes(tag) + count * ElementBits(tag)) == 8 * (i + ValueSize(tag, count))
  {
    hide Align;
    var j := i + 1 + LengthBytes(tag);
    WholeBytesUp(j, count * ElementBits(tag));
    OptionBytes(tag, count);
    assert 8 * (i + 1) + 8 * LengthBytes(tag) + count * ElementBits(tag) == 8 * j + count * ElementBits(tag);
  }

  lemma OptionBytes(tag: nat, count: nat)
    requires 1 <= tag <= 13
    ensures 1 + LengthBytes(tag) + (count * ElementBits(tag) + 7) / 8 == ValueSize(tag, count)
  {
  }

  /** The tag and the option that it selects. */
  lemma TagDecoded(bytes: seq<bv8>, i: nat, v: Value, end: nat) returns (inner: nat)
    requires Decode(VALUE, BitsOf(bytes), 8 * i) == Done(v, end)
    ensures v.Tagged? && Number(bytes, i, 1) == v.tag <= 14
    ensures Decode(OptionType(v.tag), BitsOf(bytes), 8 * (i + 1)) == Done(v.option, inner) && end == Align(inner)
  {
    hide Decode;
    var b, tag := BitsOf(bytes), Number(bytes, i, 1);
    inner := BodyDecoded(VALUE, b, 8 * i, v, end);
    UnionDecoded(Options(), b, 8 * i, tag);
  }

  lemma MemoryPlaced(bytes: seq<bv8>, i: nat, obj: RegisterValue, v: Value, end: nat)
    requires Decode(VALUE, BitsOf(bytes), 8 * i) == Done(v, end) && obj.tag != 14
    requires v.Tagged? ==> v.tag == obj.tag && (obj.tag <= 14 ==> v.option == obj.Option())
    ensures MemoryAt(bytes, i, obj) && end == 8 * (i + ValueSize(obj.tag, obj.memory.count))
  {
    hide Decode, ArrayAt, Number, Align;
    var inner := TagDecoded(bytes, i, v, end);
    if obj.tag == 0 {
      EmptyPlaced(BitsOf(bytes), i + 1, v.option, inner);
      WholeBytesUp(i + 1, 0);
    } else {
      OptionTable(obj.tag);
      ArrayPlaced(OptionArray(obj.tag), bytes, i + 1, obj.memory, inner);
      OptionEnd(obj.tag, obj.memory.count, i);
      WholeBytesUp(i + ValueSize(obj.tag, obj.memory.count), 0);
    }
  }

  /** An object whose image stands in the message. */
  lemma ValuePlaced(bytes: seq<bv8>, i: nat, obj: RegisterValue, end: nat)
    requires Decode(VALUE, BitsOf(bytes), 8 * i) == Done(obj.Image(), end)
    ensures ValueAt(bytes, i, obj) && end == 8 * (i + ValueSize(obj.tag, ElementCount(obj)))
  {
    hide Decode, MemoryAt, Number, Align, R.HalvesAt, ArrayValue, ValueSize;
    if obj.tag == 14 {
      RealsOptionPlaced(bytes, i, obj, end);
    } else {
      MemoryPlaced(bytes, i, obj, obj.Image(), end);
    }
  }

  lemma RealsOption(obj: RegisterValue)
    requires obj.tag == 14
    ensures OptionType(14) == R.REAL16 && obj.Option() == R.RealsImage(obj.reals)
    ensures ValueSize(14, |obj.reals|) == 2 + 2 * |obj.reals|
  {
  }

  lemma RealsOptionPlaced(bytes: seq<bv8>, i: nat, obj: RegisterValue, end: nat)
    requires Decode(VALUE, BitsOf(bytes), 8 * i) == Done(obj.Image(), end) && obj.tag == 14
    ensures MemoryAt(bytes, i, obj) && R.HalvesAt(bytes, i + 1, obj.reals) && end == 8 * (i + ValueSize(14, |obj.reals|))
  {
    hide Decode, Number, Align, R.HalvesAt, R.RealsImage, ArrayValue, OptionType, OptionArray, ValueSize;
    hide RegisterValue.Option;
    RealsOption(obj);
    var inner := TagDecoded(bytes, i, obj.Image(), end);
    R.HalvesPlaced(bytes, i + 1, obj.reals, inner);
    AlignedEnd(i + 2 + 2 * |obj.reals|);
  }

  /** An object that was read from the message. */
  lemma ValueFound(bytes: seq<bv8>, i: nat, obj: RegisterValue, v: Value, end: nat)
    requires Decode(VALUE, BitsOf(bytes), 8 * i) == Done(v, end) && obj.Reads(v)
    ensures ValueFrom(bytes, i, obj)
  {
    hide Decode, ArrayAt, Number, Align, R.UnpackedAt, R.Unpacked;
    if obj.tag == 14 {
      var inner := TagDecoded(bytes, i, v, end);
      R.UnpackedPlaced(bytes, i + 1, obj.reals, v.option, inner);
    } else {
      MemoryPlaced(bytes, i, obj, v, end);
    }
  }

  lemma ValueVerdict(bytes: seq<bv8>, i: nat)
    ensures Verdict(VALUE, BitsOf(bytes), 8 * i) == ValueFault(bytes, i)
  {
    hide Decode, Number;
    var b, tag := BitsOf(bytes), Number(bytes, i, 1);
    BodyVerdict(VALUE, b, 8 * i);
    UnionDecoded(Options(), b, 8 * i, tag) by {
      TagNumber(bytes, i);
    }
    if tag == 0 {
      BodyVerdict(Nested(Empty), b, 8 * (i + 1));
      EmptyVerdict(b, 8 * (i + 1));
    } else if tag <= 13 {
      OptionTable(tag);
      ArrayObjectVerdict(OptionArray(tag), bytes, i + 1);
    } else if tag == 14 {
      R.RealsVerdict(bytes, i + 1);
    }
  }

  lemma TagNumber(bytes: seq<bv8>, i: nat)
    ensures Number(bytes, i, 1) == Unsigned(BitsOf(bytes), 8 * i, 8)
  {
  }

  lemma ValueValidated(obj: RegisterValue)
    ensures Validate(VALUE, obj.Image()) == if obj.tag > 14 then BadUnionTag
      else if obj.tag > 0 && ElementCount(obj) > MostElements(obj.tag) then BadArrayLength else Ok
  {
    assert Validate(VALUE, obj.Image()) == Validate(VALUE_BODY, obj.Image());
    if 1 <= obj.tag <= 13 {
      OptionTable(obj.tag);
      ArrayValidated(OptionArray(obj.tag), obj.memory);
    }
  }

  /** What the contract of the serializer says about the bytes. */
  lemma ValueWritten(obj: RegisterValue, was: seq<bool>, bytes: seq<bv8>, at: nat, capacity: nat, r: Status, size: nat)
    requires Serialized(VALUE, obj.Image(), was, BitsOf(bytes), at, capacity, r, size)
    ensures r == if capacity < 259 then BufferTooSmall else if obj.tag > 14 then BadUnionTag
      else if obj.tag > 0 && ElementCount(obj) > MostElements(obj.tag) then BadArrayLength else Ok
    ensures r == Ok ==> ValueAt(bytes, at, obj) && size == ValueSize(obj.tag, ElementCount(obj))
  {
    hide Serialized, Decode, Validate, WellFormed, MaxEnd, ValueAt;
    ValueExtent();
    ValueValidated(obj);
    WrittenVerdict(VALUE, obj.Image(), was, BitsOf(bytes), at, capacity, r, size);
    if r == Ok {
      ValueWellFormed();
      WrittenDecodes(VALUE, obj.Image(), was, bytes, at, capacity, size);
      ValuePlaced(bytes, at, obj, 8 * (at + size));
    }
  }

  // ---------------------------------------------------------------- extents

  /** The size of an option that the serializer hands to the nested serializer. */
  function OptionSize(tag: nat): nat
    requires tag < 15
  {
    if tag == 0 then 0 else if tag == 1 || tag == 2 || tag == 3 || tag == 7 || tag == 11 then 258 else 257
  }

  lemma OptionExtent(tag: nat, off: nat)
    requires tag < 15 && off % 8 == 0
    ensures MaxEnd(OptionType(tag), off) == off + 8 * OptionSize(tag)
    ensures MinEnd(OptionType(tag), off)
      == if tag == 0 then off else if OptionSize(tag) == 258 then off + 16 else off + 8
  {
    if 1 <= tag <= 13 {
      ArrayExtent(OptionArray(tag), off);
    } else if tag == 14 {
      R.RealsExtent(off);
    }
  }

  lemma {:induction false} OptionsExtent(n: nat)
    requires 1 <= n <= 15
    ensures MaxOption(Options(), n, 8) == if n == 1 then 8 else 2072
    ensures MinOption(Options(), n, 8) == 8
  {
    OptionExtent(n - 1, 8);
    if n > 1 {
      OptionsExtent(n - 1);
    }
  }

  lemma ValueExtent()
    ensures MinEnd(VALUE, 0) == 8 && MaxEnd(VALUE, 0) == 2072
  {
    OptionsExtent(15);
    assert MinEnd(VALUE_BODY, 0) == 8 && MaxEnd(VALUE_BODY, 0) == 2072;
    NestedExtent(VALUE_BODY, 8, 2072);
  }

  // ---------------------------------------------------------------- uavcan.primitive.Empty.1.0

  method SerializeEmpty(buf: array<bv8>, at: nat, capacity: nat) returns (r: Status, size: nat)
    requires at + capacity <= buf.Length
    modifies buf
    ensures Serialized(Nested(Empty), Nothing, old(BitsOf(buf[..])), BitsOf(buf[..]), at, capacity, r, size)
  {
    ghost var job, p := Begin(Empty, Nothing, buf, at, capacity);
    r, size := Complete(Empty, Nothing, buf, at, capacity, 0, job, p);
  }

  method DeserializeEmpty(bytes: seq<bv8>) returns (r: Status, size: nat)
    ensures r == Ok && Deserialized(Nested(Empty), bytes, r, Nothing, size)
  {
    ghost var whole, c := ReadStart(Empty, bytes);
    size := Conclude(bytes, 0, Empty, whole, c, Nothing);
    r := Ok;
  }

  // ---------------------------------------------------------------- the union

  lemma UnionEncoded(os: seq<Type>, tag: nat, option: Value)
    requires tag < |os| && Shape(os[tag], option)
    ensures Shape(Union(os), Tagged(tag, option))
    ensures Encode(Union(os), Tagged(tag, option), 0) == ToBits(tag, 8) + Encode(os[tag], option, 8)
    ensures Validate(Union(os), Tagged(tag, option)) == Validate(os[tag], option)
  {
  }

  /** The chain of cases on the tag. */
  method PutOption(obj: RegisterValue, buf: array<bv8>, at: nat) returns (r: Status, size: nat)
    requires obj.Valid() && obj.tag <= 14 && at + OptionSize(obj.tag) <= buf.Length
    modifies buf
    ensures Serialized(OptionType(obj.tag), obj.Option(), old(BitsOf(buf[..])), BitsOf(buf[..]), at,
                       OptionSize(obj.tag), r, size)
  {
    if obj.tag == 0 {
      r, size := SerializeEmpty(buf, at, 0);
    } else if obj.tag <= 13 {
      r, size := SerializeArray(OptionArray(obj.tag), obj.memory, buf, at, OptionSize(obj.tag));
    } else {
      r, size := R.SerializeReals(obj.reals, buf, at, 257);
    }
  }

  /** The tag and the option are the whole union. */
  lemma UnionWritten(buf: array<bv8>, mid: seq<bool>, at: nat, capacity: nat, inner: nat, job: Job,
    os: seq<Type>, tag: nat,
    option: Value, r: Status, size: nat, next: nat) returns (q: Point)
    requires tag < |os| && os[tag].Nested? && Shape(os[tag], option) && at + capacity <= buf.Length
    requires Shape(Union(os), Tagged(tag, option)) && Runs(job, Union(os), Tagged(tag, option))
    requires |mid| == 8 * buf.Length && Wrote(mid, job.was, at, ToBits(tag, 8)) && 8 + 8 * inner <= 8 * capacity
    requires Serialized(os[tag], option, mid, BitsOf(buf[..]), at + 8 / 8, inner, r, size)
    requires 8 * inner >= MaxEnd(os[tag], 0) && next == 8 + 8 * size
    ensures r == Ok ==> Ready(buf, at, capacity, next, job, q) && q.t.Empty? && q.v.Nothing?
    ensures r != Ok ==> Failed(buf, at, capacity, job, r)
  {
    hide MaxEnd, ToBits, MinEnd, Encode, Validate;
    assert Open(0);
    var head := ToBits(tag, 8);
    UnionEncoded(os, tag, option);
    q := Point([], Empty, Nothing);
    if r == Ok {
      NestedWritten(os[tag], option, job.was, mid, BitsOf(buf[..]), at, head, 8, inner, size);
      q := EmitWhole(job.all, job.verdict, head + Encode(os[tag], option, 0));
    } else {
      NestedConfined(os[tag], option, job.was, mid, BitsOf(buf[..]), at, head, 8, inner, r, size, capacity);
    }
  }

  /** The tag and the option it selects. */
  method PutUnion(obj: RegisterValue, buf: array<bv8>, at: nat, capacity: nat, ghost job: Job, ghost p: Point)
    returns (r: Status, next: nat, ghost q: Point)
    requires obj.Valid() && Ready(buf, at, capacity, 0, job, p) && 2072 <= 8 * capacity && p.done == []
    requires Runs(job, VALUE_BODY, obj.Image())
    modifies buf
    ensures r != Ok ==> Failed(buf, at, capacity, job, r)
    ensures r == Ok ==> Ready(buf, at, capacity, next, job, q) && q.t.Empty? && q.v.Nothing?
    ensures obj.tag > 14 ==> r == BadUnionTag
  {
    hide MaxEnd, MinEnd, Wrote, ToBits;
    q := p;
    WroteLength(BitsOf(buf[..]), job.was, at, p.done);
    PutByte(buf, at, 0, obj.tag, job.was, p.done);
    assert p.done + ToBits(obj.tag, 8) == ToBits(obj.tag, 8);
    if obj.tag > 14 {
      assert Open(0);
      WroteConfined(BitsOf(buf[..]), job.was, at, ToBits(obj.tag, 8), capacity);
      return BadUnionTag, 8, q;
    }
    ghost var mid := BitsOf(buf[..]);
    var size;
    r, size := PutOption(obj, buf, at + 8 / 8);
    OptionExtent(obj.tag, 0);
    next := 8 + 8 * size;
    q := UnionWritten(buf, mid, at, capacity, OptionSize(obj.tag), job, Options(), obj.tag, obj.Option(),
      r, size, next);
  }

  method SerializeValue(obj: RegisterValue, buf: array<bv8>, at: nat, capacity: nat) returns (r: Status, size: nat)
    requires obj.Valid() && at + capacity <= buf.Length
    modifies buf
    ensures Serialized(VALUE, obj.Image(), old(BitsOf(buf[..])), BitsOf(buf[..]), at, capacity, r, size)
    ensures r == if capacity < 259 then BufferTooSmall else if obj.tag > 14 then BadUnionTag
      else if obj.tag > 0 && ElementCount(obj) > MostElements(obj.tag) then BadArrayLength else Ok
    ensures r == Ok ==> ValueAt(buf[..], at, obj) && size == ValueSize(obj.tag, ElementCount(obj))
  {
    ghost var was := BitsOf(buf[..]);
    r, size := EmitValue(obj, buf, at, capacity);
    ValueWritten(obj, was, buf[..], at, capacity, r, size);
  }

  method EmitValue(obj: RegisterValue, buf: array<bv8>, at: nat, capacity: nat) returns (r: Status, size: nat)
    requires obj.Valid() && at + capacity <= buf.Length
    modifies buf
    ensures Serialized(VALUE, obj.Image(), old(BitsOf(buf[..])), BitsOf(buf[..]), at, capacity, r, size)
    ensures obj.tag > 14 && r != BufferTooSmall ==> r == BadUnionTag
  {
    ghost var v := obj.Image();
    ValueExtent();
    if 8 * capacity < 2072 {
      return BufferTooSmall, 0;
    }
    ghost var job, p := Begin(VALUE_BODY, v, buf, at, capacity);
    var off;
    r, off, p := PutUnion(obj, buf, at, capacity, job, p);
    if r != Ok {
      Refused(VALUE_BODY, v, buf, at, capacity, job, r);
      return r, 0;
    }
    r, size := Complete(VALUE_BODY, v, buf, at, capacity, off, job, p);
  }

  method TakeOption(bytes: seq<bv8>, tag: u8) returns (r: Status, obj: RegisterValue, size: nat, ghost v: Value)
    requires tag <= 14
    ensures obj.Valid() && obj.tag == tag && Deserialized(OptionType(tag), bytes, r, v, size)
    ensures r == Ok ==> obj.Reads(Tagged(tag, v))
  {
    var blank := Elements(0, seq(256, _ => 0));
    v := Nothing;
    if tag == 0 {
      r, size := DeserializeEmpty(bytes);
      obj := RegisterValue(tag, blank, []);
    } else if tag <= 13 {
      var arr;
      r, arr, size := DeserializeArray(OptionArray(tag), bytes);
      obj := RegisterValue(tag, arr, []);
      v := obj.Option();
    } else {
      var reals;
      r, reals, size, v := R.DeserializeReals(bytes);
      obj := RegisterValue(tag, blank, reals);
    }
  }

  lemma UnionDecoded(os: seq<Type>, b: seq<bool>, off: nat, tag: nat)
    requires tag == Unsigned(b, off, 8)
    ensures Decode(Union(os), b, off)
      == if tag >= |os| then Fail(BadUnionTag) else Decode(os[tag], b, off + 8).WithTag(tag)
  {
  }

  /** The tag and the option, read from what is left after the tag, are the whole union. */
  lemma UnionRead(bytes: seq<bv8>, os: seq<Type>, tag: nat, r: Status, v: Value, size: nat, next: nat)
    returns (ref: nat)
    requires tag < |os| && os[tag].Nested? && tag == Unsigned(BitsOf(bytes), 0, 8)
    requires Deserialized(os[tag], Rest(bytes, 8), r, v, size) && next == 8 + 8 * size
    ensures Decode(Union(os), BitsOf(bytes), 0) == if r == Ok then Done(Tagged(tag, v), ref) else Fail(r)
    ensures r == Ok ==> Tracks(8 * |bytes|, next, ref)
  {
    UnionDecoded(os, BitsOf(bytes), 0, tag);
    NestedRead(os[tag], bytes, 8, 8, r, v, size, next);
    var inner := Decode(os[tag], BitsOf(bytes), 8);
    ref := if inner.Done? then inner.next else 0;
  }

  method DeserializeValue(bytes: seq<bv8>) returns (r: Status, obj: Option<RegisterValue>, size: nat, ghost v: Value)
    ensures Deserialized(VALUE, bytes, r, v, size)
    ensures var d := Decode(VALUE, BitsOf(bytes), 0);
      if d.Done? then r == Ok && obj.Some? && obj.value.Reads(d.value) else r == d.error
    ensures r == Ok <==> obj.Some? && obj.value.Valid() && obj.value.Reads(v)
    ensures r == ValueFault(bytes, 0) && (r == Ok ==> ValueFrom(bytes, 0, obj.value))
  {
    r, obj, size, v := FetchValue(bytes);
    ValueVerdict(bytes, 0);
    ghost var end := ReadDecodes(VALUE, bytes, r, v, size);
    if r == Ok {
      ValueFound(bytes, 0, obj.value, v, end);
    }
  }

  method FetchValue(bytes: seq<bv8>) returns (r: Status, obj: Option<RegisterValue>, size: nat, ghost v: Value)
    ensures Deserialized(VALUE, bytes, r, v, size)
    ensures var d := Decode(VALUE, BitsOf(bytes), 0);
      if d.Done? then r == Ok && obj.Some? && obj.value.Reads(d.value) else r == d.error
    ensures r == Ok <==> obj.Some? && obj.value.Valid() && obj.value.Reads(v)
  {
    obj, v := None, Nothing;
    var tag := TakeLow(bytes, 0, 8);
    var off := 8;
    if tag > 14 {
      UnionDecoded(Options(), BitsOf(bytes), 0, tag);
      return BadUnionTag, obj, 0, v;
    }
    var option;
    r, option, size, v := TakeOption(Rest(bytes, off), tag);
    off := off + 8 * size;
    ghost var ref := UnionRead(bytes, Options(), tag, r, v, size, off);
    if r != Ok {
      return r, obj, 0, v;
    }
    v, obj := Tagged(tag, v), Some(option);
    AllRead(VALUE_BODY, bytes, off, ref, v);
    size := ChooseMin(Align(off), 8 * |bytes|) / 8;
  }

  // ---------------------------------------------------------------- uavcan.register.Access.1.0, request

  const ACCESS_FIELDS := Then(ArrayObject(NAME), Then(VALUE, Empty))
  const ACCESS := Nested(ACCESS_FIELDS)

  datatype AccessRequest = AccessRequest(name: Elements, value: RegisterValue) {
    predicate Valid() { name.Backed(8 * 255) && value.Valid() }

    function Image(): (v: Value)
      ensures Shape(ACCESS, v)
    {
      var v := Pair(ArrayValue(NAME, name), Pair(value.Image(), Nothing));
      assert Shape(ACCESS_FIELDS, v);
      v
    }

    predicate Reads(v: Value) {
      v.Pair? && v.first == ArrayValue(NAME, name) && v.rest.Pair? && value.Reads(v.rest.first) && v.rest.rest == Nothing
    }
  }

  predicate AccessAt(bytes: seq<bv8>, i: nat, obj: AccessRequest) {
    ArrayAt(bytes, i, 1, 8, obj.name) && ValueAt(bytes, i + 1 + obj.name.count, obj.value)
  }

  predicate AccessFrom(bytes: seq<bv8>, i: nat, obj: AccessRequest) {
    ArrayAt(bytes, i, 1, 8, obj.name) && ValueFrom(bytes, i + 1 + obj.name.count, obj.value)
  }

  lemma AccessWellFormed()
    ensures WellFormed(ACCESS)
  {
    ValueWellFormed();
    Pow2Of8();
    assert WellFormed(Then(NAME, Empty));
    assert WellFormed(ArrayObject(NAME));
    assert WellFormed(ACCESS_FIELDS);
  }

  lemma AccessPlaced(bytes: seq<bv8>, i: nat, obj: AccessRequest, end: nat)
    requires Decode(ACCESS, BitsOf(bytes), 8 * i) == Done(obj.Image(), end)
    ensures AccessAt(bytes, i, obj)
  {
    hide Decode, ArrayAt, ValueAt, ArrayValue;
    var b, v := BitsOf(bytes), obj.Image();
    var inner := BodyDecoded(ACCESS, b, 8 * i, v, end);
    ArrayObjectFirst(ACCESS_FIELDS, NAME, bytes, i, v, inner, obj.name);
    var mid := FirstDecoded(ACCESS_FIELDS.rest, b, 8 * (i + 1 + obj.name.count), v.rest, inner);
    ValuePlaced(bytes, i + 1 + obj.name.count, obj.value, mid);
  }

  lemma AccessFound(bytes: seq<bv8>, i: nat, obj: AccessRequest, v: Value, end: nat)
    requires Decode(ACCESS, BitsOf(bytes), 8 * i) == Done(v, end) && obj.Reads(v)
    ensures AccessFrom(bytes, i, obj)
  {
    hide Decode, ArrayAt, ValueFrom, ArrayValue;
    var b := BitsOf(bytes);
    var inner := BodyDecoded(ACCESS, b, 8 * i, v, end);
    ArrayObjectFirst(ACCESS_FIELDS, NAME, bytes, i, v, inner, obj.name);
    var mid := FirstDecoded(ACCESS_FIELDS.rest, b, 8 * (i + 1 + obj.name.count), v.rest, inner);
    ValueFound(bytes, i + 1 + obj.name.count, obj.value, v.rest.first, mid);
  }

  lemma AccessVerdict(bytes: seq<bv8>)
    ensures Verdict(ACCESS, BitsOf(bytes), 0) == ValueFault(bytes, 1 + Number(bytes, 0, 1))
  {
    hide Decode, Number, ValueFault;
    var b, n := BitsOf(bytes), Number(bytes, 0, 1);
    BodyVerdict(ACCESS, b, 0);
    NameAlwaysFits(bytes);
    ArrayObjectNext(ACCESS_FIELDS, NAME, bytes, 0);
    FirstVerdict(ACCESS_FIELDS.rest, b, 8 * (1 + n));
    ValueVerdict(bytes, 1 + n);
    var r := Decode(VALUE, b, 8 * (1 + n));
    if r.Done? {
      EmptyVerdict(b, r.next);
    }
  }

  /** A length byte never exceeds the capacity of a name. */
  lemma NameAlwaysFits(bytes: seq<bv8>)
    ensures Number(bytes, 0, 1) <= 255
  {
    Pow2Of8();
    FromBitsBound(Read(BitsOf(bytes), 0, 8));
  }

  lemma AccessValidated(obj: AccessRequest)
    ensures Validate(ACCESS, obj.Image())
      == if obj.name.count > 255 then BadArrayLength else Validate(VALUE, obj.value.Image())
  {
    var v := obj.Image();
    ArrayValidated(NAME, obj.name);
    assert Validate(ACCESS_FIELDS.rest, v.rest) == Validate(VALUE, obj.value.Image());
    assert Validate(ACCESS, v) == Validate(ACCESS_FIELDS, v);
  }

  /** What the contract of the serializer says about the bytes. */
  lemma AccessWritten(obj: AccessRequest, was: seq<bool>, bytes: seq<bv8>, at: nat, capacity: nat, r: Status, size: nat)
    requires Serialized(ACCESS, obj.Image(), was, BitsOf(bytes), at, capacity, r, size)
    ensures r == AccessRefusal(obj, capacity) && (r == Ok ==> AccessAt(bytes, at, obj))
  {
    hide Serialized, Decode, Validate, WellFormed, MaxEnd, AccessAt;
    AccessExtent();
    AccessValidated(obj);
    ValueValidated(obj.value);
    WrittenVerdict(ACCESS, obj.Image(), was, BitsOf(bytes), at, capacity, r, size);
    if r == Ok {
      AccessWellFormed();
      WrittenDecodes(ACCESS, obj.Image(), was, bytes, at, capacity, size);
      AccessPlaced(bytes, at, obj, 8 * (at + size));
    }
  }

  /** Why a request is refused, if it is. */
  function AccessRefusal(obj: AccessRequest, capacity: nat): Status {
    if capacity < 515 then BufferTooSmall
    else if obj.name.count > 255 then BadArrayLength
    else if obj.value.tag > 14 then BadUnionTag
    else if obj.value.tag > 0 && ElementCount(obj.value) > MostElements(obj.value.tag) then BadArrayLength
    else Ok
  }

  lemma ValueExtentAt(off: nat)
    requires off % 8 == 0
    ensures MinEnd(VALUE, off) == off + 8 && MaxEnd(VALUE, off) == off + 2072
  {
    ValueExtent();
    ExtentAnywhere(VALUE, off);
  }

  lemma AccessExtent()
    ensures MinEnd(ACCESS, 0) == 16 && MaxEnd(ACCESS, 0) == 4120
  {
    hide MinEnd, MaxEnd;
    EmptyExtent(16);
    EmptyExtent(4120);
    ArrayExtent(NAME, 0);
    ValueExtentAt(8);
    ValueExtentAt(2048);
    ThenExtent(ACCESS_FIELDS.rest, 8, 16, 16, 2048, 4120, 4120);
    ThenExtent(ACCESS_FIELDS, 0, 8, 16, 0, 2048, 4120);
    NestedExtent(ACCESS_FIELDS, 16, 4120);
  }

  method ValueField(buf: array<bv8>, at: nat, capacity: nat, off: nat, obj: RegisterValue,
    ghost job: Job, ghost p: Point)
    returns (r: Status, next: nat, ghost q: Point)
    requires obj.Valid() && Ready(buf, at, capacity, off, job, p) && off % 8 == 0
    requires Next(p, VALUE, obj.Image(), off, 2072, capacity)
    modifies buf
    ensures r != Ok ==> Failed(buf, at, capacity, job, r)
    ensures r == Ok ==> Ready(buf, at, capacity, next, job, q) && Past(q, p) && next % 8 == 0
  {
    ghost var mid := BitsOf(buf[..]);
    var size;
    r, size := SerializeValue(obj, buf, at + off / 8, 259);
    ValueExtent();
    next := off + 8 * size;
    q := NestedField(buf, mid, at, capacity, off, 259, job, p, r, size, next);
  }

  method SerializeAccess(obj: AccessRequest, buf: array<bv8>, at: nat, capacity: nat) returns (r: Status, size: nat)
    requires obj.Valid() && at + capacity <= buf.Length
    modifies buf
    ensures Serialized(ACCESS, obj.Image(), old(BitsOf(buf[..])), BitsOf(buf[..]), at, capacity, r, size)
    ensures r == AccessRefusal(obj, capacity) && (r == Ok ==> AccessAt(buf[..], at, obj))
  {
    ghost var was := BitsOf(buf[..]);
    r, size := EmitAccess(obj, buf, at, capacity);
    AccessWritten(obj, was, buf[..], at, capacity, r, size);
  }

  method EmitAccess(obj: AccessRequest, buf: array<bv8>, at: nat, capacity: nat) returns (r: Status, size: nat)
    requires obj.Valid() && at + capacity <= buf.Length
    modifies buf
    ensures Serialized(ACCESS, obj.Image(), old(BitsOf(buf[..])), BitsOf(buf[..]), at, capacity, r, size)
  {
    ghost var v := obj.Image();
    AccessExtent();
    if 8 * capacity < 4120 {
      return BufferTooSmall, 0;
    }
    var off := 0;
    ghost var job, p := Begin(ACCESS_FIELDS, v, buf, at, capacity);
    r, off, p := ArrayObjectField(buf, at, capacity, off, NAME, obj.name, 256, job, p);
    if r != Ok {
      Refused(ACCESS_FIELDS, v, buf, at, capacity, job, r);
      return r, 0;
    }
    r, off, p := ValueField(buf, at, capacity, off, obj.value, job, p);
    if r != Ok {
      Refused(ACCESS_FIELDS, v, buf, at, capacity, job, r);
      return r, 0;
    }
    r, size := Complete(ACCESS_FIELDS, v, buf, at, capacity, off, job, p);
  }

  method ReadValue(bytes: seq<bv8>, off: nat, ghost whole: Result, ghost c: Cursor)
    returns (r: Status, obj: Option<RegisterValue>, next: nat, ghost v: Value, ghost d: Cursor)
    requires Reading(whole, bytes, off, c) && c.t.Then? && c.t.first == VALUE && off % 8 == 0
    ensures r == Ok ==> obj.Some? && obj.value.Valid() && obj.value.Reads(v)
    ensures r == Ok ==> Reading(whole, bytes, next, d) && After(d, c, v) && next % 8 == 0
    ensures r != Ok ==> whole == Fail(r)
  {
    var size;
    r, obj, size, v := DeserializeValue(Rest(bytes, off));
    next := off + 8 * size;
    d := NestedTaken(whole, bytes, off, c, r, v, size, next);
  }

  method DeserializeAccess(bytes: seq<bv8>) returns (r: Status, obj: Option<AccessRequest>, size: nat, ghost v: Value)
    ensures Deserialized(ACCESS, bytes, r, v, size)
    ensures var d := Decode(ACCESS, BitsOf(bytes), 0);
      if d.Done? then r == Ok && obj.Some? && obj.value.Reads(d.value) else r == d.error
    ensures r == Ok <==> obj.Some? && obj.value.Valid() && obj.value.Reads(v)
    ensures r == ValueFault(bytes, 1 + Number(bytes, 0, 1)) && (r == Ok ==> AccessFrom(bytes, 0, obj.value))
  {
    r, obj, size, v := FetchAccess(bytes);
    AccessVerdict(bytes);
    ghost var end := ReadDecodes(ACCESS, bytes, r, v, size);
    if r == Ok {
      AccessFound(bytes, 0, obj.value, v, end);
    }
  }

  method FetchAccess(bytes: seq<bv8>) returns (r: Status, obj: Option<AccessRequest>, size: nat, ghost v: Value)
    ensures Deserialized(ACCESS, bytes, r, v, size)
    ensures var d := Decode(ACCESS, BitsOf(bytes), 0);
      if d.Done? then r == Ok && obj.Some? && obj.value.Reads(d.value) else r == d.error
    ensures r == Ok <==> obj.Some? && obj.value.Valid() && obj.value.Reads(v)
  {
    obj, v := None, Nothing;
    ghost var whole, c := ReadStart(ACCESS_FIELDS, bytes);
    var off := 0;
    var name, value;
    r, name, off, c := ReadArrayObject(bytes, off, NAME, whole, c);
    if r != Ok {
      Rejected(ACCESS_FIELDS, bytes, whole, r, v);
      return r, obj, 0, v;
    }
    ghost var w;
    r, value, off, w, c := ReadValue(bytes, off, whole, c);
    if r != Ok {
      Rejected(ACCESS_FIELDS, bytes, whole, r, v);
      return r, obj, 0, v;
    }
    v := Pair(ArrayValue(NAME, name), Pair(w, Nothing));
    obj := Some(AccessRequest(name, value.value));
    size := Conclude(bytes, off, ACCESS_FIELDS, whole, c, v);
  }
}
