/** uavcan.file: the requests of Modify.1.0, Modify.1.1 and Write.1.0, and the response of GetInfo.0.2: flags set by
    read-modify-write, void bits through the unaligned copy, truncated integers and nested variable-size paths. */
module FileMessages {
  import opened Bits
  import opened Serialization
  import opened Dsdl
  import opened Sizes
  import opened Codec
  import opened Layout
  import opened Primitive

  // ---------------------------------------------------------------- Modify, request

  /** The two versions differ in the version of the paths. */
  function ModifyFields(path: Type): Type {
    Then(Field(1), Then(Field(1), Then(Void(30), Then(ArrayObject(path), Then(ArrayObject(path), Empty)))))
  }

  function Modify(path: Type): Type { Nested(ModifyFields(path)) }

  predicate IsPath(path: Type) { path == PATH_1_0 || path == PATH_2_0 }

  lemma PathShape(path: Type, inner: nat)
    requires IsPath(path) && inner == 1 + path.capacity
    ensures IsArray(path) && path.unit == 8 && path.prefix == 8 && 8 * inner == path.prefix + path.capacity * path.unit
    ensures path.capacity * path.unit == 8 * path.capacity
  {
  }

  datatype ModifyRequest = ModifyRequest(preserveSource: bool, overwriteDestination: bool,
    source: Elements, destination: Elements)
  {
    predicate Valid(path: Type)
      requires IsPath(path)
    {
      source.Backed(8 * path.capacity) && destination.Backed(8 * path.capacity)
    }

    function Image(path: Type): (v: Value)
      requires IsPath(path)
      ensures Shape(Modify(path), v)
    {
      var paths := Pair(ArrayValue(path, source), Pair(ArrayValue(path, destination), Nothing));
      var v := Pair(Plain([preserveSource]), Pair(Plain([overwriteDestination]), Pair(Nothing, paths)));
      assert Shape(ModifyFields(path).rest.rest, v.rest.rest);
      assert Shape(ModifyFields(path), v);
      v
    }
  }

  /** The two flags in the lowest bits of byte 0, and the two paths one behind the other from byte 4 on. */
  predicate ModifyAt(bytes: seq<bv8>, i: nat, obj: ModifyRequest) {
    && BitIn(bytes, i, 0) == obj.preserveSource && BitIn(bytes, i, 1) == obj.overwriteDestination
    && ArrayAt(bytes, i + 4, 1, 8, obj.source) && ArrayAt(bytes, i + 5 + obj.source.count, 1, 8, obj.destination)
  }

  /** The longest path of the two versions. */
  function PathLimit(path: Type): nat { if path == PATH_1_0 then 112 else 255 }

  predicate ModifyReadable(path: Type, bytes: seq<bv8>) {
    var source := Number(bytes, 4, 1);
    source <= PathLimit(path) && Number(bytes, 5 + source, 1) <= PathLimit(path)
  }

  lemma ModifyWellFormed(path: Type)
    requires IsPath(path)
    ensures WellFormed(Modify(path))
  {
    hide Pow2;
    ArrayWellFormed(path);
    var t := ModifyFields(path);
    assert WellFormed(t.rest.rest.rest);
    assert WellFormed(t.rest);
  }

  lemma ModifyPlaced(path: Type, bytes: seq<bv8>, i: nat, obj: ModifyRequest, end: nat)
    requires IsPath(path) && Decode(Modify(path), BitsOf(bytes), 8 * i) == Done(obj.Image(path), end)
    ensures ModifyAt(bytes, i, obj)
  {
    hide Decode, ArrayAt, ArrayValue;
    var b, v, t := BitsOf(bytes), obj.Image(path), ModifyFields(path);
    var inner := BodyDecoded(Modify(path), b, 8 * i, v, end);
    BitsFirst(t, b, 8 * i, v, inner, 1);
    BitsFirst(t.rest, b, 8 * i + 1, v.rest, inner, 1);
    VoidFirst(t.rest.rest, b, 8 * i + 2, v.rest.rest, inner, 30);
    ArrayObjectFirst(t.rest.rest.rest, path, bytes, i + 4, v.rest.rest.rest, inner, obj.source);
    ArrayObjectFirst(t.rest.rest.rest.rest, path, bytes, i + 5 + obj.source.count, v.rest.rest.rest.rest, inner,
      obj.destination);
  }

  lemma ModifyVerdict(path: Type, bytes: seq<bv8>)
    requires IsPath(path)
    ensures Verdict(Modify(path), BitsOf(bytes), 0) == if ModifyReadable(path, bytes) then Ok else BadArrayLength
  {
    hide Decode, Verdict, Number;
    var b, t := BitsOf(bytes), ModifyFields(path);
    var source := Number(bytes, 4, 1);
    var destination := Number(bytes, 5 + source, 1);
    BodyVerdict(Modify(path), b, 0);
    FieldVerdict(t, b, 0, 1);
    FieldVerdict(t.rest, b, 1, 1);
    FieldVerdict(t.rest.rest, b, 2, 30);
    ArrayObjectNext(t.rest.rest.rest, path, bytes, 4);
    ArrayObjectNext(t.rest.rest.rest.rest, path, bytes, 5 + source);
    EmptyVerdict(b, 8 * (6 + source + destination));
  }

  lemma ModifyValidated(path: Type, obj: ModifyRequest)
    requires IsPath(path)
    ensures Validate(Modify(path), obj.Image(path))
      == if obj.source.count <= PathLimit(path) && obj.destination.count <= PathLimit(path) then Ok else BadArrayLength
  {
    var v, t := obj.Image(path), ModifyFields(path);
    ArrayValidated(path, obj.source);
    ArrayValidated(path, obj.destination);
    assert Validate(t.rest.rest.rest.rest, v.rest.rest.rest.rest)
        == if obj.destination.count <= PathLimit(path) then Ok else BadArrayLength;
    assert Validate(t.rest.rest, v.rest.rest) == Validate(t.rest.rest.rest, v.rest.rest.rest);
    assert Validate(t, v) == Validate(t.rest.rest, v.rest.rest);
  }

  /** What the contract of the serializer says about the bytes. */
  lemma ModifyWritten(path: Type, obj: ModifyRequest, was: seq<bool>, bytes: seq<bv8>, at: nat, capacity: nat,
    r: Status, size: nat)
    requires IsPath(path) && Serialized(Modify(path), obj.Image(path), was, BitsOf(bytes), at, capacity, r, size)
    ensures r == if capacity < 6 + 2 * PathLimit(path) then BufferTooSmall
      else if obj.source.count <= PathLimit(path) && obj.destination.count <= PathLimit(path) then Ok else BadArrayLength
    ensures r == Ok ==> ModifyAt(bytes, at, obj)
  {
    hide Serialized, Decode, Validate, WellFormed, MaxEnd, ModifyAt;
    ModifyExtent(path, 1 + path.capacity);
    ModifyValidated(path, obj);
    WrittenVerdict(Modify(path), obj.Image(path), was, BitsOf(bytes), at, capacity, r, size);
    if r == Ok {
      ModifyWellFormed(path);
      WrittenDecodes(Modify(path), obj.Image(path), was, bytes, at, capacity, size);
      ModifyPlaced(path, bytes, at, obj, 8 * (at + size));
    }
  }

  lemma PathExtent(path: Type, off: nat, end: nat)
    requires IsPath(path) && off % 8 == 0 && end == off + 8 * (1 + path.capacity)
    ensures MinEnd(ArrayObject(path), off) == off + 8 && MaxEnd(ArrayObject(path), off) == end
  {
    PathShape(path, 1 + path.capacity);
    WholeBytes(path.capacity, path.unit);
    ArrayExtent(path, off);
  }

  lemma PathsExtent(path: Type, inner: nat)
    requires IsPath(path) && inner == 1 + path.capacity
    ensures var paths := Then(ArrayObject(path), Then(ArrayObject(path), Empty));
      MinEnd(paths, 32) == 48 && MaxEnd(paths, 32) == 32 + 16 * inner
  {
    var mid, end := 32 + 8 * inner, 32 + 16 * inner;
    WholeSum(32, 8 * inner, 0);
    PathExtent(path, 32, mid);
    PathExtent(path, 40, 40 + 8 * inner);
    PathExtent(path, mid, end);
    ThenExtent(Then(ArrayObject(path), Empty), 40, 48, 48, mid, end, end);
    ThenExtent(Then(ArrayObject(path), Then(ArrayObject(path), Empty)), 32, 40, 48, 32, mid, end);
  }

  lemma ModifyExtent(path: Type, inner: nat)
    requires IsPath(path) && inner == 1 + path.capacity
    ensures MinEnd(Modify(path), 0) == 48 && MaxEnd(Modify(path), 0) == 32 + 16 * inner
  {
    var t := ModifyFields(path);
    PathsExtent(path, inner);
    ThenExtent(t.rest.rest, 2, 32, 48, 2, 32, 32 + 16 * inner);
    ThenExtent(t.rest, 1, 2, 48, 1, 2, 32 + 16 * inner);
    ThenExtent(t, 0, 1, 48, 0, 1, 32 + 16 * inner);
    NestedExtent(t, 48, 32 + 16 * inner);
  }

  /** The two flags and the 30 void bits, which start inside the byte of the flags. */
  method ModifyHeader(ghost path: Type, obj: ModifyRequest, buf: array<bv8>, at: nat, capacity: nat, off: nat,
    ghost job: Job, ghost p: Point) returns (r: Status, next: nat, ghost q: Point)
    requires IsPath(path) && Ready(buf, at, capacity, off, job, p) && off == 0 && 32 <= 8 * capacity
    requires p.t == ModifyFields(path) && p.v == obj.Image(path)
    modifies buf
    ensures r == Ok && Ready(buf, at, capacity, next, job, q) && next == 32 && next % 8 == 0
    ensures q.t == p.t.rest.rest.rest && q.v == p.v.rest.rest.rest
  {
    next, q := FirstFlagField(buf, at, capacity, off, obj.preserveSource, job, p);
    next, q := FlagField(buf, at, capacity, next, obj.overwriteDestination, job, q);
    r, next, q := VoidField(buf, at, capacity, next, 30, job, q);
    WholeBits(next, 4);
  }

  /** The two paths. */
  method ModifyPaths(path: Type, obj: ModifyRequest, buf: array<bv8>, at: nat, capacity: nat, off: nat, inner: nat,
    ghost job: Job, ghost p: Point) returns (r: Status, next: nat, ghost q: Point)
    requires IsPath(path) && obj.Valid(path) && inner == 1 + path.capacity
    requires Ready(buf, at, capacity, off, job, p) && off % 8 == 0 && off + 16 * inner <= 8 * capacity
    requires p.t == Then(ArrayObject(path), Then(ArrayObject(path), Empty))
    requires p.v == Pair(ArrayValue(path, obj.source), Pair(ArrayValue(path, obj.destination), Nothing))
    modifies buf
    ensures r != Ok ==> Failed(buf, at, capacity, job, r)
    ensures r == Ok ==> Ready(buf, at, capacity, next, job, q) && q.t.Empty?
  {
    PathShape(path, inner);
    r, next, q := ArrayObjectField(buf, at, capacity, off, path, obj.source, inner, job, p);
    if r == Ok {
      r, next, q := ArrayObjectField(buf, at, capacity, next, path, obj.destination, inner, job, q);
    }
  }

  method SerializeModify(path: Type, obj: ModifyRequest, buf: array<bv8>, at: nat, capacity: nat)
    returns (r: Status, size: nat)
    requires IsPath(path) && obj.Valid(path) && at + capacity <= buf.Length
    modifies buf
    ensures Serialized(Modify(path), obj.Image(path), old(BitsOf(buf[..])), BitsOf(buf[..]), at, capacity, r, size)
    ensures r == if capacity < 6 + 2 * PathLimit(path) then BufferTooSmall
      else if obj.source.count <= PathLimit(path) && obj.destination.count <= PathLimit(path) then Ok else BadArrayLength
    ensures r == Ok ==> ModifyAt(buf[..], at, obj)
  {
    ghost var was := BitsOf(buf[..]);
    r, size := EmitModify(path, obj, buf, at, capacity);
    ModifyWritten(path, obj, was, buf[..], at, capacity, r, size);
  }

  method EmitModify(path: Type, obj: ModifyRequest, buf: array<bv8>, at: nat, capacity: nat)
    returns (r: Status, size: nat)
    requires IsPath(path) && obj.Valid(path) && at + capacity <= buf.Length
    modifies buf
    ensures Serialized(Modify(path), obj.Image(path), old(BitsOf(buf[..])), BitsOf(buf[..]), at, capacity, r, size)
  {
    hide Ready, Runs, Serialized, MinEnd, MaxEnd;
    ghost var t, v := ModifyFields(path), obj.Image(path);
    var inner := 1 + path.capacity;
    ModifyExtent(path, inner);
    if 8 * capacity < 32 + 16 * inner {
      TooSmall(Modify(path), v, BitsOf(buf[..]), at, capacity);
      return BufferTooSmall, 0;
    }
    var off := 0;
    ghost var job, p := Begin(t, v, buf, at, capacity);
    r, off, p := ModifyHeader(path, obj, buf, at, capacity, off, job, p);
    r, off, p := ModifyPaths(path, obj, buf, at, capacity, off, inner, job, p);
    if r != Ok {
      Refused(t, v, buf, at, capacity, job, r);
      return r, 0;
    }
    r, size := Complete(t, v, buf, at, capacity, off, job, p);
  }

  method ReadModifyHeader(bytes: seq<bv8>, ghost path: Type, ghost whole: Result, ghost c: Cursor)
    returns (preserveSource: bool, overwriteDestination: bool, next: nat, ghost d: Cursor)
    requires Reading(whole, bytes, 0, c) && c.t == ModifyFields(path)
    ensures next % 8 == 0 && Reading(whole, bytes, next, d) && d.t == c.t.rest.rest.rest
    ensures forall x ::
      d.wrap(x) == c.wrap(Pair(Plain([preserveSource]), Pair(Plain([overwriteDestination]), Pair(Nothing, x))))
  {
    preserveSource, overwriteDestination, next, d := ReadTwoFlags(bytes, 0, whole, c);
    ghost var was := next;
    next := next + 30;
    d := SkipVoid(bytes, was, 30, next, whole, d);
    WholeBits(next, 4);
  }

  method DeserializeModify(path: Type, bytes: seq<bv8>) returns (r: Status, obj: Option<ModifyRequest>, size: nat)
    requires IsPath(path)
    ensures r == Ok <==> obj.Some? && obj.value.Valid(path)
    ensures Deserialized(Modify(path), bytes, r, if r == Ok then obj.value.Image(path) else Nothing, size)
    ensures r == (if ModifyReadable(path, bytes) then Ok else BadArrayLength) && (r == Ok ==> ModifyAt(bytes, 0, obj.value))
  {
    r, obj, size := FetchModify(path, bytes);
    ModifyVerdict(path, bytes);
    ghost var end := ReadDecodes(Modify(path), bytes, r, if r == Ok then obj.value.Image(path) else Nothing, size);
    if r == Ok {
      ModifyPlaced(path, bytes, 0, obj.value, end);
    }
  }

  method FetchModify(path: Type, bytes: seq<bv8>) returns (r: Status, obj: Option<ModifyRequest>, size: nat)
    requires IsPath(path)
    ensures r == Ok <==> obj.Some? && obj.value.Valid(path)
    ensures Deserialized(Modify(path), bytes, r, if r == Ok then obj.value.Image(path) else Nothing, size)
  {
    obj := None;
    ghost var t := ModifyFields(path);
    ghost var whole, c := ReadStart(t, bytes);
    var off := 0;
    var preserveSource, overwriteDestination, source, destination;
    preserveSource, overwriteDestination, off, c := ReadModifyHeader(bytes, path, whole, c);
    PathShape(path, 1 + path.capacity);
    r, source, off, c := ReadArrayObject(bytes, off, path, whole, c);
    if r != Ok {
      Rejected(t, bytes, whole, r, Nothing);
      return r, obj, 0;
    }
    r, destination, off, c := ReadArrayObject(bytes, off, path, whole, c);
    if r != Ok {
      Rejected(t, bytes, whole, r, Nothing);
      return r, obj, 0;
    }
    obj := Some(ModifyRequest(preserveSource, overwriteDestination, source, destination));
    size := Conclude(bytes, off, t, whole, c, obj.value.Image(path));
  }

  // ---------------------------------------------------------------- Write.1.0, request

  const DATA := Blob(8, 8, 192)
  const WRITE_FIELDS := Then(Field(40), Then(ArrayObject(PATH_1_0), Then(DATA, Empty)))
  const WRITE := Nested(WRITE_FIELDS)

  datatype WriteRequest = WriteRequest(offset: u64, path: Elements, data: Elements) {
    predicate Valid() { path.Backed(8 * 112) && data.Backed(8 * 192) }

    function Image(): (v: Value)
      ensures Shape(WRITE, v)
    {
      BlobEncoded(DATA, data.Image(8), data.count, 0);
      var v := Pair(Plain(ToBits(offset, 40)), Pair(ArrayValue(PATH_1_0, path), Pair(data.Image(8), Nothing)));
      assert Shape(WRITE_FIELDS, v);
      v
    }
  }

  /** The truncated offset in five bytes, then the path and the data. */
  predicate WriteAt(bytes: seq<bv8>, i: nat, obj: WriteRequest) {
    && Number(bytes, i, 5) == obj.offset % 0x100_0000_0000
    && ArrayAt(bytes, i + 5, 1, 8, obj.path) && ArrayAt(bytes, i + 6 + obj.path.count, 1, 8, obj.data)
  }

  predicate WriteReadable(bytes: seq<bv8>) {
    var path := Number(bytes, 5, 1);
    path <= 112 && Number(bytes, 6 + path, 1) <= 192
  }

  lemma WriteWellFormed()
    ensures WellFormed(WRITE)
  {
    Pow2Of8();
    ArrayWellFormed(PATH_1_0);
    assert WellFormed(WRITE_FIELDS.rest.rest);
    assert WellFormed(WRITE_FIELDS.rest);
  }

  lemma WritePlaced(bytes: seq<bv8>, i: nat, obj: WriteRequest, end: nat)
    requires Decode(WRITE, BitsOf(bytes), 8 * i) == Done(obj.Image(), end)
    ensures WriteAt(bytes, i, obj)
  {
    hide Decode, Number, Pow2, ToBits, ArrayAt, ArrayValue;
    Pow2Of40();
    var b, v, t := BitsOf(bytes), obj.Image(), WRITE_FIELDS;
    var j := i + 6 + obj.path.count;
    var inner := BodyDecoded(WRITE, b, 8 * i, v, end);
    CountFirst(t, bytes, i, v, inner, 5, obj.offset);
    ArrayObjectFirst(t.rest, PATH_1_0, bytes, i + 5, v.rest, inner, obj.path);
    ArrayFirst(t.rest.rest, bytes, j, 1, v.rest.rest, inner, obj.data, 8 * (j + 1 + obj.data.count));
  }

  lemma WriteVerdict(bytes: seq<bv8>)
    ensures Verdict(WRITE, BitsOf(bytes), 0) == if WriteReadable(bytes) then Ok else BadArrayLength
  {
    hide Decode, Verdict, Number;
    var b, t := BitsOf(bytes), WRITE_FIELDS;
    var path := Number(bytes, 5, 1);
    var data := Number(bytes, 6 + path, 1);
    BodyVerdict(WRITE, b, 0);
    FieldVerdict(t, b, 0, 40);
    ArrayObjectNext(t.rest, PATH_1_0, bytes, 5);
    ArrayVerdict(t.rest.rest, bytes, 6 + path, 1, 8 * (7 + path + data));
    EmptyVerdict(b, 8 * (7 + path + data));
  }

  lemma WriteValidated(obj: WriteRequest)
    ensures Validate(WRITE, obj.Image()) == if obj.path.count > 112 || obj.data.count > 192 then BadArrayLength else Ok
  {
    var v := obj.Image();
    ArrayValidated(PATH_1_0, obj.path);
    BlobEncoded(DATA, obj.data.Image(8), obj.data.count, 0);
    assert Validate(WRITE_FIELDS.rest.rest, v.rest.rest) == if obj.data.count > 192 then BadArrayLength else Ok;
    assert Validate(WRITE_FIELDS.rest, v.rest)
        == if obj.path.count > 112 || obj.data.count > 192 then BadArrayLength else Ok;
    assert Validate(WRITE_FIELDS, v) == Validate(WRITE_FIELDS.rest, v.rest);
  }

  /** What the contract of the serializer says about the bytes. */
  lemma WriteWritten(obj: WriteRequest, was: seq<bool>, bytes: seq<bv8>, at: nat, capacity: nat, r: Status, size: nat)
    requires Serialized(WRITE, obj.Image(), was, BitsOf(bytes), at, capacity, r, size)
    ensures r == if capacity < 311 then BufferTooSmall
      else if obj.path.count > 112 || obj.data.count > 192 then BadArrayLength else Ok
    ensures r == Ok ==> WriteAt(bytes, at, obj)
  {
    hide Serialized, Decode, Validate, WellFormed, MaxEnd, WriteAt;
    WriteExtent();
    WriteValidated(obj);
    WrittenVerdict(WRITE, obj.Image(), was, BitsOf(bytes), at, capacity, r, size);
    if r == Ok {
      WriteWellFormed();
      WrittenDecodes(WRITE, obj.Image(), was, bytes, at, capacity, size);
      WritePlaced(bytes, at, obj, 8 * (at + size));
    }
  }

  lemma WriteExtent()
    ensures MinEnd(WRITE, 0) == 56 && MaxEnd(WRITE, 0) == 2488
  {
    PathExtent(PATH_1_0, 40, 944);
    ThenExtent(Then(DATA, Empty), 48, 56, 56, 944, 2488, 2488);
    ThenExtent(WRITE_FIELDS.rest, 40, 48, 56, 40, 944, 2488);
    ThenExtent(WRITE_FIELDS, 0, 40, 56, 0, 40, 2488);
    NestedExtent(WRITE_FIELDS, 56, 2488);
  }

  method SerializeWrite(obj: WriteRequest, buf: array<bv8>, at: nat, capacity: nat) returns (r: Status, size: nat)
    requires obj.Valid() && at + capacity <= buf.Length
    modifies buf
    ensures Serialized(WRITE, obj.Image(), old(BitsOf(buf[..])), BitsOf(buf[..]), at, capacity, r, size)
    ensures r == if capacity < 311 then BufferTooSmall
      else if obj.path.count > 112 || obj.data.count > 192 then BadArrayLength else Ok
    ensures r == Ok ==> WriteAt(buf[..], at, obj)
  {
    ghost var was := BitsOf(buf[..]);
    r, size := EmitWrite(obj, buf, at, capacity);
    WriteWritten(obj, was, buf[..], at, capacity, r, size);
  }

  method EmitWrite(obj: WriteRequest, buf: array<bv8>, at: nat, capacity: nat) returns (r: Status, size: nat)
    requires obj.Valid() && at + capacity <= buf.Length
    modifies buf
    ensures Serialized(WRITE, obj.Image(), old(BitsOf(buf[..])), BitsOf(buf[..]), at, capacity, r, size)
  {
    ghost var v := obj.Image();
    WriteExtent();
    if 8 * capacity < 2488 {
      return BufferTooSmall, 0;
    }
    var off := 0;
    ghost var job, p := Begin(WRITE_FIELDS, v, buf, at, capacity);
    off, p := IntegerField(buf, at, capacity, off, obj.offset, 5, job, p);
    r, off, p := ArrayObjectField(buf, at, capacity, off, PATH_1_0, obj.path, 113, job, p);
    if r != Ok {
      Refused(WRITE_FIELDS, v, buf, at, capacity, job, r);
      return r, 0;
    }
    r, off, p := ByteArrayField(buf, at, capacity, off, DATA, obj.data, job, p);
    if r != Ok {
      Refused(WRITE_FIELDS, v, buf, at, capacity, job, r);
      return r, 0;
    }
    r, size := Complete(WRITE_FIELDS, v, buf, at, capacity, off, job, p);
  }

  method DeserializeWrite(bytes: seq<bv8>) returns (r: Status, obj: Option<WriteRequest>, size: nat)
    ensures r == Ok <==> obj.Some? && obj.value.Valid()
    ensures Deserialized(WRITE, bytes, r, if r == Ok then obj.value.Image() else Nothing, size)
    ensures r == if WriteReadable(bytes) then Ok else BadArrayLength
    ensures r == Ok ==> obj.value.offset == Number(bytes, 0, 5) && WriteAt(bytes, 0, obj.value)
  {
    hide Decode, Number, Pow2;
    r, obj, size := FetchWrite(bytes);
    WriteVerdict(bytes);
    Pow2Of40();
    ghost var end := ReadDecodes(WRITE, bytes, r, if r == Ok then obj.value.Image() else Nothing, size);
    if r == Ok {
      WritePlaced(bytes, 0, obj.value, end);
    }
  }

  method FetchWrite(bytes: seq<bv8>) returns (r: Status, obj: Option<WriteRequest>, size: nat)
    ensures r == Ok <==> obj.Some? && obj.value.Valid()
    ensures r == Ok ==> obj.value.offset < Pow2(40)
    ensures Deserialized(WRITE, bytes, r, if r == Ok then obj.value.Image() else Nothing, size)
  {
    hide Pow2;
    obj := None;
    ghost var whole, c := ReadStart(WRITE_FIELDS, bytes);
    var off := 0;
    var offset, path, data;
    offset, off, c := ReadInteger(bytes, off, 64, 40, whole, c);
    r, path, off, c := ReadArrayObject(bytes, off, PATH_1_0, whole, c);
    if r != Ok {
      Rejected(WRITE_FIELDS, bytes, whole, r, Nothing);
      return r, obj, 0;
    }
    r, data, off, c := ReadByteArray(bytes, off, DATA, whole, c);
    if r != Ok {
      Rejected(WRITE_FIELDS, bytes, whole, r, Nothing);
      return r, obj, 0;
    }
    obj := Some(WriteRequest(offset, path, data));
    size := Conclude(bytes, off, WRITE_FIELDS, whole, c, obj.value.Image());
  }

  // ---------------------------------------------------------------- GetInfo.0.2, response

  type u16 = n: nat | n < 0x1_0000

  const ERROR_FIELDS := Then(Field(16), Empty)
  const ERROR := Nested(ERROR_FIELDS)
  const FLAGS := Then(Field(1), Then(Field(1), Then(Field(1), Then(Field(1), Then(Void(4), Empty)))))
  const FILE_INFO_FIELDS := Then(ERROR, Then(Field(40), Then(Field(40), FLAGS)))
  const FILE_INFO := Nested(FILE_INFO_FIELDS)

  function ErrorImage(error: u16): (v: Value)
    ensures Fits(ERROR, v) && Shape(ERROR, v)
  {
    Pair(Plain(ToBits(error, 16)), Nothing)
  }

  datatype FileInfo = FileInfo(error: u16, size: u64, modified: u64,
    isFile: bool, isLink: bool, isReadable: bool, isWriteable: bool)
  {
    function Flags(): (v: Value)
      ensures Shape(FLAGS, v)
    {
      var v := Pair(Plain([isReadable]), Pair(Plain([isWriteable]), Pair(Nothing, Nothing)));
      assert Shape(FLAGS.rest.rest, v);
      Pair(Plain([isFile]), Pair(Plain([isLink]), v))
    }

    function Image(): (v: Value)
      ensures Shape(FILE_INFO, v)
    {
      var v := Pair(ErrorImage(error), Pair(Plain(ToBits(size, 40)), Pair(Plain(ToBits(modified, 40)), Flags())));
      assert Shape(FILE_INFO_FIELDS, v);
      v
    }
  }

  lemma ErrorExtent(off: nat)
    requires off % 8 == 0
    ensures MinEnd(ERROR, off) == off + 16 == MaxEnd(ERROR, off)
  {
    assert MinEnd(ERROR_FIELDS, off) == off + 16 == MaxEnd(ERROR_FIELDS, off);
  }

  lemma FileInfoExtent()
    ensures MinEnd(FILE_INFO, 0) == 104 == MaxEnd(FILE_INFO, 0)
  {
    ErrorExtent(0);
    ThenExtent(FLAGS.rest.rest.rest, 99, 100, 104, 99, 100, 104);
    ThenExtent(FLAGS.rest.rest, 98, 99, 104, 98, 99, 104);
    ThenExtent(FLAGS.rest, 97, 98, 104, 97, 98, 104);
    ThenExtent(FLAGS, 96, 97, 104, 96, 97, 104);
    ThenExtent(FILE_INFO_FIELDS.rest.rest, 56, 96, 104, 56, 96, 104);
    ThenExtent(FILE_INFO_FIELDS.rest, 16, 56, 104, 16, 56, 104);
    ThenExtent(FILE_INFO_FIELDS, 0, 16, 104, 0, 16, 104);
    NestedExtent(FILE_INFO_FIELDS, 104, 104);
  }

  lemma ErrorWellFormed()
    ensures WellFormed(ERROR)
  {
    assert WellFormed(ERROR_FIELDS);
  }

  lemma ErrorPlaced(bytes: seq<bv8>, i: nat, error: u16, end: nat)
    requires Decode(ERROR, BitsOf(bytes), 8 * i) == Done(ErrorImage(error), end)
    ensures Number(bytes, i, 2) == error && end == 8 * (i + 2)
  {
    hide Decode, Number, Pow2, ToBits;
    NativePowers();
    var inner := BodyDecoded(ERROR, BitsOf(bytes), 8 * i, ErrorImage(error), end);
    WholeFirst(ERROR_FIELDS, bytes, i, ErrorImage(error), inner, 2, error);
    EmptyDecoded(BitsOf(bytes), 8 * (i + 2), ErrorImage(error).rest, inner);
  }

  /** The error in two bytes, two truncated numbers of five bytes, and the four flags in the low half of byte 12. */
  predicate FileInfoAt(bytes: seq<bv8>, i: nat, obj: FileInfo) {
    && Number(bytes, i, 2) == obj.error
    && Number(bytes, i + 2, 5) == obj.size % 0x100_0000_0000 && Number(bytes, i + 7, 5) == obj.modified % 0x100_0000_0000
    && BitIn(bytes, i + 12, 0) == obj.isFile && BitIn(bytes, i + 12, 1) == obj.isLink
    && BitIn(bytes, i + 12, 2) == obj.isReadable && BitIn(bytes, i + 12, 3) == obj.isWriteable
  }

  lemma FileInfoWellFormed()
    ensures WellFormed(FILE_INFO)
  {
    ErrorWellFormed();
    assert WellFormed(FLAGS.rest.rest);
    assert WellFormed(FLAGS);
    assert WellFormed(FILE_INFO_FIELDS.rest);
  }

  lemma FileInfoPlaced(bytes: seq<bv8>, i: nat, obj: FileInfo, end: nat)
    requires Decode(FILE_INFO, BitsOf(bytes), 8 * i) == Done(obj.Image(), end)
    ensures FileInfoAt(bytes, i, obj)
  {
    hide Decode, Number, Pow2, ToBits, BitIn;
    Pow2Of40();
    var b, v, t := BitsOf(bytes), obj.Image(), FILE_INFO_FIELDS;
    var inner := BodyDecoded(FILE_INFO, b, 8 * i, v, end);
    var mid := FirstDecoded(t, b, 8 * i, v, inner);
    ErrorPlaced(bytes, i, obj.error, mid);
    CountFirst(t.rest, bytes, i + 2, v.rest, inner, 5, obj.size);
    CountFirst(t.rest.rest, bytes, i + 7, v.rest.rest, inner, 5, obj.modified);
    FlagsPlaced(bytes, i + 12, obj, inner);
  }

  lemma FlagsPlaced(bytes: seq<bv8>, i: nat, obj: FileInfo, end: nat)
    requires Decode(FLAGS, BitsOf(bytes), 8 * i) == Done(obj.Flags(), end)
    ensures BitIn(bytes, i, 0) == obj.isFile && BitIn(bytes, i, 1) == obj.isLink
    ensures BitIn(bytes, i, 2) == obj.isReadable && BitIn(bytes, i, 3) == obj.isWriteable
  {
    hide Decode;
    var b, v := BitsOf(bytes), obj.Flags();
    BitsFirst(FLAGS, b, 8 * i, v, end, 1);
    BitsFirst(FLAGS.rest, b, 8 * i + 1, v.rest, end, 1);
    BitsFirst(FLAGS.rest.rest, b, 8 * i + 2, v.rest.rest, end, 1);
    BitsFirst(FLAGS.rest.rest.rest, b, 8 * i + 3, v.rest.rest.rest, end, 1);
  }

  method SerializeError(error: u16, buf: array<bv8>, at: nat, capacity: nat) returns (r: Status, size: nat)
    requires at + capacity <= buf.Length
    modifies buf
    ensures Serialized(ERROR, ErrorImage(error), old(BitsOf(buf[..])), BitsOf(buf[..]), at, capacity, r, size)
    ensures r == (if capacity < 2 then BufferTooSmall else Ok) && (r == Ok ==> Number(buf[..], at, 2) == error)
  {
    hide Ready, Runs, Serialized, MinEnd, MaxEnd, WellFormed, Decode, Number;
    ErrorExtent(0);
    if 8 * capacity < 16 {
      TooSmall(ERROR, ErrorImage(error), BitsOf(buf[..]), at, capacity);
      return BufferTooSmall, 0;
    }
    var off := 0;
    ghost var job, p := Begin(ERROR_FIELDS, ErrorImage(error), buf, at, capacity);
    off, p := IntegerField(buf, at, capacity, off, error, 2, job, p);
    r, size := Complete(ERROR_FIELDS, ErrorImage(error), buf, at, capacity, off, job, p);
    ErrorWellFormed();
    WrittenDecodes(ERROR, ErrorImage(error), job.was, buf[..], at, capacity, size);
    ErrorPlaced(buf[..], at, error, 8 * (at + size));
  }

  method DeserializeError(bytes: seq<bv8>) returns (r: Status, error: u16, size: nat)
    ensures r == Ok && Deserialized(ERROR, bytes, r, ErrorImage(error), size) && error == Number(bytes, 0, 2)
  {
    ghost var whole, c := ReadStart(ERROR_FIELDS, bytes);
    var off := 0;
    error, off, c := ReadInteger(bytes, off, 16, 16, whole, c);
    size := Conclude(bytes, off, ERROR_FIELDS, whole, c, ErrorImage(error));
    r := Ok;
    ghost var end := ReadDecodes(ERROR, bytes, r, ErrorImage(error), size);
    ErrorPlaced(bytes, 0, error, end);
  }

  method ErrorField(buf: array<bv8>, at: nat, capacity: nat, off: nat, error: u16, ghost job: Job, ghost p: Point)
    returns (r: Status, next: nat, ghost q: Point)
    requires Ready(buf, at, capacity, off, job, p) && off % 8 == 0
    requires Next(p, ERROR, ErrorImage(error), off, 16, capacity)
    modifies buf
    ensures r == Ok && Ready(buf, at, capacity, next, job, q) && Past(q, p) && next == off + 16 && next % 8 == 0
  {
    ghost var mid := BitsOf(buf[..]);
    var size;
    r, size := SerializeError(error, buf, at + off / 8, 2);
    ErrorExtent(0);
    next := off + 8 * size;
    q := NestedField(buf, mid, at, capacity, off, 2, job, p, r, size, next);
  }

  /** Four flags, the first of which stores its whole byte, and four void bits. */
  method FlagsField(obj: FileInfo, buf: array<bv8>, at: nat, capacity: nat, off: nat, ghost job: Job, ghost p: Point)
    returns (r: Status, next: nat, ghost q: Point)
    requires Ready(buf, at, capacity, off, job, p) && off % 8 == 0 && off + 8 <= 8 * capacity
    requires p.t == FLAGS && p.v == obj.Flags()
    modifies buf
    ensures r == Ok && Ready(buf, at, capacity, next, job, q) && q.t.Empty? && next == off + 8
  {
    next, q := FirstFlagField(buf, at, capacity, off, obj.isFile, job, p);
    next, q := FlagField(buf, at, capacity, next, obj.isLink, job, q);
    next, q := FlagField(buf, at, capacity, next, obj.isReadable, job, q);
    next, q := FlagField(buf, at, capacity, next, obj.isWriteable, job, q);
    r, next, q := VoidField(buf, at, capacity, next, 4, job, q);
  }

  /** The error, the two truncated 40-bit integers, and the flags. */
  method FileInfoBody(obj: FileInfo, buf: array<bv8>, at: nat, capacity: nat, off: nat, ghost job: Job, ghost p: Point)
    returns (r: Status, next: nat, ghost q: Point)
    requires Ready(buf, at, capacity, off, job, p) && off % 8 == 0 && off + 104 <= 8 * capacity
    requires p.t == FILE_INFO_FIELDS && p.v == obj.Image()
    modifies buf
    ensures r == Ok && Ready(buf, at, capacity, next, job, q) && next == off + 104 && q.t.Empty?
  {
    r, next, q := ErrorField(buf, at, capacity, off, obj.error, job, p);
    next, q := IntegerField(buf, at, capacity, next, obj.size, 5, job, q);
    next, q := IntegerField(buf, at, capacity, next, obj.modified, 5, job, q);
    r, next, q := FlagsField(obj, buf, at, capacity, next, job, q);
  }

  method SerializeFileInfo(obj: FileInfo, buf: array<bv8>, at: nat, capacity: nat) returns (r: Status, size: nat)
    requires at + capacity <= buf.Length
    modifies buf
    ensures Serialized(FILE_INFO, obj.Image(), old(BitsOf(buf[..])), BitsOf(buf[..]), at, capacity, r, size)
    ensures r == (if capacity < 13 then BufferTooSmall else Ok) && (r == Ok ==> FileInfoAt(buf[..], at, obj))
  {
    hide Ready, Runs, Serialized, MinEnd, MaxEnd, WellFormed, Decode, FileInfoAt;
    ghost var v := obj.Image();
    FileInfoExtent();
    if 8 * capacity < 104 {
      TooSmall(FILE_INFO, v, BitsOf(buf[..]), at, capacity);
      return BufferTooSmall, 0;
    }
    var off := 0;
    ghost var job, p := Begin(FILE_INFO_FIELDS, v, buf, at, capacity);
    r, off, p := FileInfoBody(obj, buf, at, capacity, off, job, p);
    r, size := Complete(FILE_INFO_FIELDS, v, buf, at, capacity, off, job, p);
    FileInfoWellFormed();
    WrittenDecodes(FILE_INFO, v, job.was, buf[..], at, capacity, size);
    FileInfoPlaced(buf[..], at, obj, 8 * (at + size));
  }

  method ReadTwoFlags(bytes: seq<bv8>, off: nat, ghost whole: Result, ghost c: Cursor)
    returns (first: bool, second: bool, next: nat, ghost d: Cursor)
    requires Reading(whole, bytes, off, c) && c.t.Then? && c.t.first == Field(1)
    requires c.t.rest.Then? && c.t.rest.first == Field(1)
    ensures Reading(whole, bytes, next, d) && d.t == c.t.rest.rest && next == off + 2
    ensures forall x :: d.wrap(x) == c.wrap(Pair(Plain([first]), Pair(Plain([second]), x)))
  {
    first, next, d := ReadFlag(bytes, off, whole, c);
    second, next, d := ReadFlag(bytes, next, whole, d);
  }

  method ReadFlags(bytes: seq<bv8>, off: nat, ghost whole: Result, ghost c: Cursor)
    returns (first: bool, second: bool, third: bool, fourth: bool, next: nat, ghost d: Cursor)
    requires Reading(whole, bytes, off, c) && c.t == FLAGS
    ensures Reading(whole, bytes, next, d) && d.t.Empty? && next == off + 8
    ensures d.wrap(Nothing)
      == c.wrap(Pair(Plain([first]), Pair(Plain([second]),
           Pair(Plain([third]), Pair(Plain([fourth]), Pair(Nothing, Nothing))))))
  {
    first, second, next, d := ReadTwoFlags(bytes, off, whole, c);
    third, fourth, next, d := ReadTwoFlags(bytes, next, whole, d);
    ghost var was := next;
    next := next + 4;
    d := SkipVoid(bytes, was, 4, next, whole, d);
  }

  method ReadError(bytes: seq<bv8>, off: nat, ghost whole: Result, ghost c: Cursor)
    returns (r: Status, error: u16, next: nat, ghost d: Cursor)
    requires Reading(whole, bytes, off, c) && c.t.Then? && c.t.first == ERROR && off % 8 == 0
    ensures r == Ok && Reading(whole, bytes, next, d) && After(d, c, ErrorImage(error)) && next % 8 == 0
  {
    var size;
    r, error, size := DeserializeError(Rest(bytes, off));
    next := off + 8 * size;
    d := NestedTaken(whole, bytes, off, c, r, ErrorImage(error), size, next);
  }

  method DeserializeFileInfo(bytes: seq<bv8>) returns (r: Status, obj: FileInfo, size: nat)
    ensures r == Ok && Deserialized(FILE_INFO, bytes, r, obj.Image(), size)
    ensures obj.size == Number(bytes, 2, 5) && obj.modified == Number(bytes, 7, 5) && FileInfoAt(bytes, 0, obj)
  {
    hide Decode, Number, Pow2;
    r, obj, size := FetchFileInfo(bytes);
    Pow2Of40();
    ghost var end := ReadDecodes(FILE_INFO, bytes, r, obj.Image(), size);
    FileInfoPlaced(bytes, 0, obj, end);
  }

  method FetchFileInfo(bytes: seq<bv8>) returns (r: Status, obj: FileInfo, size: nat)
    ensures r == Ok && Deserialized(FILE_INFO, bytes, r, obj.Image(), size)
    ensures obj.size < Pow2(40) && obj.modified < Pow2(40)
  {
    hide Pow2, Decode;
    ghost var whole, c := ReadStart(FILE_INFO_FIELDS, bytes);
    var off := 0;
    var error, length, modified, isFile, isLink, isReadable, isWriteable;
    r, error, off, c := ReadError(bytes, off, whole, c);
    length, off, c := ReadInteger(bytes, off, 64, 40, whole, c);
    modified, off, c := ReadInteger(bytes, off, 64, 40, whole, c);
    isFile, isLink, isReadable, isWriteable, off, c := ReadFlags(bytes, off, whole, c);
    obj := FileInfo(error, length, modified, isFile, isLink, isReadable, isWriteable);
    size := Conclude(bytes, off, FILE_INFO_FIELDS, whole, c, obj.Image());
  }
}
