/** uavcan.node.Version.1.0 and the response of uavcan.node.GetInfo.1.0: nested objects, a fixed array and three variable
    arrays. */
module NodeInfo {
  import opened Bits
  import opened Serialization
  import opened Dsdl
  import opened Sizes
  import opened Codec
  import opened Layout

  // ---------------------------------------------------------------- uavcan.node.Version.1.0

  const VERSION_FIELDS := Then(Field(8), Then(Field(8), Empty))
  const VERSION := Nested(VERSION_FIELDS)

  datatype Version = Version(major: u8, minor: u8) {
    function Image(): (v: Value)
      ensures Fits(VERSION, v)
    {
      Pair(Plain(ToBits(major, 8)), Pair(Plain(ToBits(minor, 8)), Nothing))
    }
  }

  /** Two bytes, the major number first. */
  predicate VersionAt(bytes: seq<bv8>, i: nat, obj: Version) {
    Number(bytes, i, 1) == obj.major && Number(bytes, i + 1, 1) == obj.minor
  }

  lemma VersionWellFormed()
    ensures WellFormed(VERSION)
  {
    assert WellFormed(VERSION_FIELDS);
  }

  lemma VersionPlaced(bytes: seq<bv8>, i: nat, obj: Version, end: nat)
    requires Decode(VERSION, BitsOf(bytes), 8 * i) == Done(obj.Image(), end)
    ensures VersionAt(bytes, i, obj) && end == 8 * (i + 2)
  {
    hide Decode, Number, Pow2, ToBits;
    NativePowers();
    var v := obj.Image();
    var inner := BodyDecoded(VERSION, BitsOf(bytes), 8 * i, v, end);
    WholeFirst(VERSION_FIELDS, bytes, i, v, inner, 1, obj.major);
    WholeFirst(VERSION_FIELDS.rest, bytes, i + 1, v.rest, inner, 1, obj.minor);
    EmptyDecoded(BitsOf(bytes), 8 * (i + 2), v.rest.rest, inner);
  }

  /** It can always be read. */
  lemma VersionRead(b: seq<bool>, i: nat) returns (v: Value)
    ensures Decode(VERSION, b, 8 * i) == Done(v, 8 * (i + 2))
  {
    var r := Decode(VERSION_FIELDS, b, 8 * i);
    assert r.Done? && r.next == 8 * i + 16;
    v := r.value;
  }

  method SerializeVersion(obj: Version, buf: array<bv8>, at: nat, capacity: nat) returns (r: Status, size: nat)
    requires at + capacity <= buf.Length
    modifies buf
    ensures Shape(VERSION, obj.Image())
    ensures Serialized(VERSION, obj.Image(), old(BitsOf(buf[..])), BitsOf(buf[..]), at, capacity, r, size)
    ensures r == (if capacity < 2 then BufferTooSmall else Ok) && (r == Ok ==> size == 2 && VersionAt(buf[..], at, obj))
  {
    hide Ready, Runs, Serialized, MinEnd, MaxEnd, WellFormed, Decode, VersionAt;
    VersionExtent(0);
    if 8 * capacity < 16 {
      TooSmall(VERSION, obj.Image(), BitsOf(buf[..]), at, capacity);
      return BufferTooSmall, 0;
    }
    var off := 0;
    ghost var job, p := Begin(VERSION_FIELDS, obj.Image(), buf, at, capacity);
    off, p := ByteField(buf, at, capacity, off, obj.major, job, p);
    off, p := ByteField(buf, at, capacity, off, obj.minor, job, p);
    r, size := Complete(VERSION_FIELDS, obj.Image(), buf, at, capacity, off, job, p);
    assert 8 * size == 16;
    VersionWellFormed();
    WrittenDecodes(VERSION, obj.Image(), job.was, buf[..], at, capacity, size);
    VersionPlaced(buf[..], at, obj, 8 * (at + size));
  }

  method DeserializeVersion(bytes: seq<bv8>) returns (r: Status, obj: Version, size: nat)
    ensures r == Ok && Deserialized(VERSION, bytes, r, obj.Image(), size) && VersionAt(bytes, 0, obj)
  {
    ghost var whole, c := ReadStart(VERSION_FIELDS, bytes);
    var off, major, minor := 0, 0, 0;
    major, off, c := ReadLow(bytes, off, 8, whole, c);
    minor, off, c := ReadLow(bytes, off, 8, whole, c);
    obj := Version(major, minor);
    size := Conclude(bytes, off, VERSION_FIELDS, whole, c, obj.Image());
    r := Ok;
    ghost var end := ReadDecodes(VERSION, bytes, r, obj.Image(), size);
    VersionPlaced(bytes, 0, obj, end);
  }

  // ---------------------------------------------------------------- uavcan.node.GetInfo.1.0, response

  const NAME := Blob(8, 8, 50)
  const CRC := Blob(8, 64, 1)
  const CERTIFICATE := Blob(8, 8, 222)
  const INFO_ARRAYS := Then(NAME, Then(CRC, Then(CERTIFICATE, Empty)))
  const INFO_FIELDS :=
    Then(VERSION, Then(VERSION, Then(VERSION, Then(Field(64), Then(Field(128), INFO_ARRAYS)))))
  const INFO := Nested(INFO_FIELDS)

  datatype Info = Info(protocol: Version, hardware: Version, software: Version, revision: u64, uniqueId: seq<bv8>,
    name: Elements, crc: Elements, certificate: Elements)
  {
    /** The C arrays have their full length whatever the counts say. */
    predicate Valid() {
      |uniqueId| == 16 && name.Backed(8 * 50) && crc.Backed(64) && certificate.Backed(8 * 222)
    }

    function Arrays(): (v: Value)
      ensures Shape(INFO_ARRAYS, v)
    {
      BlobEncoded(NAME, name.Image(8), name.count, 0);
      BlobEncoded(CRC, crc.Image(64), crc.count, 0);
      BlobEncoded(CERTIFICATE, certificate.Image(8), certificate.count, 0);
      Pair(name.Image(8), Pair(crc.Image(64), Pair(certificate.Image(8), Nothing)))
    }

    function Image(): (v: Value)
      requires Valid()
      ensures Shape(INFO, v)
    {
      var v :=
        Pair(protocol.Image(), Pair(hardware.Image(), Pair(software.Image(),
        Pair(Plain(ToBits(revision, 64)), Pair(Plain(BitsOf(uniqueId)), Arrays())))));
      assert Shape(INFO_FIELDS, v);
      v
    }
  }

  /** The three versions, the revision in bytes 6 to 13, the identifier in bytes 14 to 29, and the three arrays one behind
      the other from byte 30 on. */
  predicate InfoAt(bytes: seq<bv8>, i: nat, obj: Info) {
    && VersionAt(bytes, i, obj.protocol) && VersionAt(bytes, i + 2, obj.hardware) && VersionAt(bytes, i + 4, obj.software)
    && Number(bytes, i + 6, 8) == obj.revision && Holds(bytes, i + 14, obj.uniqueId, 128)
    && ArrayAt(bytes, i + 30, 1, 8, obj.name)
    && ArrayAt(bytes, i + 31 + obj.name.count, 1, 64, obj.crc)
    && ArrayAt(bytes, i + 32 + obj.name.count + 8 * obj.crc.count, 1, 8, obj.certificate)
  }

  /** A name of at most 50 bytes, at most one checksum and a certificate of at most 222 bytes. */
  predicate InfoFits(name: nat, crc: nat, certificate: nat) {
    name <= 50 && crc <= 1 && certificate <= 222
  }

  /** The three counts in a message are in range. */
  predicate InfoReadable(bytes: seq<bv8>) {
    var name := Number(bytes, 30, 1);
    var crc := Number(bytes, 31 + name, 1);
    InfoFits(name, crc, Number(bytes, 32 + name + 8 * crc, 1))
  }

  lemma InfoWellFormed()
    ensures WellFormed(INFO)
  {
    VersionWellFormed();
    InfoTailWellFormed();
    assert WellFormed(INFO_FIELDS.rest);
    assert WellFormed(INFO_FIELDS);
  }

  lemma InfoTailWellFormed()
    ensures WellFormed(INFO_FIELDS.rest.rest.rest)
  {
    Pow2Of8();
    assert WellFormed(INFO_ARRAYS);
  }

  lemma VersionFirst(t: Type, bytes: seq<bv8>, i: nat, v: Value, end: nat, obj: Version)
    requires t.Then? && t.first == VERSION && Decode(t, BitsOf(bytes), 8 * i) == Done(v, end)
    requires v.Pair? ==> v.first == obj.Image()
    ensures v.Pair? && VersionAt(bytes, i, obj) && Decode(t.rest, BitsOf(bytes), 8 * (i + 2)) == Done(v.rest, end)
  {
    hide Decode;
    var mid := FirstDecoded(t, BitsOf(bytes), 8 * i, v, end);
    VersionPlaced(bytes, i, obj, mid);
  }

  lemma InfoPlaced(bytes: seq<bv8>, i: nat, obj: Info, end: nat)
    requires obj.Valid() && Decode(INFO, BitsOf(bytes), 8 * i) == Done(obj.Image(), end)
    ensures InfoAt(bytes, i, obj) && InfoFits(obj.name.count, obj.crc.count, obj.certificate.count)
  {
    hide Decode, VersionAt, ArrayAt, Number, Pow2, ToBits;
    var b, v := BitsOf(bytes), obj.Image();
    var t := INFO_FIELDS;
    var inner := BodyDecoded(INFO, b, 8 * i, v, end);
    VersionFirst(t, bytes, i, v, inner, obj.protocol);
    VersionFirst(t.rest, bytes, i + 2, v.rest, inner, obj.hardware);
    VersionFirst(t.rest.rest, bytes, i + 4, v.rest.rest, inner, obj.software);
    NativePowers();
    WholeFirst(t.rest.rest.rest, bytes, i + 6, v.rest.rest.rest, inner, 8, obj.revision);
    BitsFirst(t.rest.rest.rest.rest, b, 8 * (i + 14), v.rest.rest.rest.rest, inner, 128);
    assert Read(BitsOf(obj.uniqueId), 0, 128) == BitsOf(obj.uniqueId);
    ArraysPlaced(bytes, i + 30, obj, inner);
  }

  lemma ArraysPlaced(bytes: seq<bv8>, i: nat, obj: Info, end: nat)
    requires Decode(INFO_ARRAYS, BitsOf(bytes), 8 * i) == Done(obj.Arrays(), end)
    ensures InfoFits(obj.name.count, obj.crc.count, obj.certificate.count) && ArrayAt(bytes, i, 1, 8, obj.name)
    ensures ArrayAt(bytes, i + 1 + obj.name.count, 1, 64, obj.crc)
    ensures ArrayAt(bytes, i + 2 + obj.name.count + 8 * obj.crc.count, 1, 8, obj.certificate)
  {
    hide Decode, ArrayAt;
    var v, j := obj.Arrays(), i + 1 + obj.name.count;
    var k := j + 1 + 8 * obj.crc.count;
    ArrayFirst(INFO_ARRAYS, bytes, i, 1, v, end, obj.name, 8 * j);
    ArrayFirst(INFO_ARRAYS.rest, bytes, j, 1, v.rest, end, obj.crc, 8 * k);
    ArrayFirst(INFO_ARRAYS.rest.rest, bytes, k, 1, v.rest.rest, end, obj.certificate, 8 * (k + 1 + obj.certificate.count));
  }

  lemma InfoVerdict(bytes: seq<bv8>)
    ensures Verdict(INFO, BitsOf(bytes), 0) == if InfoReadable(bytes) then Ok else BadArrayLength
  {
    hide Decode, Verdict, Number;
    var b, t := BitsOf(bytes), INFO_FIELDS;
    BodyVerdict(INFO, b, 0);
    VersionVerdict(t, b, 0);
    VersionVerdict(t.rest, b, 2);
    VersionVerdict(t.rest.rest, b, 4);
    FieldVerdict(t.rest.rest.rest, b, 48, 64);
    FieldVerdict(t.rest.rest.rest.rest, b, 112, 128);
    var name := Number(bytes, 30, 1);
    var crc := Number(bytes, 31 + name, 1);
    var certificate := Number(bytes, 32 + name + 8 * crc, 1);
    ArrayVerdict(INFO_ARRAYS, bytes, 30, 1, 8 * (31 + name));
    ArrayVerdict(INFO_ARRAYS.rest, bytes, 31 + name, 1, 8 * (32 + name + 8 * crc));
    ArrayVerdict(INFO_ARRAYS.rest.rest, bytes, 32 + name + 8 * crc, 1, 8 * (33 + name + 8 * crc + certificate));
    EmptyVerdict(b, 8 * (33 + name + 8 * crc + certificate));
  }

  lemma VersionVerdict(t: Type, b: seq<bool>, i: nat)
    requires t.Then? && t.first == VERSION
    ensures Verdict(t, b, 8 * i) == Verdict(t.rest, b, 8 * (i + 2))
  {
    hide Decode, Verdict;
    FirstVerdict(t, b, 8 * i);
    var v := VersionRead(b, i);
  }

  lemma InfoValidated(obj: Info)
    requires obj.Valid()
    ensures Validate(INFO, obj.Image())
      == if InfoFits(obj.name.count, obj.crc.count, obj.certificate.count) then Ok else BadArrayLength
  {
    var v := obj.Image();
    var arrays := v.rest.rest.rest.rest.rest;
    BlobEncoded(NAME, obj.name.Image(8), obj.name.count, 0);
    BlobEncoded(CRC, obj.crc.Image(64), obj.crc.count, 0);
    BlobEncoded(CERTIFICATE, obj.certificate.Image(8), obj.certificate.count, 0);
    assert Validate(INFO_ARRAYS.rest.rest, arrays.rest.rest) == if obj.certificate.count > 222 then BadArrayLength else Ok;
    assert Validate(INFO_ARRAYS.rest, arrays.rest)
        == if obj.crc.count > 1 || obj.certificate.count > 222 then BadArrayLength else Ok;
    FitsIffValid(VERSION, obj.protocol.Image());
    FitsIffValid(VERSION, obj.hardware.Image());
    FitsIffValid(VERSION, obj.software.Image());
    assert Validate(INFO_FIELDS.rest.rest.rest, v.rest.rest.rest) == Validate(INFO_ARRAYS, arrays);
    assert Validate(INFO_FIELDS.rest, v.rest) == Validate(INFO_ARRAYS, arrays);
  }

  /** What the contract of the serializer says about the bytes. */
  lemma InfoWritten(obj: Info, was: seq<bool>, bytes: seq<bv8>, at: nat, capacity: nat, r: Status, size: nat)
    requires obj.Valid() && Serialized(INFO, obj.Image(), was, BitsOf(bytes), at, capacity, r, size)
    ensures r == if capacity < 313 then BufferTooSmall
      else if InfoFits(obj.name.count, obj.crc.count, obj.certificate.count) then Ok else BadArrayLength
    ensures r == Ok ==> InfoAt(bytes, at, obj)
  {
    hide Serialized, Decode, Validate, WellFormed, MaxEnd, InfoAt;
    InfoExtent();
    InfoValidated(obj);
    WrittenVerdict(INFO, obj.Image(), was, BitsOf(bytes), at, capacity, r, size);
    if r == Ok {
      InfoWellFormed();
      WrittenDecodes(INFO, obj.Image(), was, bytes, at, capacity, size);
      InfoPlaced(bytes, at, obj, 8 * (at + size));
    }
  }

  method VersionField(buf: array<bv8>, at: nat, capacity: nat, off: nat, obj: Version, ghost job: Job, ghost p: Point)
    returns (r: Status, next: nat, ghost q: Point)
    requires Ready(buf, at, capacity, off, job, p) && off % 8 == 0
    requires Next(p, VERSION, obj.Image(), off, 16, capacity)
    modifies buf
    ensures r == Ok && Ready(buf, at, capacity, next, job, q) && Past(q, p) && next == off + 16 && next % 8 == 0
  {
    ghost var mid := BitsOf(buf[..]);
    var size;
    r, size := SerializeVersion(obj, buf, at + off / 8, 2);
    VersionExtent(0);
    next := off + 8 * size;
    q := NestedField(buf, mid, at, capacity, off, 2, job, p, r, size, next);
  }

  lemma VersionExtent(off: nat)
    requires off % 8 == 0
    ensures MinEnd(VERSION, off) == off + 16 == MaxEnd(VERSION, off)
  {
  }

  lemma InfoTailExtent(t: Type)
    requires t == Then(Field(64), Then(Field(128), INFO_ARRAYS))
    ensures MinEnd(t, 48) == 264 && MaxEnd(t, 48) == 2504
  {
    ThenExtent(INFO_ARRAYS, 240, 248, 264, 240, 648, 2504);
    ThenExtent(t.rest, 112, 240, 264, 112, 240, 2504);
    ThenExtent(t, 48, 112, 264, 48, 112, 2504);
  }

  lemma InfoExtent()
    ensures MinEnd(INFO, 0) == 264 && MaxEnd(INFO, 0) == 2504
  {
    var tail := Then(Field(64), Then(Field(128), INFO_ARRAYS));
    InfoTailExtent(tail);
    VersionsExtent(tail, 264, 2504);
    NestedExtent(INFO_FIELDS, 264, 2504);
  }

  lemma VersionsExtent(tail: Type, min: nat, max: nat)
    requires MinEnd(tail, 48) == min && MaxEnd(tail, 48) == max
    ensures MinEnd(Then(VERSION, Then(VERSION, Then(VERSION, tail))), 0) == min
    ensures MaxEnd(Then(VERSION, Then(VERSION, Then(VERSION, tail))), 0) == max
  {
    hide MinEnd, MaxEnd;
    VersionExtent(0);
    VersionExtent(16);
    VersionExtent(32);
    ThenExtent(Then(VERSION, tail), 32, 48, min, 32, 48, max);
    ThenExtent(Then(VERSION, Then(VERSION, tail)), 16, 32, min, 16, 32, max);
    ThenExtent(Then(VERSION, Then(VERSION, Then(VERSION, tail))), 0, 16, min, 0, 16, max);
  }

  /** The eight fields in their order. */
  method InfoFields(obj: Info, buf: array<bv8>, at: nat, capacity: nat, ghost job: Job, ghost p: Point)
    returns (r: Status, next: nat, ghost q: Point)
    requires obj.Valid() && Ready(buf, at, capacity, 0, job, p) && 2504 <= 8 * capacity
    requires p.t == INFO_FIELDS && p.v == obj.Image()
    modifies buf
    ensures r != Ok ==> Failed(buf, at, capacity, job, r)
    ensures r == Ok ==> Ready(buf, at, capacity, next, job, q) && q.t.Empty?
    ensures r == Ok ==> next == 264 + 8 * obj.name.count + 64 * obj.crc.count + 8 * obj.certificate.count
  {
    hide Ready, Failed;
    r, next, q := VersionField(buf, at, capacity, 0, obj.protocol, job, p);
    r, next, q := VersionField(buf, at, capacity, next, obj.hardware, job, q);
    r, next, q := VersionField(buf, at, capacity, next, obj.software, job, q);
    next, q := IntegerField(buf, at, capacity, next, obj.revision, 8, job, q);
    next, q := BytesField(buf, at, capacity, next, obj.uniqueId, job, q);
    r, next, q := ByteArrayField(buf, at, capacity, next, NAME, obj.name, job, q);
    if r == Ok {
      r, next, q := ByteArrayField(buf, at, capacity, next, CRC, obj.crc, job, q);
    }
    if r == Ok {
      r, next, q := ByteArrayField(buf, at, capacity, next, CERTIFICATE, obj.certificate, job, q);
    }
  }

  method SerializeInfo(obj: Info, buf: array<bv8>, at: nat, capacity: nat) returns (r: Status, size: nat)
    requires obj.Valid() && at + capacity <= buf.Length
    modifies buf
    ensures Serialized(INFO, obj.Image(), old(BitsOf(buf[..])), BitsOf(buf[..]), at, capacity, r, size)
    ensures r == if capacity < 313 then BufferTooSmall
      else if InfoFits(obj.name.count, obj.crc.count, obj.certificate.count) then Ok else BadArrayLength
    ensures r == Ok ==> size == 33 + obj.name.count + 8 * obj.crc.count + obj.certificate.count && 33 <= size <= 313
    ensures r == Ok ==> InfoAt(buf[..], at, obj)
  {
    hide Ready, Runs, Serialized, MinEnd, MaxEnd, InfoAt;
    ghost var v, was := obj.Image(), BitsOf(buf[..]);
    InfoExtent();
    if 8 * capacity < 2504 {
      r, size := BufferTooSmall, 0;
      TooSmall(INFO, v, was, at, capacity);
    } else {
      var off;
      ghost var job, p := Begin(INFO_FIELDS, v, buf, at, capacity);
      r, off, p := InfoFields(obj, buf, at, capacity, job, p);
      if r != Ok {
        size := 0;
        Refused(INFO_FIELDS, v, buf, at, capacity, job, r);
      } else {
        r, size := Complete(INFO_FIELDS, v, buf, at, capacity, off, job, p);
      }
    }
    InfoWritten(obj, was, buf[..], at, capacity, r, size);
  }

  method ReadVersion(bytes: seq<bv8>, off: nat, ghost whole: Result, ghost c: Cursor)
    returns (r: Status, obj: Version, next: nat, ghost d: Cursor)
    requires Reading(whole, bytes, off, c) && c.t.Then? && c.t.first == VERSION && off % 8 == 0
    ensures r == Ok && Reading(whole, bytes, next, d) && After(d, c, obj.Image()) && next % 8 == 0
  {
    var size;
    r, obj, size := DeserializeVersion(Rest(bytes, off));
    next := off + 8 * size;
    d := NestedTaken(whole, bytes, off, c, r, obj.Image(), size, next);
  }

  method DeserializeInfo(bytes: seq<bv8>) returns (r: Status, obj: Option<Info>, size: nat)
    ensures r == Ok <==> obj.Some? && obj.value.Valid()
    ensures Deserialized(INFO, bytes, r, if r == Ok then obj.value.Image() else Nothing, size)
    ensures r == (if InfoReadable(bytes) then Ok else BadArrayLength) && (r == Ok ==> InfoAt(bytes, 0, obj.value))
  {
    r, obj, size := FetchInfo(bytes);
    ghost var v := if r == Ok then obj.value.Image() else Nothing;
    ghost var end := ReadDecodes(INFO, bytes, r, v, size);
    InfoVerdict(bytes);
    if r == Ok {
      InfoPlaced(bytes, 0, obj.value, end);
    }
  }

  method FetchInfo(bytes: seq<bv8>) returns (r: Status, obj: Option<Info>, size: nat)
    ensures r == Ok <==> obj.Some? && obj.value.Valid()
    ensures Deserialized(INFO, bytes, r, if r == Ok then obj.value.Image() else Nothing, size)
  {
    obj := None;
    ghost var whole, c := ReadStart(INFO_FIELDS, bytes);
    var off := 0;
    var protocol, hardware, software, revision, uniqueId, name, crc, certificate;
    r, protocol, off, c := ReadVersion(bytes, off, whole, c);
    r, hardware, off, c := ReadVersion(bytes, off, whole, c);
    r, software, off, c := ReadVersion(bytes, off, whole, c);
    revision, off, c := ReadInteger(bytes, off, 64, 64, whole, c);
    uniqueId, off, c := ReadBytes(bytes, off, 16, whole, c);
    r, name, off, c := ReadByteArray(bytes, off, NAME, whole, c);
    if r != Ok {
      Rejected(INFO_FIELDS, bytes, whole, r, Nothing);
      return r, obj, 0;
    }
    r, crc, off, c := ReadByteArray(bytes, off, CRC, whole, c);
    if r != Ok {
      Rejected(INFO_FIELDS, bytes, whole, r, Nothing);
      return r, obj, 0;
    }
    r, certificate, off, c := ReadByteArray(bytes, off, CERTIFICATE, whole, c);
    if r != Ok {
      Rejected(INFO_FIELDS, bytes, whole, r, Nothing);
      return r, obj, 0;
    }
    obj := Some(Info(protocol, hardware, software, revision, uniqueId, name, crc, certificate));
    size := Conclude(bytes, off, INFO_FIELDS, whole, c, obj.value.Image());
  }
}
