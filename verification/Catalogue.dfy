/** The general theorems, read for particular messages: what an application gets back after a trip over the wire. */
module Catalogue {
  import opened Bits
  import opened Serialization
  import opened Dsdl
  import opened Sizes
  import opened Codec
  import opened Layout
  import opened Messages
  import opened NodeInfo
  import opened NodeStatistics
  import opened NodeHealth
  import opened FileMessages
  import opened Registers
  import Pnp
  import F = Float16
  import R = Real16

  /** A message of type `t` with value `v` lies in `buf` at `at`, and `n` bytes from there on were read with result `w`. */
  ghost predicate Carried(t: Type, v: Value, was: seq<bool>, buf: seq<bv8>, at: nat, capacity: nat, size: nat, n: nat,
    r: Status, w: Value, consumed: nat)
    requires Shape(t, v)
  {
    && Serialized(t, v, was, BitsOf(buf), at, capacity, Ok, size) && size <= n && at + n <= |buf|
    && Deserialized(t, buf[at..at + n], r, w, consumed)
  }

  lemma Arrives(t: Type, v: Value, was: seq<bool>, buf: seq<bv8>, at: nat, capacity: nat, size: nat, n: nat,
    r: Status, w: Value, consumed: nat)
    requires t.Nested? && WellFormed(t) && Shape(t, v) && Carried(t, v, was, buf, at, capacity, size, n, r, w, consumed)
    ensures r == Ok && w == v && consumed == size
  {
    RoundTripThroughBuffer(t, v, was, buf, at, capacity, size, n, r, w, consumed);
  }

  // ---------------------------------------------------------------- equality of images and of objects

  lemma SameNumber(a: nat, b: nat, width: nat)
    requires a < Pow2(width) && ToBits(a, width) == ToBits(b, width)
    ensures a == b % Pow2(width)
  {
    FromToBits(a, width);
    FromToBits(b, width);
    DivModUnique(a, Pow2(width), 0, a);
  }

  lemma SameNative(a: nat, b: nat, width: nat)
    requires a < Pow2(width) && b < Pow2(width) && ToBits(a, width) == ToBits(b, width)
    ensures a == b
  {
    SameNumber(a, b, width);
    DivModUnique(b, Pow2(width), 0, b);
  }

  /** Arrays with the same image have the same length and the same elements, whatever lies beyond them. */
  predicate SameElements(a: Elements, b: Elements, unit: nat) {
    a.count == b.count && Read(BitsOf(a.memory), 0, a.count * unit) == Read(BitsOf(b.memory), 0, a.count * unit)
  }

  lemma SameImage(a: Elements, b: Elements, unit: nat)
    requires unit > 0 && a.Image(unit) == b.Image(unit)
    ensures SameElements(a, b, unit)
  {
    WholeCount(a.count, unit);
    WholeCount(b.count, unit);
    assert |a.Image(unit).bits| == |b.Image(unit).bits|;
  }

  // ---------------------------------------------------------------- GetInfo.1.0

  predicate SameInfo(a: Info, b: Info) {
    && a.protocol == b.protocol && a.hardware == b.hardware && a.software == b.software
    && a.revision == b.revision && a.uniqueId == b.uniqueId && SameElements(a.name, b.name, 8)
    && SameElements(a.crc, b.crc, 64) && SameElements(a.certificate, b.certificate, 8)
  }

  lemma SameVersion(a: Version, b: Version)
    requires a.Image() == b.Image()
    ensures a == b
  {
    NativePowers();
    SameNative(a.major, b.major, 8);
    SameNative(a.minor, b.minor, 8);
  }

  lemma SameInfoImage(a: Info, b: Info)
    requires a.Valid() && b.Valid() && a.Image() == b.Image()
    ensures SameInfo(a, b)
  {
    SameVersion(a.protocol, b.protocol);
    SameVersion(a.hardware, b.hardware);
    SameVersion(a.software, b.software);
    NativePowers();
    SameNative(a.revision, b.revision, 64);
    BitsOfInjective(a.uniqueId, b.uniqueId);
    SameImage(a.name, b.name, 8);
    SameImage(a.crc, b.crc, 64);
    SameImage(a.certificate, b.certificate, 8);
  }

  /** GetInfo.Response comes back field by field, and exactly its own bytes are consumed. */
  lemma InfoRoundTrip(obj: Info, was: seq<bool>, buf: seq<bv8>, at: nat, capacity: nat, size: nat, n: nat,
    r: Status, got: Option<Info>, consumed: nat)
    requires obj.Valid() && (r == Ok <==> got.Some? && got.value.Valid())
    requires Carried(INFO, obj.Image(), was, buf, at, capacity, size, n, r,
      if r == Ok then got.value.Image() else Nothing, consumed)
    ensures r == Ok && SameInfo(got.value, obj) && consumed == size
  {
    InfoWellFormed();
    Arrives(INFO, obj.Image(), was, buf, at, capacity, size, n, r,
      if r == Ok then got.value.Image() else Nothing, consumed);
    SameInfoImage(got.value, obj);
  }

  // ---------------------------------------------------------------- GetTransportStatistics.0.1

  /** `a` is `b` with every counter modulo 2^40. */
  predicate Truncates(a: IOStatistics, b: IOStatistics) {
    a.emitted == b.emitted % Pow2(40) && a.received == b.received % Pow2(40) && a.errored == b.errored % Pow2(40)
  }

  lemma SameCounters(a: IOStatistics, b: IOStatistics)
    requires a.InRange() && a.Image() == b.Image()
    ensures Truncates(a, b)
  {
    SameNumber(a.emitted, b.emitted, 40);
    SameNumber(a.received, b.received, 40);
    SameNumber(a.errored, b.errored, 40);
  }

  lemma {:induction false} SameChain(vs: seq<Value>, ws: seq<Value>)
    requires Chain(vs) == Chain(ws)
    ensures vs == ws
  {
    assert |vs| == Length(Chain(vs)) == |ws|;
    if |vs| > 0 {
      SameChain(vs[1..], ws[1..]);
      assert vs == [vs[0]] + vs[1..] && ws == [ws[0]] + ws[1..];
    }
  }

  /** GetTransportStatistics.Response comes back with every counter modulo 2^40, for every number of interfaces. */
  lemma TransportRoundTrip(obj: Transport, was: seq<bool>, buf: seq<bv8>, at: nat, capacity: nat, size: nat, n: nat,
    r: Status, got: Option<Transport>, consumed: nat)
    requires (r == Ok <==> got.Some?) && (r == Ok ==> got.value.InRange())
    requires Carried(TRANSPORT, obj.Image(), was, buf, at, capacity, size, n, r,
      if r == Ok then got.value.Image() else Nothing, consumed)
    ensures r == Ok && consumed == size && Truncates(got.value.transfers, obj.transfers)
    ensures |got.value.interfaces| == |obj.interfaces|
    ensures forall i | 0 <= i < |obj.interfaces| :: Truncates(got.value.interfaces[i], obj.interfaces[i])
  {
    TransportWellFormed();
    Arrives(TRANSPORT, obj.Image(), was, buf, at, capacity, size, n, r,
      if r == Ok then got.value.Image() else Nothing, consumed);
    SameTransport(got.value, obj);
  }

  lemma SameTransport(a: Transport, b: Transport)
    requires a.InRange() && a.Image() == b.Image()
    ensures Truncates(a.transfers, b.transfers) && |a.interfaces| == |b.interfaces|
    ensures forall i | 0 <= i < |b.interfaces| :: Truncates(a.interfaces[i], b.interfaces[i])
  {
    SameCounters(a.transfers, b.transfers);
    var vs, ws := Images(a.interfaces), Images(b.interfaces);
    SameChain(vs, ws);
    forall i | 0 <= i < |b.interfaces|
      ensures Truncates(a.interfaces[i], b.interfaces[i])
    {
      assert vs[i] == ws[i];
      SameCounters(a.interfaces[i], b.interfaces[i]);
    }
  }

  // ---------------------------------------------------------------- Heartbeat.1.0

  /** Health and mode arrive clamped to two and three bits. */
  lemma HeartbeatRoundTrip(obj: Heartbeat, was: seq<bool>, buf: seq<bv8>, at: nat, capacity: nat, size: nat, n: nat,
    r: Status, got: Heartbeat, consumed: nat)
    requires got.health <= 3 && got.mode <= 7
    requires Carried(HEARTBEAT, obj.Image(), was, buf, at, capacity, size, n, r, got.Image(), consumed)
    ensures r == Ok && consumed == size && got.uptime == obj.uptime && got.vendorStatus == obj.vendorStatus
    ensures got.health == ChooseMin(obj.health, 3) && got.mode == ChooseMin(obj.mode, 7)
  {
    HeartbeatWellFormed();
    Arrives(HEARTBEAT, obj.Image(), was, buf, at, capacity, size, n, r, got.Image(), consumed);
    SameHeartbeat(got, obj);
  }

  lemma SameHeartbeat(a: Heartbeat, b: Heartbeat)
    requires a.health <= 3 && a.mode <= 7 && a.Image() == b.Image()
    ensures a.uptime == b.uptime && a.vendorStatus == b.vendorStatus
    ensures a.health == ChooseMin(b.health, 3) && a.mode == ChooseMin(b.mode, 7)
  {
    NativePowers();
    SmallBounds();
    SameNative(a.uptime, b.uptime, 32);
    SameNative(a.vendorStatus, b.vendorStatus, 8);
    SameNative(Saturated(a.health, 2), Saturated(b.health, 2), 2);
    SameNative(Saturated(a.mode, 3), Saturated(b.mode, 3), 3);
  }

  // ---------------------------------------------------------------- Write.1.0

  /** For Write.Request a buffer of 311 bytes is enough on every path: past that check only a bad array length is left. */
  lemma WriteCapacity(obj: WriteRequest, was: seq<bool>, now: seq<bool>, at: nat, capacity: nat, r: Status, size: nat)
    requires Serialized(WRITE, obj.Image(), was, now, at, capacity, r, size)
    ensures r == BufferTooSmall <==> capacity < 311
    ensures capacity >= 311 ==> r == if obj.path.count > 112 || obj.data.count > 192 then BadArrayLength else Ok
    ensures r == Ok ==> 7 <= size <= 311
  {
    WriteExtent();
    CapacityIsEnough(WRITE, obj.Image(), was, now, at, capacity, r, size);
    WriteValidated(obj);
  }

  /** Write.Request comes back with its offset modulo 2^40, its path and its data. */
  predicate SameWrite(a: WriteRequest, b: WriteRequest) {
    a.offset == b.offset % 0x100_0000_0000 && SameElements(a.path, b.path, 8) && SameElements(a.data, b.data, 8)
  }

  lemma WriteRoundTrip(obj: WriteRequest, was: seq<bool>, buf: seq<bv8>, at: nat, capacity: nat, size: nat, n: nat,
    r: Status, got: Option<WriteRequest>, consumed: nat)
    requires (r == Ok <==> got.Some? && got.value.Valid()) && (r == Ok ==> got.value.offset < 0x100_0000_0000)
    requires Carried(WRITE, obj.Image(), was, buf, at, capacity, size, n, r,
      if r == Ok then got.value.Image() else Nothing, consumed)
    ensures r == Ok && SameWrite(got.value, obj) && consumed == size
  {
    hide Pow2;
    WriteWellFormed();
    Arrives(WRITE, obj.Image(), was, buf, at, capacity, size, n, r,
      if r == Ok then got.value.Image() else Nothing, consumed);
    Pow2Of40();
    SameNumber(got.value.offset, obj.offset, 40);
    SameImage(got.value.path, obj.path, 8);
    SameImage(got.value.data, obj.data, 8);
  }

  // ---------------------------------------------------------------- file.GetInfo.0.2 and pnp.NodeIDAllocationData.1.0

  predicate SameFileInfo(a: FileInfo, b: FileInfo) {
    && a.error == b.error && a.size == b.size % 0x100_0000_0000 && a.modified == b.modified % 0x100_0000_0000
    && a.isFile == b.isFile && a.isLink == b.isLink && a.isReadable == b.isReadable && a.isWriteable == b.isWriteable
  }

  lemma FileInfoRoundTrip(obj: FileInfo, was: seq<bool>, buf: seq<bv8>, at: nat, capacity: nat, size: nat, n: nat,
    r: Status, got: FileInfo, consumed: nat)
    requires got.size < 0x100_0000_0000 && got.modified < 0x100_0000_0000
    requires Carried(FILE_INFO, obj.Image(), was, buf, at, capacity, size, n, r, got.Image(), consumed)
    ensures r == Ok && SameFileInfo(got, obj) && consumed == size
  {
    hide Pow2;
    FileInfoWellFormed();
    Arrives(FILE_INFO, obj.Image(), was, buf, at, capacity, size, n, r, got.Image(), consumed);
    NativePowers();
    Pow2Of40();
    SameNative(got.error, obj.error, 16);
    SameNumber(got.size, obj.size, 40);
    SameNumber(got.modified, obj.modified, 40);
  }

  predicate SameAllocation(a: Pnp.Allocation, b: Pnp.Allocation) {
    a.uniqueIdHash == b.uniqueIdHash % 0x1_0000_0000_0000 && a.ids == b.ids
  }

  lemma AllocationRoundTrip(obj: Pnp.Allocation, was: seq<bool>, buf: seq<bv8>, at: nat, capacity: nat, size: nat, n: nat,
    r: Status, got: Option<Pnp.Allocation>, consumed: nat)
    requires (r == Ok <==> got.Some?) && (r == Ok ==> got.value.uniqueIdHash < 0x1_0000_0000_0000)
    requires Carried(Pnp.ALLOCATION, obj.Image(), was, buf, at, capacity, size, n, r,
      if r == Ok then got.value.Image() else Nothing, consumed)
    ensures r == Ok && SameAllocation(got.value, obj) && consumed == size
  {
    hide Pow2;
    Pnp.AllocationWellFormed();
    Arrives(Pnp.ALLOCATION, obj.Image(), was, buf, at, capacity, size, n, r,
      if r == Ok then got.value.Image() else Nothing, consumed);
    Pow2Of40();
    SameNumber(got.value.uniqueIdHash, obj.uniqueIdHash, 48);
    SameIds(got.value.ids, obj.ids);
  }

  lemma SameIds(s: seq<Pnp.u16>, t: seq<Pnp.u16>)
    requires Chain(Pnp.Images(s)) == Chain(Pnp.Images(t))
    ensures s == t
  {
    var vs, ws := Pnp.Images(s), Pnp.Images(t);
    SameChain(vs, ws);
    NativePowers();
    forall i | 0 <= i < |s|
      ensures s[i] == t[i]
    {
      assert vs[i] == ws[i];
      SameNative(s[i], t[i], 16);
    }
  }

  // ---------------------------------------------------------------- Value.1.0 and Access.1.0

  predicate NearestHalves(got: seq<R.u32>, sent: seq<R.u32>) {
    |got| == |sent| && forall i | 0 <= i < |sent| :: got[i] == F.Unpack16(R.Half(sent[i]))
  }

  /** What arrives: the same tag and the same elements in memory; of real16 elements, the nearest binary16 numbers. */
  predicate SameValue(got: RegisterValue, obj: RegisterValue) {
    && got.tag == obj.tag
    && (1 <= obj.tag <= 13 ==> SameElements(got.memory, obj.memory, ElementBits(obj.tag)))
    && (obj.tag == 14 ==> NearestHalves(got.reals, obj.reals))
  }

  lemma ReadsImage(got: RegisterValue, obj: RegisterValue)
    requires got.Reads(obj.Image())
    ensures SameValue(got, obj)
  {
    if obj.tag == 14 {
      forall i | 0 <= i < |obj.reals|
        ensures got.reals[i] == F.Unpack16(R.Half(obj.reals[i]))
      {
        R.HalfWord(obj.reals, i);
      }
    } else if 1 <= obj.tag <= 13 {
      OptionTable(obj.tag);
      SameImage(got.memory, obj.memory, ElementBits(obj.tag));
    }
  }

  /** A register value comes back as the option that was written, option by option. */
  lemma ValueRoundTrip(obj: RegisterValue, was: seq<bool>, buf: seq<bv8>, at: nat, capacity: nat, size: nat, n: nat,
    r: Status, got: Option<RegisterValue>, v: Value, consumed: nat)
    requires r == Ok <==> got.Some? && got.value.Valid() && got.value.Reads(v)
    requires Carried(VALUE, obj.Image(), was, buf, at, capacity, size, n, r, v, consumed)
    ensures r == Ok && obj.tag <= 14 && SameValue(got.value, obj) && consumed == size && 1 <= size <= 259
  {
    ValueWellFormed();
    Arrives(VALUE, obj.Image(), was, buf, at, capacity, size, n, r, v, consumed);
    ReadsImage(got.value, obj);
    ValueExtent();
    FitsIffValid(VALUE, obj.Image());
    EncodeBounded(VALUE, obj.Image(), 0);
  }

  /** The writer rejects tags above 14, and only them, for their tag. */
  lemma BadTagSent(obj: RegisterValue)
    ensures obj.tag > 14 <==> Validate(VALUE, obj.Image()) == BadUnionTag
  {
    if obj.tag <= 14 {
      OptionTagless(obj.tag);
      OnlyBadLength(OptionType(obj.tag), obj.Option());
    }
  }

  /** So does the reader. */
  lemma BadTag(bytes: seq<bv8>, r: Status, v: Value, size: nat)
    requires Deserialized(VALUE, bytes, r, v, size) && |bytes| > 0
    ensures r == BadUnionTag <==> LoadLe(bytes[..1]) > 14
  {
    var b := BitsOf(bytes);
    var tag := Unsigned(b, 0, 8);
    UnionDecoded(Options(), b, 0, tag);
    if tag < 15 {
      OptionTagless(tag);
      NoTagFault(OptionType(tag), b, 8);
    }
    BitsOfSlice(bytes, 0, 1);
    assert bytes[0..1] == bytes[..1];
    assert Read(b, 0, 8) == b[0..8];
  }

  lemma OptionTagless(tag: nat)
    requires tag < 15
    ensures Tagless(OptionType(tag))
  {
    if 1 <= tag <= 13 {
      assert Tagless(Then(OptionArray(tag), Empty));
    } else if tag == 14 {
      assert Tagless(R.REAL16_FIELDS);
    }
  }

  lemma {:induction false} NoTagFault(t: Type, b: seq<bool>, off: nat)
    requires Tagless(t)
    ensures Decode(t, b, off).Fail? ==> Decode(t, b, off).error == BadArrayLength
    decreases t, 0
  {
    match t
    case Empty | Field(_) | Void(_) =>
    case Blob(p, _, _) => BlobDecoded(t, b, off, Unsigned(b, off, p));
    case List(p, e, _) =>
      forall o: nat
        ensures Decoder(e)(b, o).Fail? ==> Decoder(e)(b, o).error == BadArrayLength
      {
        NoTagFault(e, b, o);
      }
      ListDecoded(t, b, off, Unsigned(b, off, p));
      NoTagFaults(Decoder(e), Unsigned(b, off, p), b, off + p);
    case Then(x, y) =>
      var r := Decode(x, b, off);
      NoTagFault(x, b, off);
      ThenDecoded(t, b, off, r);
      if r.Done? {
        NoTagFault(y, b, r.next);
      }
    case Nested(x) => NoTagFault(x, b, Align(off));
  }

  lemma {:induction false} NoTagFaults(f: (seq<bool>, nat) -> Result, n: nat, b: seq<bool>, off: nat)
    requires forall o: nat :: f(b, o).Fail? ==> f(b, o).error == BadArrayLength
    ensures DecodeList(f, n, b, off).Fail? ==> DecodeList(f, n, b, off).error == BadArrayLength
  {
    if n > 0 {
      var r := f(b, off);
      if r.Done? {
        NoTagFaults(f, n - 1, b, r.next);
      }
    }
  }

  /** Access.Request: a name and a value in sequence come back for every option of the value. */
  lemma AccessRoundTrip(obj: AccessRequest, was: seq<bool>, buf: seq<bv8>, at: nat, capacity: nat, size: nat, n: nat,
    r: Status, got: Option<AccessRequest>, v: Value, consumed: nat)
    requires r == Ok <==> got.Some? && got.value.Valid() && got.value.Reads(v)
    requires Carried(ACCESS, obj.Image(), was, buf, at, capacity, size, n, r, v, consumed)
    ensures r == Ok && SameElements(got.value.name, obj.name, 8) && SameValue(got.value.value, obj.value)
    ensures consumed == size && 2 <= size <= 515
  {
    AccessWellFormed();
    Arrives(ACCESS, obj.Image(), was, buf, at, capacity, size, n, r, v, consumed);
    SameImage(got.value.name, obj.name, 8);
    ReadsImage(got.value.value, obj.value);
    AccessExtent();
    FitsIffValid(ACCESS, obj.Image());
    EncodeBounded(ACCESS, obj.Image(), 0);
  }
}
