/** Whole trips: an object is serialized into a buffer, and `n` bytes from the same place on are deserialized again. What is
    received may be longer than what was sent, and whatever the buffer held before may follow it. */
module Trips {
  import opened Bits
  import opened Serialization
  import opened Dsdl
  import opened Codec
  import opened Layout
  import opened Primitive
  import opened NodeInfo
  import opened NodeStatistics
  import opened NodeHealth
  import opened FileMessages
  import opened Registers
  import Pnp
  import opened Catalogue
  import opened Versions

  /** GetInfo.Response comes back field by field. */
  method InfoTrip(obj: Info, buf: array<bv8>, at: nat, capacity: nat, n: nat)
    returns (sent: Status, size: nat, got: Option<Info>, consumed: nat)
    requires obj.Valid() && at + capacity <= buf.Length && at + n <= buf.Length
    modifies buf
    ensures sent == Ok && size <= n ==> got.Some? && consumed == size && SameInfo(got.value, obj)
  {
    ghost var was := BitsOf(buf[..]);
    got, consumed := None, 0;
    sent, size := SerializeInfo(obj, buf, at, capacity);
    if sent == Ok && size <= n {
      var r;
      r, got, consumed := DeserializeInfo(buf[at..at + n]);
      assert buf[..][at..at + n] == buf[at..at + n];
      InfoRoundTrip(obj, was, buf[..], at, capacity, size, n, r, got, consumed);
    }
  }

  predicate SameCounts(a: Transport, b: Transport) {
    && Truncates(a.transfers, b.transfers) && |a.interfaces| == |b.interfaces|
    && forall i | 0 <= i < |b.interfaces| :: Truncates(a.interfaces[i], b.interfaces[i])
  }

  /** GetTransportStatistics.Response comes back with every counter modulo 2^40. */
  method TransportTrip(obj: Transport, buf: array<bv8>, at: nat, capacity: nat, n: nat)
    returns (sent: Status, size: nat, got: Option<Transport>, consumed: nat)
    requires at + capacity <= buf.Length && at + n <= buf.Length
    modifies buf
    ensures sent == Ok && size <= n ==> got.Some? && consumed == size && SameCounts(got.value, obj)
  {
    ghost var was := BitsOf(buf[..]);
    got, consumed := None, 0;
    sent, size := SerializeTransport(obj, buf, at, capacity);
    if sent == Ok && size <= n {
      var r;
      r, got, consumed := DeserializeTransport(buf[at..at + n]);
      assert buf[..][at..at + n] == buf[at..at + n];
      TransportRoundTrip(obj, was, buf[..], at, capacity, size, n, r, got, consumed);
    }
  }

  /** A heartbeat fits into seven bytes and comes back with health and mode clamped. */
  method HeartbeatTrip(obj: Heartbeat, buf: array<bv8>, at: nat, capacity: nat, n: nat)
    returns (sent: Status, size: nat, got: Option<Heartbeat>, consumed: nat)
    requires at + capacity <= buf.Length && at + n <= buf.Length
    modifies buf
    ensures sent == if capacity < 7 then BufferTooSmall else Ok
    ensures sent == Ok && size <= n ==> got.Some? && consumed == size && SameBeat(got.value, obj)
  {
    ghost var was := BitsOf(buf[..]);
    got, consumed := None, 0;
    sent, size := SerializeHeartbeat(obj, buf, at, capacity);
    if sent == Ok && size <= n {
      var r, beat;
      r, beat, consumed := DeserializeHeartbeat(buf[at..at + n]);
      assert buf[..][at..at + n] == buf[at..at + n];
      HeartbeatRoundTrip(obj, was, buf[..], at, capacity, size, n, r, beat, consumed);
      got := Some(beat);
    }
  }

  predicate SameBeat(a: Heartbeat, b: Heartbeat) {
    && a.uptime == b.uptime && a.vendorStatus == b.vendorStatus
    && a.health == ChooseMin(b.health, 3) && a.mode == ChooseMin(b.mode, 7)
  }

  /** Write.Request into a buffer of its extent: only the two array lengths can be refused. */
  method SendWrite(obj: WriteRequest, buf: array<bv8>, at: nat) returns (sent: Status, size: nat)
    requires obj.Valid() && at + 311 <= buf.Length
    modifies buf
    ensures sent == if obj.path.count > 112 || obj.data.count > 192 then BadArrayLength else Ok
    ensures sent == Ok ==> 7 <= size <= 311
  {
    ghost var was := BitsOf(buf[..]);
    sent, size := SerializeWrite(obj, buf, at, 311);
    WriteCapacity(obj, was, BitsOf(buf[..]), at, 311, sent, size);
  }

  /** Write.Request comes back with its offset modulo 2^40, its path and its data. */
  method WriteTrip(obj: WriteRequest, buf: array<bv8>, at: nat, capacity: nat, n: nat)
    returns (sent: Status, size: nat, got: Option<WriteRequest>, consumed: nat)
    requires obj.Valid() && at + capacity <= buf.Length && at + n <= buf.Length
    modifies buf
    ensures sent == Ok && size <= n ==> got.Some? && consumed == size && SameWrite(got.value, obj)
  {
    ghost var was := BitsOf(buf[..]);
    got, consumed := None, 0;
    sent, size := SerializeWrite(obj, buf, at, capacity);
    if sent == Ok && size <= n {
      var r;
      r, got, consumed := DeserializeWrite(buf[at..at + n]);
      assert buf[..][at..at + n] == buf[at..at + n];
      WriteRoundTrip(obj, was, buf[..], at, capacity, size, n, r, got, consumed);
    }
  }

  /** NodeIDAllocationData comes back with its hash modulo 2^48 and its identifier. */
  method AllocationTrip(obj: Pnp.Allocation, buf: array<bv8>, at: nat, capacity: nat, n: nat)
    returns (sent: Status, size: nat, got: Option<Pnp.Allocation>, consumed: nat)
    requires at + capacity <= buf.Length && at + n <= buf.Length
    modifies buf
    ensures sent == Ok && size <= n ==> got.Some? && consumed == size && SameAllocation(got.value, obj)
  {
    ghost var was := BitsOf(buf[..]);
    got, consumed := None, 0;
    sent, size := Pnp.SerializeAllocation(obj, buf, at, capacity);
    if sent == Ok && size <= n {
      var r;
      r, got, consumed := Pnp.DeserializeAllocation(buf[at..at + n]);
      assert buf[..][at..at + n] == buf[at..at + n];
      AllocationRoundTrip(obj, was, buf[..], at, capacity, size, n, r, got, consumed);
    }
  }

  /** GetInfo.0.2, response: the two numbers come back modulo 2^40, everything else unchanged. */
  method FileInfoTrip(obj: FileInfo, buf: array<bv8>, at: nat, capacity: nat, n: nat)
    returns (sent: Status, size: nat, got: Option<FileInfo>, consumed: nat)
    requires at + capacity <= buf.Length && at + n <= buf.Length
    modifies buf
    ensures sent == if capacity < 13 then BufferTooSmall else Ok
    ensures sent == Ok && size <= n ==> got.Some? && consumed == size && SameFileInfo(got.value, obj)
  {
    ghost var was := BitsOf(buf[..]);
    got, consumed := None, 0;
    sent, size := SerializeFileInfo(obj, buf, at, capacity);
    if sent == Ok && size <= n {
      var r, info;
      r, info, consumed := DeserializeFileInfo(buf[at..at + n]);
      assert buf[..][at..at + n] == buf[at..at + n];
      FileInfoRoundTrip(obj, was, buf[..], at, capacity, size, n, r, info, consumed) by {
        Below40(buf[at..at + n], 2);
        Below40(buf[at..at + n], 7);
      }
      got := Some(info);
    }
  }

  lemma Below40(bytes: seq<bv8>, i: nat)
    ensures Number(bytes, i, 5) < 0x100_0000_0000
  {
    Pow2Of40();
    FromBitsBound(Read(BitsOf(bytes), 8 * i, 40));
  }

  /** A register value comes back as the option that was written, for every tag that is accepted. */
  method ValueTrip(obj: RegisterValue, buf: array<bv8>, at: nat, capacity: nat, n: nat)
    returns (sent: Status, size: nat, got: Option<RegisterValue>, consumed: nat)
    requires obj.Valid() && at + capacity <= buf.Length && at + n <= buf.Length
    modifies buf
    ensures capacity >= 259 ==> (sent == BadUnionTag <==> obj.tag > 14)
    ensures sent == Ok && size <= n ==> got.Some? && consumed == size && SameValue(got.value, obj)
  {
    ghost var was := BitsOf(buf[..]);
    got, consumed := None, 0;
    sent, size := SerializeValue(obj, buf, at, capacity);
    ValueExtent();
    BadTagSent(obj);
    if sent == Ok && size <= n {
      var r;
      ghost var v;
      r, got, consumed, v := DeserializeValue(buf[at..at + n]);
      assert buf[..][at..at + n] == buf[at..at + n];
      ValueRoundTrip(obj, was, buf[..], at, capacity, size, n, r, got, v, consumed);
    }
  }

  /** A received register value is rejected for its tag exactly when its first byte is above 14. */
  method ReceiveValue(bytes: seq<bv8>) returns (r: Status, got: Option<RegisterValue>)
    requires |bytes| > 0
    ensures r == BadUnionTag <==> LoadLe(bytes[..1]) > 14
    ensures r == Ok ==> got.Some? && got.value.Valid()
  {
    var size;
    ghost var v;
    r, got, size, v := DeserializeValue(bytes);
    BadTag(bytes, r, v, size);
  }

  /** Access.Request: name and value come back. */
  method AccessTrip(obj: AccessRequest, buf: array<bv8>, at: nat, capacity: nat, n: nat)
    returns (sent: Status, size: nat, got: Option<AccessRequest>, consumed: nat)
    requires obj.Valid() && at + capacity <= buf.Length && at + n <= buf.Length
    modifies buf
    ensures sent == Ok && size <= n ==>
      got.Some? && consumed == size && SameElements(got.value.name, obj.name, 8) && SameValue(got.value.value, obj.value)
  {
    ghost var was := BitsOf(buf[..]);
    got, consumed := None, 0;
    sent, size := SerializeAccess(obj, buf, at, capacity);
    if sent == Ok && size <= n {
      var r;
      ghost var v;
      r, got, consumed, v := DeserializeAccess(buf[at..at + n]);
      assert buf[..][at..at + n] == buf[at..at + n];
      AccessRoundTrip(obj, was, buf[..], at, capacity, size, n, r, got, v, consumed);
    }
  }

  predicate SameRequest(a: ModifyRequest, b: ModifyRequest) {
    && a.preserveSource == b.preserveSource && a.overwriteDestination == b.overwriteDestination
    && SameElements(a.source, b.source, 8) && SameElements(a.destination, b.destination, 8)
  }

  lemma SameModify(a: ModifyRequest, b: ModifyRequest, p: Type, q: Type)
    requires IsPath(p) && IsPath(q) && a.Image(p) == b.Image(q)
    ensures SameRequest(a, b)
  {
    SameImage(a.source, b.source, 8);
    SameImage(a.destination, b.destination, 8);
  }

  /** Modify.Request written by a 1.0 node is the same request to a 1.1 node. */
  method UpgradeTrip(obj: ModifyRequest, buf: array<bv8>, at: nat, capacity: nat, n: nat)
    returns (sent: Status, size: nat, got: Option<ModifyRequest>, consumed: nat)
    requires obj.Valid(PATH_1_0) && at + capacity <= buf.Length && at + n <= buf.Length
    modifies buf
    ensures sent == Ok && size <= n ==> got.Some? && consumed == size && SameRequest(got.value, obj)
  {
    ghost var was := BitsOf(buf[..]);
    got, consumed := None, 0;
    sent, size := SerializeModify(PATH_1_0, obj, buf, at, capacity);
    if sent == Ok && size <= n {
      var r;
      r, got, consumed := DeserializeModify(PATH_2_0, buf[at..at + n]);
      assert buf[..][at..at + n] == buf[at..at + n];
      ghost var w := if r == Ok then got.value.Image(PATH_2_0) else Nothing;
      ModifyUpgrade(obj.Image(PATH_1_0), was, buf[..], at, capacity, size, n, r, w, consumed);
      SameModify(got.value, obj, PATH_2_0, PATH_1_0);
    }
  }

  /** Modify.Request written by a 1.1 node reaches a 1.0 node exactly when both paths have at most 112 bytes. */
  method DowngradeTrip(obj: ModifyRequest, buf: array<bv8>, at: nat, capacity: nat, n: nat)
    returns (sent: Status, size: nat, r: Status, got: Option<ModifyRequest>, consumed: nat)
    requires obj.Valid(PATH_2_0) && at + capacity <= buf.Length && at + n <= buf.Length
    modifies buf
    ensures sent == Ok && size <= n ==>
      r == if obj.source.count <= 112 && obj.destination.count <= 112 then Ok else BadArrayLength
    ensures sent == Ok && size <= n && r == Ok ==> got.Some? && consumed == size && SameRequest(got.value, obj)
  {
    ghost var was := BitsOf(buf[..]);
    r, got, consumed := BufferTooSmall, None, 0;
    sent, size := SerializeModify(PATH_2_0, obj, buf, at, capacity);
    if sent == Ok && size <= n {
      r, got, consumed := DeserializeModify(PATH_1_0, buf[at..at + n]);
      assert buf[..][at..at + n] == buf[at..at + n];
      ghost var w := if r == Ok then got.value.Image(PATH_1_0) else Nothing;
      ModifyDowngrade(obj, was, buf[..], at, capacity, size, n, r, w, consumed);
      if r == Ok {
        SameModify(got.value, obj, PATH_1_0, PATH_1_0);
      }
    }
  }
}
