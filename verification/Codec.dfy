/** What a generated serializer and deserializer promise, and the statements the code generator composes them from. A
    nested call on `&buffer[offset_bits / 8]` is a call with the same array and a byte origin `at`. */
module Codec {
  import opened Bits
  import opened Serialization
  import opened Dsdl
  import opened Laws
  import opened Sizes

  type u8 = n: nat | n < 0x100

  // ---------------------------------------------------------------- the contract of a serializer

  /** `capacity` bytes from `at` on were offered for value `v` of type `t`. Too small a buffer is refused untouched and
      nothing outside the offered bytes ever changes; otherwise the first bad length or tag is reported; on success the
      message, and nothing else, has been written. */
  ghost predicate Serialized(t: Type, v: Value, was: seq<bool>, now: seq<bool>, at: nat, capacity: nat,
    status: Status, size: nat)
    requires Shape(t, v)
  {
    && |now| == |was| && 8 * (at + capacity) <= |was|
    && (8 * capacity < MaxEnd(t, 0) ==> status == BufferTooSmall && now == was)
    && (8 * capacity >= MaxEnd(t, 0) ==> status == Validate(t, v) && Confined(was, now, at, capacity))
    && (status == Ok ==> 8 * size == |Encode(t, v, 0)| <= 8 * capacity
                         && now == Splice(was, 8 * at, Encode(t, v, 0)))
  }

  ghost predicate Confined(was: seq<bool>, now: seq<bool>, at: nat, capacity: nat) {
    && |now| == |was| && 8 * (at + capacity) <= |was|
    && now[..8 * at] == was[..8 * at] && now[8 * (at + capacity)..] == was[8 * (at + capacity)..]
  }

  /** The contract of a deserializer: the reference outcome, and the consumed size cut at the end of the input. */
  ghost predicate Deserialized(t: Type, bytes: seq<bv8>, status: Status, v: Value, size: nat) {
    match Decode(t, BitsOf(bytes), 0)
    case Fail(e) => status == e
    case Done(x, next) => status == Ok && v == x && size == ChooseMin(next, 8 * |bytes|) / 8
  }

  // ---------------------------------------------------------------- writing step by step

  /** The bits `done` stand at byte `at`; only the rest of their last byte may differ from before. */
  ghost predicate Wrote(now: seq<bool>, was: seq<bool>, at: nat, done: seq<bool>) {
    && |now| == |was| && 8 * at + |done| <= |was|
    && forall i | 0 <= i < |was| && !(8 * at + |done| <= i < 8 * at + Align(|done|)) ::
         now[i] == if 8 * at <= i < 8 * at + |done| then done[i - 8 * at] else was[i]
  }

  lemma WroteNothing(was: seq<bool>, at: nat)
    requires 8 * at <= |was|
    ensures Wrote(was, was, at, [])
  {
  }

  lemma WroteLength(now: seq<bool>, was: seq<bool>, at: nat, done: seq<bool>)
    requires Wrote(now, was, at, done)
    ensures |now| == |was| && 8 * at + |done| <= |was|
  {
  }

  lemma WroteMore(next: seq<bool>, now: seq<bool>, was: seq<bool>, at: nat, done: seq<bool>, x: seq<bool>)
    requires Wrote(now, was, at, done) && 8 * at + |done| + |x| <= |was|
    requires next == Splice(now, 8 * at + |done|, x)
    ensures Wrote(next, was, at, done + x)
  {
    AlignMonotone(|done|, |done + x|);
  }

  /** What was written into the rest of the last byte can be forgotten. */
  lemma WroteLess(now: seq<bool>, was: seq<bool>, at: nat, done: seq<bool>, x: seq<bool>)
    requires Wrote(now, was, at, done + x) && |done| + |x| <= Align(|done|)
    ensures Wrote(now, was, at, done)
  {
    assert Align(|done + x|) <= Align(|done|);
    forall i | 0 <= i < |was| && !(8 * at + |done| <= i < 8 * at + Align(|done|))
      ensures now[i] == if 8 * at <= i < 8 * at + |done| then done[i - 8 * at] else was[i]
    {
      assert 8 * at <= i < 8 * at + |done| ==> (done + x)[i - 8 * at] == done[i - 8 * at];
    }
  }

  lemma WroteAll(now: seq<bool>, was: seq<bool>, at: nat, done: seq<bool>)
    requires Wrote(now, was, at, done) && |done| % 8 == 0
    ensures now == Splice(was, 8 * at, done)
  {
  }

  lemma WroteConfined(now: seq<bool>, was: seq<bool>, at: nat, done: seq<bool>, capacity: nat)
    requires Wrote(now, was, at, done) && |done| <= 8 * capacity && 8 * (at + capacity) <= |was|
    ensures Confined(was, now, at, capacity)
  {
    hide Align;
    AlignWithin(|done|, capacity);
  }

  lemma AlignWithin(n: nat, k: nat)
    requires n <= 8 * k
    ensures Align(n) <= 8 * k
  {
  }

  lemma StoredByte(s: seq<bv8>, j: nat, x: bv8, bits: seq<bool>)
    requires j < |s| && |bits| == 8 && forall k | 0 <= k < 8 :: Bit(x, k) == bits[k]
    ensures BitsOf(s[j := x]) == Splice(BitsOf(s), 8 * j, bits)
  {
    forall i | 0 <= i < 8 * |s|
      ensures BitAt(s[j := x], i) == Splice(BitsOf(s), 8 * j, bits)[i]
    {
    }
  }

  /** A store of one byte, a length prefix or an 8-bit field: the conversion to uint8_t keeps the low eight bits. */
  method PutByte(buf: array<bv8>, at: nat, off: nat, value: nat, ghost was: seq<bool>, ghost done: seq<bool>)
    requires 8 * at + off + 8 <= 8 * buf.Length && off == |done| && off % 8 == 0
    requires Wrote(BitsOf(buf[..]), was, at, done)
    modifies buf
    ensures Wrote(BitsOf(buf[..]), was, at, done + ToBits(value, 8))
  {
    hide Wrote, Splice;
    ghost var s := buf[..];
    WroteLength(BitsOf(s), was, at, done);
    var x := ByteOf(ToBits(value, 8));
    buf[at + off / 8] := x;
    forall k | 0 <= k < 8
      ensures Bit(x, k) == ToBits(value, 8)[k]
    {
      ByteOfBit(ToBits(value, 8), k);
    }
    StoredByte(s, at + off / 8, x, ToBits(value, 8));
    assert buf[..] == s[at + off / 8 := x];
    WroteMore(BitsOf(buf[..]), BitsOf(s), was, at, done, ToBits(value, 8));
  }

  /** A field of fewer than eight bits at the start of a byte: the whole byte is stored. */
  method PutLow(buf: array<bv8>, at: nat, off: nat, value: nat, width: nat, ghost was: seq<bool>, ghost done: seq<bool>)
    requires 8 * at + off + 8 <= 8 * buf.Length && off == |done| && off % 8 == 0 && 0 < width <= 8
    requires Wrote(BitsOf(buf[..]), was, at, done)
    modifies buf
    ensures Wrote(BitsOf(buf[..]), was, at, done + ToBits(value, width))
  {
    hide *;
    PutByte(buf, at, off, value, was, done);
    ToBitsPrefix(value, 8, width);
    ghost var low, high := ToBits(value, width), ToBits(value, 8)[width..];
    assert done + ToBits(value, 8) == done + low + high;
    WroteLess(BitsOf(buf[..]), was, at, done + low, high);
  }

  /** `1 << k`. */
  ghost predicate Single(mask: bv8, k: nat) {
    forall i | 0 <= i < 8 :: Bit(mask, i) == (i == k)
  }

  lemma SingleMask(mask: bv8, k: nat)
    requires k < 8 && mask == 1 << k
    ensures Single(mask, k)
  {
    forall i | 0 <= i < 8
      ensures Bit(mask, i) == (i == k)
    {
      ShiftLeftBit(1, k, i);
      if k <= i {
        LowBitBit(true, i - k);
      }
    }
  }

  lemma RaisedBit(b: bv8, mask: bv8, k: nat, i: nat)
    requires k < 8 && i < 8 && Single(mask, k)
    ensures Bit(b | mask, i) == (i == k || Bit(b, i))
  {
    OrBit(b, mask, i);
  }

  lemma ClearedBit(b: bv8, mask: bv8, k: nat, i: nat)
    requires k < 8 && i < 8 && Single(mask, k)
    ensures Bit(b & !mask, i) == (i != k && Bit(b, i))
  {
    NotBit(mask, i);
    AndBit(b, !mask, i);
  }

  lemma ChangedBits(s: seq<bv8>, j: nat, k: nat, flag: bool, x: bv8)
    requires j < |s| && k < 8 && forall i | 0 <= i < 8 :: Bit(x, i) == if i == k then flag else Bit(s[j], i)
    ensures BitsOf(s[j := x]) == Splice(BitsOf(s), 8 * j + k, [flag])
  {
    var now, expected := BitsOf(s[j := x]), Splice(BitsOf(s), 8 * j + k, [flag]);
    forall i | 0 <= i < 8 * |s|
      ensures now[i] == expected[i]
    {
      assert BitAt(s[j := x], i) == if i == 8 * j + k then flag else BitAt(s, i);
    }
  }

  /** The byte after a read-modify-write of one flag. */
  method ChangeFlag(b: bv8, k: nat, flag: bool) returns (x: bv8)
    requires k < 8
    ensures forall i | 0 <= i < 8 :: Bit(x, i) == if i == k then flag else Bit(b, i)
  {
    var mask: bv8 := 1 << k;
    SingleMask(mask, k);
    if flag {
      x := b | mask;
      forall i | 0 <= i < 8
        ensures Bit(x, i) == (i == k || Bit(b, i))
      {
        RaisedBit(b, mask, k, i);
      }
    } else {
      x := b & !mask;
      forall i | 0 <= i < 8
        ensures Bit(x, i) == (i != k && Bit(b, i))
      {
        ClearedBit(b, mask, k, i);
      }
    }
  }

  /** A flag that does not start a byte: read, modify, write. */
  method PutFlag(buf: array<bv8>, at: nat, off: nat, value: bool, ghost was: seq<bool>, ghost done: seq<bool>)
    requires 8 * at + off + 1 <= 8 * buf.Length && off == |done|
    requires Wrote(BitsOf(buf[..]), was, at, done)
    modifies buf
    ensures Wrote(BitsOf(buf[..]), was, at, done + [value])
  {
    ghost var s := buf[..];
    var j, k := at + off / 8, off % 8;
    var x := ChangeFlag(buf[j], k, value);
    buf[j] := x;
    ChangedBits(s, j, k, value, x);
    assert buf[..] == s[j := x];
    assert 8 * j + k == 8 * at + off;
    WroteMore(BitsOf(buf[..]), BitsOf(s), was, at, done, [value]);
  }

  /** memmove of the first `n` bytes of an unsigned integer object. */
  method PutInteger(buf: array<bv8>, at: nat, off: nat, value: u64, n: nat, ghost was: seq<bool>, ghost done: seq<bool>)
    requires 8 * at + off + 8 * n <= 8 * buf.Length && off == |done| && off % 8 == 0 && n <= 8
    requires Wrote(BitsOf(buf[..]), was, at, done)
    modifies buf
    ensures Wrote(BitsOf(buf[..]), was, at, done + ToBits(value, 8 * n))
  {
    hide Copied, Splice, Read, ToBits, BitsOf, Wrote, StoreLe, FromBits;
    ghost var s := buf[..];
    WroteLength(BitsOf(s), was, at, done);
    var image := StoreLe(value, 8);
    var pdst := at + off / 8;
    assert 8 * pdst == 8 * at + off;
    Memmove(buf, pdst, image, 0, n);
    CopiedIsSplice(buf[..], s, 8 * pdst, 8 * n, image, 0);
    LowBits(value, 8 * n);
    WroteMore(BitsOf(buf[..]), BitsOf(s), was, at, done, ToBits(value, 8 * n));
  }

  /** nunavutCopyBits of the elements of an array from their memory. */
  method PutElements(buf: array<bv8>, at: nat, off: nat, memory: seq<bv8>, n: nat,
    ghost was: seq<bool>, ghost done: seq<bool>)
    requires 8 * at + off + n <= 8 * buf.Length && off == |done| && n <= 8 * |memory|
    requires Wrote(BitsOf(buf[..]), was, at, done)
    modifies buf
    ensures Wrote(BitsOf(buf[..]), was, at, done + Read(BitsOf(memory), 0, n))
  {
    hide Splice, Read;
    ghost var s := BitsOf(buf[..]);
    ghost var p := SomePlacement(|memory|, buf.Length);
    ghost var passed := CopyBits(buf, 8 * at + off, n, memory, 0, p);
    WroteMore(BitsOf(buf[..]), s, was, at, done, Read(BitsOf(memory), 0, n));
  }

  /** Void fields: nunavutSetUxx of zero, which cannot fail here. */
  method PutVoid(buf: array<bv8>, at: nat, capacity: nat, off: nat, n: nat, ghost was: seq<bool>, ghost done: seq<bool>)
    returns (r: Status)
    requires at + capacity <= buf.Length && off + n <= 8 * capacity && off == |done| && n <= 64
    requires Wrote(BitsOf(buf[..]), was, at, done)
    modifies buf
    ensures r == Ok && Wrote(BitsOf(buf[..]), was, at, done + Zeros(n))
  {
    hide ToBits, Touching, Wrote;
    ghost var s := BitsOf(buf[..]);
    WroteLength(s, was, at, done);
    ghost var p := SomePlacement(8, buf.Length);
    ghost var passed;
    r, passed := SetUxx(buf, at + capacity, 8 * at + off, 0, n, p);
    ToBitsZero(n);
    WroteMore(BitsOf(buf[..]), s, was, at, done, Zeros(n));
  }

  /** Padding to the next byte boundary. */
  method Pad(buf: array<bv8>, at: nat, capacity: nat, off: nat, ghost was: seq<bool>, ghost done: seq<bool>)
    returns (r: Status, next: nat)
    requires at + capacity <= buf.Length && off <= 8 * capacity && off == |done|
    requires Wrote(BitsOf(buf[..]), was, at, done)
    modifies buf
    ensures r == Ok && next == Align(off)
    ensures Wrote(BitsOf(buf[..]), was, at, done + Zeros(Align(off) - off))
  {
    hide *;
    r, next := Ok, off;
    if off % 8 != 0 {
      var pad := 8 - off % 8;
      r := PutVoid(buf, at, capacity, off, pad, was, done);
      next := off + pad;
      assert next % 8 == 0;
    } else {
      assert done + Zeros(0) == done;
    }
  }

  // ---------------------------------------------------------------- reading step by step

  datatype Option<T> = None | Some(value: T)

  /** A deserializer's offset and the reference offset: equal, or both past the end of the input, where everything is
      zero. They part when a nested object runs out of input, because it reports only the bytes it found. */
  ghost predicate Tracks(bits: nat, off: nat, ref: nat) {
    off == ref || (bits <= off && bits <= ref && off % 8 == ref % 8)
  }

  lemma TracksRead(b: seq<bool>, off: nat, ref: nat, n: nat)
    requires Tracks(|b|, off, ref)
    ensures Read(b, off, n) == Read(b, ref, n)
  {
  }

  lemma TracksSame(b: seq<bool>, off: nat, ref: nat)
    requires Tracks(|b|, off, ref)
    ensures SameFrom(b, off, b, ref)
  {
    forall n: nat
      ensures Alike(b, off, b, ref, n)
    {
      TracksRead(b, off, ref, n);
    }
  }

  lemma ReadNumber(b: seq<bool>, off: nat, n: nat)
    ensures Unsigned(b, off, n) < Pow2(n) && ToBits(Unsigned(b, off, n), n) == Read(b, off, n)
  {
    FromBitsBound(Read(b, off, n));
    ToFromBits(Read(b, off, n));
  }

  /** `buffer[offset_bits / 8] & mask` where the field fits, and zero where it does not. */
  method TakeLow(bytes: seq<bv8>, off: nat, width: nat) returns (value: nat)
    requires off % 8 == 0 && 0 < width <= 8
    ensures value == Unsigned(BitsOf(bytes), off, width) < Pow2(width)
    ensures ToBits(value, width) == Read(BitsOf(bytes), off, width)
  {
    if off + width <= 8 * |bytes| {
      var mask: bv8 := if width == 8 then 0xFF else ((1 as bv32 << width) - 1) as bv8;
      var low := bytes[off / 8] & mask;
      value := LoadLe([low]);
      LowByte(bytes, off, width, mask, low);
    } else {
      value := 0;
      assert Read(BitsOf(bytes), off, width) == Zeros(width);
      FromBitsZeros(width);
    }
    ReadNumber(BitsOf(bytes), off, width);
  }

  lemma LowByte(bytes: seq<bv8>, off: nat, width: nat, mask: bv8, low: bv8)
    requires off % 8 == 0 && 0 < width <= 8 && off + width <= 8 * |bytes| && low == bytes[off / 8] & mask
    requires mask == if width == 8 then 0xFF else ((1 as bv32 << width) - 1) as bv8
    ensures LoadLe([low]) == Unsigned(BitsOf(bytes), off, width)
  {
    hide Read, FromBits, BitsOf;
    var x := Read(BitsOf(bytes), off, width);
    forall k | 0 <= k < 8
      ensures Bit(low, k) == (k < width && Bit(bytes[off / 8], k))
    {
      AndBit(bytes[off / 8], mask, k);
      MaskLow(mask, width, k);
    }
    LowImage(bytes, off, width, low);
    FromBitsExtend(x, 8 - width);
  }

  lemma LowImage(bytes: seq<bv8>, off: nat, width: nat, low: bv8)
    requires off % 8 == 0 && 0 < width <= 8 && off + width <= 8 * |bytes|
    requires forall k | 0 <= k < 8 :: Bit(low, k) == (k < width && Bit(bytes[off / 8], k))
    ensures BitsOf([low]) == Read(BitsOf(bytes), off, width) + Zeros(8 - width)
  {
    var x, y := BitsOf([low]), Read(BitsOf(bytes), off, width) + Zeros(8 - width);
    forall k | 0 <= k < 8
      ensures x[k] == y[k]
    {
      assert BitAt([low], k) == Bit(low, k);
      assert k < width ==> BitAt(bytes, off + k) == Bit(bytes[off / 8], k);
    }
  }

  lemma MaskLow(mask: bv8, width: nat, k: nat)
    requires 0 < width <= 8 && k < 8
    requires mask == if width == 8 then 0xFF else ((1 as bv32 << width) - 1) as bv8
    ensures Bit(mask, k) == (k < width)
  {
    if width == 8 {
      BitMask(mask, k);
      match k { case 0 => case 1 => case 2 => case 3 => case 4 => case 5 => case 6 => case _ => }
    } else {
      LowMaskBit(width, k);
    }
  }

  /** One flag. */
  method TakeFlag(bytes: seq<bv8>, off: nat) returns (value: bool)
    ensures [value] == Read(BitsOf(bytes), off, 1)
  {
    if off < 8 * |bytes| {
      var mask: bv8 := 1 << (off % 8);
      value := bytes[off / 8] & mask != 0;
      ShiftIsMask(mask, off % 8);
      BitMask(bytes[off / 8], off % 8);
    } else {
      value := false;
    }
  }

  lemma ShiftIsMask(mask: bv8, k: nat)
    requires k < 8 && mask == 1 << k
    ensures mask == Mask(k)
  {
    match k { case 0 => case 1 => case 2 => case 3 => case 4 => case 5 => case 6 => case _ => }
  }

  /** The elements of an array: nunavutGetBits into their memory, of which the first `n` bits matter. */
  method TakeElements(bytes: seq<bv8>, off: nat, n: nat, capacityBytes: nat) returns (memory: seq<bv8>)
    requires n <= 8 * capacityBytes
    ensures |memory| == capacityBytes && Read(BitsOf(memory), 0, n) == Read(BitsOf(bytes), off, n)
  {
    var output := new bv8[capacityBytes];
    ghost var was := BitsOf(output[..]);
    ghost var p := SomePlacement(|bytes|, output.Length);
    ghost var passed := GetBits(output, bytes, off, n, p);
    memory := output[..];
    PaddedPrefix(BitsOf(memory), was, Read(BitsOf(bytes), off, n));
  }

  lemma PaddedPrefix(now: seq<bool>, was: seq<bool>, x: seq<bool>)
    requires 8 * ((|x| + 7) / 8) <= |was| && now == Splice(was, 0, ZeroPadded(x))
    ensures Read(now, 0, |x|) == x
  {
  }

  /** `&buffer[offset_bits / 8]` with the bytes that are left. */
  function Rest(bytes: seq<bv8>, off: nat): (r: seq<bv8>) {
    bytes[ChooseMin(off / 8, |bytes|)..]
  }

  lemma RestSame(bytes: seq<bv8>, off: nat)
    requires off % 8 == 0
    ensures SameFrom(BitsOf(Rest(bytes, off)), 0, BitsOf(bytes), off)
  {
    var m := ChooseMin(off / 8, |bytes|);
    BitsOfSlice(bytes, m, |bytes|);
    TailSame(BitsOf(Rest(bytes, off)), BitsOf(bytes), 8 * m, off);
  }

  lemma TailSame(tail: seq<bool>, b: seq<bool>, m: nat, off: nat)
    requires m <= |b| && tail == b[m..|b|] && (m == off || (m == |b| && off >= m))
    ensures SameFrom(tail, 0, b, off)
  {
    forall n: nat
      ensures Alike(tail, 0, b, off, n)
    {
    }
  }

  lemma SameTrans(b1: seq<bool>, o1: nat, b2: seq<bool>, o2: nat, b3: seq<bool>, o3: nat)
    requires SameFrom(b1, o1, b2, o2) && SameFrom(b2, o2, b3, o3)
    ensures SameFrom(b1, o1, b3, o3)
  {
    forall n: nat
      ensures Alike(b1, o1, b3, o3, n)
    {
      assert Alike(b1, o1, b2, o2, n) && Alike(b2, o2, b3, o3, n);
    }
  }

  /** A nested deserializer run on what is left of the input finds what the reference finds at its own offset, and adding
      the bytes it reports keeps the two offsets together. */
  lemma NestedRead(t: Type, bytes: seq<bv8>, off: nat, ref: nat, status: Status, v: Value, size: nat, end: nat)
    requires t.Nested? && off % 8 == 0 && Tracks(8 * |bytes|, off, ref) && end == off + 8 * size
    requires Deserialized(t, Rest(bytes, off), status, v, size)
    ensures var r := Decode(t, BitsOf(bytes), ref);
      if r.Fail? then status == r.error
      else status == Ok && v == r.value && r.next % 8 == 0 && Tracks(8 * |bytes|, end, r.next)
  {
    hide Decode, SameFrom;
    var rest, b := BitsOf(Rest(bytes, off)), BitsOf(bytes);
    assert Shifted(Decode(t, rest, 0), Decode(t, b, ref), ref) by {
      RestSame(bytes, off);
      TracksSame(b, off, ref);
      SameTrans(rest, 0, b, off, b, ref);
      PositionIndependent(t, rest, 0, b, ref);
    }
    NestedEnd(t, rest, 0);
    var r := Decode(t, rest, 0);
    if r.Done? {
      TracksNested(|bytes|, off, ref, r.next, size);
    }
  }

  lemma NestedEnd(t: Type, b: seq<bool>, off: nat)
    requires t.Nested?
    ensures Decode(t, b, off).Done? ==> Decode(t, b, off).next % 8 == 0
  {
  }

  lemma TracksNested(bytes: nat, off: nat, ref: nat, next: nat, size: nat)
    requires off % 8 == 0 && ref % 8 == 0 && next % 8 == 0 && Tracks(8 * bytes, off, ref)
    requires size == ChooseMin(next, 8 * (bytes - ChooseMin(off / 8, bytes))) / 8
    ensures Tracks(8 * bytes, off + 8 * size, ref + next)
  {
    var a, b, c := off / 8, ref / 8, next / 8;
    assert off == 8 * a && ref == 8 * b && next == 8 * c;
    EighthOfMin(c, bytes - ChooseMin(a, bytes));
    TracksBytes(bytes, a, b, c, size);
    SameInBytes(bytes, a + size, b + c);
  }

  lemma EighthOfMin(a: nat, b: nat)
    ensures ChooseMin(8 * a, 8 * b) / 8 == ChooseMin(a, b)
  {
  }

  /** The same with all quantities in bytes. */
  lemma TracksBytes(bytes: nat, a: nat, b: nat, c: nat, size: nat)
    requires a == b || (bytes <= a && bytes <= b)
    requires size == ChooseMin(c, bytes - ChooseMin(a, bytes))
    ensures a + size == b + c || (bytes <= a + size && bytes <= b + c)
  {
  }

  lemma SameInBytes(bytes: nat, a: nat, b: nat)
    requires a == b || (bytes <= a && bytes <= b)
    ensures Tracks(8 * bytes, 8 * a, 8 * b)
  {
  }

  // ---------------------------------------------------------------- variable-length arrays of primitives

  /** `count` elements and the memory of the whole array; what lies beyond the first `count` elements does not matter. */
  datatype Elements = Elements(count: nat, memory: seq<bv8>) {
    predicate Backed(bits: nat) { bits <= 8 * |memory| }

    function Image(unit: nat): Value { Plain(Read(BitsOf(memory), 0, count * unit)) }
  }

  predicate Prefixed(prefix: nat, unit: nat, capacity: nat) {
    0 < unit && ((prefix == 8 && capacity < 0x100) || (prefix == 16 && capacity < 0x1_0000))
  }

  lemma WholeCount(n: nat, u: nat)
    requires u > 0
    ensures (n * u) % u == 0 && (n * u) / u == n
  {
    DivModUnique(n * u, u, n, 0);
  }

  lemma BlobEncoded(t: Type, v: Value, n: nat, off: nat)
    requires t.Blob? && t.unit > 0 && v.Plain? && |v.bits| == n * t.unit
    ensures Shape(t, v) && Validate(t, v) == (if n > t.capacity then BadArrayLength else Ok)
    ensures Encode(t, v, off) == ToBits(n, t.prefix) + v.bits
  {
    WholeCount(n, t.unit);
  }

  /** The statement emitted for a variable-length array: check the length, store it, copy the elements. */
  method PutArray(buf: array<bv8>, at: nat, off: nat, t: Type, arr: Elements,
    ghost was: seq<bool>, ghost done: seq<bool>)
    returns (r: Status, next: nat)
    requires t.Blob? && Prefixed(t.prefix, t.unit, t.capacity) && arr.Backed(t.capacity * t.unit)
    requires 8 * at + off + t.prefix + t.capacity * t.unit <= 8 * buf.Length && off == |done| && off % 8 == 0
    requires Wrote(BitsOf(buf[..]), was, at, done)
    modifies buf
    ensures Shape(t, arr.Image(t.unit)) && r == Validate(t, arr.Image(t.unit))
    ensures r != Ok ==> buf[..] == old(buf[..])
    ensures r == Ok ==> next == off + t.prefix + arr.count * t.unit && arr.count <= t.capacity
    ensures r == Ok ==> Wrote(BitsOf(buf[..]), was, at, done + Encode(t, arr.Image(t.unit), off))
  {
    hide Wrote, ToBits, Encode;
    BlobEncoded(t, arr.Image(t.unit), arr.count, off);
    if arr.count > t.capacity {
      return BadArrayLength, off;
    }
    ghost var head := ToBits(arr.count, t.prefix);
    Scale(arr.count, t.capacity, t.unit);
    if t.prefix == 8 {
      PutByte(buf, at, off, arr.count, was, done);
    } else {
      PutInteger(buf, at, off, arr.count, 2, was, done);
    }
    PutElements(buf, at, off + t.prefix, arr.memory, arr.count * t.unit, was, done + head);
    assert done + head + arr.Image(t.unit).bits == done + Encode(t, arr.Image(t.unit), off);
    return Ok, off + t.prefix + arr.count * t.unit;
  }

  function BytesFor(bits: nat): (n: nat)
    ensures bits <= 8 * n < bits + 8
  {
    (bits + 7) / 8
  }

  /** The length prefix: a byte where it fits, or nunavutGetU16. */
  method TakeCount(bytes: seq<bv8>, off: nat, prefix: nat) returns (count: nat)
    requires off % 8 == 0 && (prefix == 8 || prefix == 16)
    ensures count == Unsigned(BitsOf(bytes), off, prefix)
  {
    if prefix == 8 {
      count := TakeLow(bytes, off, 8);
    } else {
      ghost var p := SomePlacement(|bytes|, 2);
      ghost var passed;
      count, passed := GetUxx(16, bytes, off, 16, p);
      assert passed;
    }
  }

  /** The statement that reads it back. */
  method TakeArray(bytes: seq<bv8>, off: nat, t: Type) returns (r: Status, arr: Elements, next: nat)
    requires t.Blob? && Prefixed(t.prefix, t.unit, t.capacity) && off % 8 == 0
    ensures arr.Backed(t.capacity * t.unit)
    ensures Decode(t, BitsOf(bytes), off) == if r == Ok then Done(arr.Image(t.unit), next) else Fail(r)
    ensures r == Ok || r == BadArrayLength
  {
    var count := TakeCount(bytes, off, t.prefix);
    BlobDecoded(t, BitsOf(bytes), off, count);
    var room := BytesFor(t.capacity * t.unit);
    if count > t.capacity {
      return BadArrayLength, Elements(count, seq(room, _ => 0)), off + t.prefix;
    }
    Scale(count, t.capacity, t.unit);
    Scale(0, count, t.unit);
    var start := off + t.prefix;
    var memory := TakeElements(bytes, start, count * t.unit, room);
    return Ok, Elements(count, memory), start + count * t.unit;
  }

  // ---------------------------------------------------------------- structures, field by field

  /** The point a serializer has reached: `done` is encoded, `v` of type `t` is left. */
  datatype Point = Point(done: seq<bool>, t: Type, v: Value)

  /** Of the encoding `all` with outcome `verdict`, the part up to the point is behind. A serializer only hands this fact
      from one field to the next, so it stands under `Open` and its definition is out of the way until it is needed. */
  ghost predicate Emitted(all: seq<bool>, verdict: Status, p: Point) {
    forall k: int | Open(k) :: Remaining(all, verdict, p)
  }

  ghost predicate Remaining(all: seq<bool>, verdict: Status, p: Point) {
    Shape(p.t, p.v) && all == p.done + Encode(p.t, p.v, |p.done|) && verdict == Validate(p.t, p.v)
  }

  predicate Open(k: int) { true }

  lemma EmitStart(t: Type, v: Value) returns (p: Point)
    requires Shape(t, v)
    ensures p == Point([], t, v) && Emitted(Encode(t, v, 0), Validate(t, v), p)
  {
    p := Point([], t, v);
    assert [] + Encode(t, v, 0) == Encode(t, v, 0);
    assert Remaining(Encode(t, v, 0), Validate(t, v), p);
  }

  lemma EmitField(all: seq<bool>, verdict: Status, p: Point, x: seq<bool>) returns (q: Point)
    requires Emitted(all, verdict, p) && p.t.Then? && p.v.Pair? && Shape(p.t.first, p.v.first)
    requires Validate(p.t.first, p.v.first) == Ok && x == Encode(p.t.first, p.v.first, |p.done|)
    ensures q == Point(p.done + x, p.t.rest, p.v.rest) && Emitted(all, verdict, q)
  {
    assert Open(0);
    q := Point(p.done + x, p.t.rest, p.v.rest);
    var left, y := EncodedParts(p.t, p.v, |p.done|, x);
    Regroup(all, p.done, x, left, y);
    assert Shape(p.t.rest, p.v.rest);
    assert verdict == Validate(p.t.rest, p.v.rest);
    assert Remaining(all, verdict, q);
  }

  lemma EmitWhole(all: seq<bool>, verdict: Status, x: seq<bool>) returns (p: Point)
    requires all == x && verdict == Ok
    ensures p == Point(x, Empty, Nothing) && Emitted(all, verdict, p)
  {
    p := Point(x, Empty, Nothing);
    assert x + [] == x;
    assert Remaining(all, verdict, p);
  }

  lemma RefusedField(verdict: Status, all: seq<bool>, p: Point)
    requires Emitted(all, verdict, p) && p.t.Then? && p.v.Pair? && Shape(p.t.first, p.v.first)
    requires Validate(p.t.first, p.v.first) != Ok
    ensures verdict == Validate(p.t.first, p.v.first)
  {
    assert Open(0);
  }

  lemma EncodedParts(t: Type, v: Value, off: nat, x: seq<bool>) returns (left: seq<bool>, y: seq<bool>)
    requires t.Then? && v.Pair? && x == Encode(t.first, v.first, off)
    ensures left == Encode(t, v, off) && y == Encode(t.rest, v.rest, off + |x|) && left == x + y
  {
    left, y := Encode(t, v, off), Encode(t.rest, v.rest, off + |x|);
    ThenEncoded(t, v, off, x);
  }

  lemma Regroup(all: seq<bool>, done: seq<bool>, x: seq<bool>, left: seq<bool>, y: seq<bool>)
    requires all == done + left && left == x + y
    ensures all == (done + x) + y && |done + x| == |done| + |x|
  {
  }

  /** All fields written and padded: the serializer has met its contract. */
  lemma Finished(t: Type, v: Value, was: seq<bool>, now: seq<bool>, at: nat, capacity: nat, done: seq<bool>)
    requires Shape(t, v) && Emitted(Encode(t, v, 0), Validate(t, v), Point(done, Empty, Nothing))
    requires 8 * (at + capacity) <= |was| && 8 * capacity >= MaxEnd(Nested(t), 0)
    requires Wrote(now, was, at, done + Zeros(Align(|done|) - |done|))
    ensures Serialized(Nested(t), v, was, now, at, capacity, Ok, Align(|done|) / 8)
    ensures MinEnd(Nested(t), 0) <= Align(|done|) <= MaxEnd(Nested(t), 0)
  {
    hide Encode, Wrote, MinEnd, MaxEnd, Fits;
    var all := done + Zeros(Align(|done|) - |done|);
    WholeEncoded(t, v, done);
    FitsIffValid(Nested(t), v);
    EncodeBounded(Nested(t), v, 0);
    WroteAll(now, was, at, all);
    WroteConfined(now, was, at, all, capacity);
  }

  lemma WholeEncoded(t: Type, v: Value, done: seq<bool>)
    requires Shape(t, v) && Emitted(Encode(t, v, 0), Validate(t, v), Point(done, Empty, Nothing))
    ensures Encode(Nested(t), v, 0) == done + Zeros(Align(|done|) - |done|)
    ensures Validate(Nested(t), v) == Ok
  {
    assert Open(0);
    assert Encode(t, v, 0) == done;
    PaddedAtStart(done);
  }

  lemma PaddedAtStart(x: seq<bool>)
    ensures Padded(x, 0) == x + Zeros(Align(|x|) - |x|)
  {
  }

  /** What one run of a serializer started from and has to produce. */
  datatype Job = Job(was: seq<bool>, all: seq<bool>, verdict: Status)

  ghost predicate Runs(job: Job, t: Type, v: Value)
    requires Shape(t, v)
  {
    forall k: int | Open(k) :: job.all == Encode(t, v, 0) && job.verdict == Validate(t, v)
  }

  /** The serializer stands at the point `p`, `off` bits into its part of the buffer. */
  ghost predicate Ready(buf: array<bv8>, at: nat, capacity: nat, off: nat, job: Job, p: Point)
    reads buf
  {
    && at + capacity <= buf.Length && off == |p.done| <= 8 * capacity
    && Wrote(BitsOf(buf[..]), job.was, at, p.done) && Emitted(job.all, job.verdict, p)
  }

  /** A field was refused after touching nothing but the offered bytes. */
  ghost predicate Failed(buf: array<bv8>, at: nat, capacity: nat, job: Job, r: Status)
    reads buf
  {
    r != Ok && r == job.verdict && Confined(job.was, BitsOf(buf[..]), at, capacity)
  }

  /** The next field is of type `t` and there is room for it. */
  ghost predicate Next(p: Point, t: Type, v: Value, off: nat, bits: nat, capacity: nat) {
    p.t.Then? && p.t.first == t && p.v.Pair? && p.v.first == v && off + bits <= 8 * capacity
  }

  ghost predicate Past(q: Point, p: Point) {
    p.t.Then? && p.v.Pair? && q.t == p.t.rest && q.v == p.v.rest
  }

  /** A buffer below the extent of the type is refused untouched. */
  lemma TooSmall(t: Type, v: Value, was: seq<bool>, at: nat, capacity: nat)
    requires Shape(t, v) && 8 * (at + capacity) <= |was| && 8 * capacity < MaxEnd(t, 0)
    ensures Serialized(t, v, was, was, at, capacity, BufferTooSmall, 0)
  {
  }

  method Begin(ghost t: Type, ghost v: Value, buf: array<bv8>, at: nat, capacity: nat)
    returns (ghost job: Job, ghost p: Point)
    requires at + capacity <= buf.Length && Shape(t, v)
    ensures job.was == BitsOf(buf[..]) && Runs(job, t, v)
    ensures Ready(buf, at, capacity, 0, job, p) && p == Point([], t, v)
  {
    job := Job(BitsOf(buf[..]), Encode(t, v, 0), Validate(t, v));
    WroteNothing(BitsOf(buf[..]), at);
    p := EmitStart(t, v);
  }

  method ByteField(buf: array<bv8>, at: nat, capacity: nat, off: nat, value: nat, ghost job: Job, ghost p: Point)
    returns (next: nat, ghost q: Point)
    requires Ready(buf, at, capacity, off, job, p) && off % 8 == 0
    requires Next(p, Field(8), Plain(ToBits(value, 8)), off, 8, capacity)
    modifies buf
    ensures Ready(buf, at, capacity, next, job, q) && Past(q, p) && next == off + 8 && next % 8 == 0
  {
    PutByte(buf, at, off, value, job.was, p.done);
    q := EmitField(job.all, job.verdict, p, ToBits(value, 8));
    next := off + 8;
  }

  method LowField(buf: array<bv8>, at: nat, capacity: nat, off: nat, value: nat, width: nat,
    ghost job: Job, ghost p: Point)
    returns (next: nat, ghost q: Point)
    requires Ready(buf, at, capacity, off, job, p) && off % 8 == 0 && 0 < width <= 8
    requires Next(p, Field(width), Plain(ToBits(value, width)), off, 8, capacity)
    modifies buf
    ensures Ready(buf, at, capacity, next, job, q) && Past(q, p) && next == off + width
  {
    PutLow(buf, at, off, value, width, job.was, p.done);
    q := EmitField(job.all, job.verdict, p, ToBits(value, width));
    next := off + width;
  }

  /** A flag at the start of a byte: the whole byte is stored. */
  method FirstFlagField(buf: array<bv8>, at: nat, capacity: nat, off: nat, value: bool, ghost job: Job, ghost p: Point)
    returns (next: nat, ghost q: Point)
    requires Ready(buf, at, capacity, off, job, p) && off % 8 == 0
    requires Next(p, Field(1), Plain([value]), off, 8, capacity)
    modifies buf
    ensures Ready(buf, at, capacity, next, job, q) && Past(q, p) && next == off + 1
  {
    PutLow(buf, at, off, if value then 1 else 0, 1, job.was, p.done);
    assert ToBits(if value then 1 else 0, 1) == [value];
    q := EmitField(job.all, job.verdict, p, [value]);
    next := off + 1;
  }

  method FlagField(buf: array<bv8>, at: nat, capacity: nat, off: nat, value: bool, ghost job: Job, ghost p: Point)
    returns (next: nat, ghost q: Point)
    requires Ready(buf, at, capacity, off, job, p)
    requires Next(p, Field(1), Plain([value]), off, 1, capacity)
    modifies buf
    ensures Ready(buf, at, capacity, next, job, q) && Past(q, p) && next == off + 1
  {
    PutFlag(buf, at, off, value, job.was, p.done);
    q := EmitField(job.all, job.verdict, p, [value]);
    next := off + 1;
  }

  method IntegerField(buf: array<bv8>, at: nat, capacity: nat, off: nat, value: u64, n: nat,
    ghost job: Job, ghost p: Point)
    returns (next: nat, ghost q: Point)
    requires Ready(buf, at, capacity, off, job, p) && off % 8 == 0 && n <= 8
    requires Next(p, Field(8 * n), Plain(ToBits(value, 8 * n)), off, 8 * n, capacity)
    modifies buf
    ensures Ready(buf, at, capacity, next, job, q) && Past(q, p) && next == off + 8 * n && next % 8 == 0
  {
    PutInteger(buf, at, off, value, n, job.was, p.done);
    q := EmitField(job.all, job.verdict, p, ToBits(value, 8 * n));
    next := off + 8 * n;
  }

  /** An array of fixed length. */
  method BytesField(buf: array<bv8>, at: nat, capacity: nat, off: nat, memory: seq<bv8>, ghost job: Job, ghost p: Point)
    returns (next: nat, ghost q: Point)
    requires Ready(buf, at, capacity, off, job, p) && off % 8 == 0
    requires Next(p, Field(8 * |memory|), Plain(BitsOf(memory)), off, 8 * |memory|, capacity)
    modifies buf
    ensures Ready(buf, at, capacity, next, job, q) && Past(q, p) && next == off + 8 * |memory| && next % 8 == 0
  {
    PutElements(buf, at, off, memory, 8 * |memory|, job.was, p.done);
    ReadWhole(BitsOf(memory));
    q := EmitField(job.all, job.verdict, p, BitsOf(memory));
    next := off + 8 * |memory|;
  }

  lemma ReadWhole(b: seq<bool>)
    ensures Read(b, 0, |b|) == b
  {
  }

  method VoidField(buf: array<bv8>, at: nat, capacity: nat, off: nat, n: nat, ghost job: Job, ghost p: Point)
    returns (r: Status, next: nat, ghost q: Point)
    requires Ready(buf, at, capacity, off, job, p) && n <= 64
    requires Next(p, Void(n), Nothing, off, n, capacity)
    modifies buf
    ensures r == Ok && Ready(buf, at, capacity, next, job, q) && Past(q, p) && next == off + n
  {
    r := PutVoid(buf, at, capacity, off, n, job.was, p.done);
    q := EmitField(job.all, job.verdict, p, Zeros(n));
    next := off + n;
  }

  /** A variable-length array. */
  method ArrayField(buf: array<bv8>, at: nat, capacity: nat, off: nat, t: Type, arr: Elements,
    ghost job: Job, ghost p: Point)
    returns (r: Status, next: nat, ghost q: Point)
    requires t.Blob? && Prefixed(t.prefix, t.unit, t.capacity) && arr.Backed(t.capacity * t.unit)
    requires Ready(buf, at, capacity, off, job, p) && off % 8 == 0
    requires Next(p, t, arr.Image(t.unit), off, t.prefix + t.capacity * t.unit, capacity)
    modifies buf
    ensures r != Ok ==> Failed(buf, at, capacity, job, r)
    ensures r == Ok ==> Ready(buf, at, capacity, next, job, q) && Past(q, p)
    ensures r == Ok ==> next == off + t.prefix + arr.count * t.unit && arr.count <= t.capacity
  {
    q := p;
    r, next := PutArray(buf, at, off, t, arr, job.was, p.done);
    if r == Ok {
      BlobEncoded(t, arr.Image(t.unit), arr.count, off);
      Scale(arr.count, t.capacity, t.unit);
      q := EmitField(job.all, job.verdict, p, Encode(t, arr.Image(t.unit), off));
    } else {
      RefusedField(job.verdict, job.all, p);
      WroteConfined(BitsOf(buf[..]), job.was, at, p.done, capacity);
    }
  }

  /** The same for elements of whole bytes, which leaves the offset on a byte boundary. */
  method ByteArrayField(buf: array<bv8>, at: nat, capacity: nat, off: nat, t: Type, arr: Elements,
    ghost job: Job, ghost p: Point) returns (r: Status, next: nat, ghost q: Point)
    requires t.Blob? && Prefixed(t.prefix, t.unit, t.capacity) && arr.Backed(t.capacity * t.unit) && t.unit % 8 == 0
    requires Ready(buf, at, capacity, off, job, p) && off % 8 == 0
    requires Next(p, t, arr.Image(t.unit), off, t.prefix + t.capacity * t.unit, capacity)
    modifies buf
    ensures r != Ok ==> Failed(buf, at, capacity, job, r)
    ensures r == Ok ==> Ready(buf, at, capacity, next, job, q) && Past(q, p) && next % 8 == 0
    ensures r == Ok ==> next == off + t.prefix + arr.count * t.unit <= off + t.prefix + t.capacity * t.unit
  {
    r, next, q := ArrayField(buf, at, capacity, off, t, arr, job, p);
    if r == Ok {
      Scale(arr.count, t.capacity, t.unit);
      WholeBytes(arr.count, t.unit);
      WholeSum(off, t.prefix, arr.count * t.unit);
    }
  }

  lemma WholeBits(off: nat, n: nat)
    requires off == 8 * n
    ensures off % 8 == 0
  {
  }

  lemma WholeSum(a: nat, b: nat, c: nat)
    requires a % 8 == 0 && b % 8 == 0 && c % 8 == 0
    ensures (a + b + c) % 8 == 0
  {
  }

  lemma WholeBytes(n: nat, u: nat)
    requires u % 8 == 0
    ensures (n * u) % 8 == 0
  {
    assert n * (8 * (u / 8)) == 8 * (n * (u / 8));
    DivModUnique(n * u, 8, n * (u / 8), 0);
  }

  /** A nested serializer that was offered the extent of its type has written the next field or reported its error. */
  lemma NestedField(buf: array<bv8>, mid: seq<bool>, at: nat, capacity: nat, off: nat, inner: nat,
    job: Job, p: Point, r: Status, size: nat, next: nat) returns (q: Point)
    requires at + capacity <= buf.Length && |mid| == 8 * buf.Length && off == |p.done| && off % 8 == 0
    requires Wrote(mid, job.was, at, p.done) && Emitted(job.all, job.verdict, p)
    requires p.t.Then? && p.t.first.Nested? && off + 8 * inner <= 8 * capacity && 8 * inner >= MaxEnd(p.t.first, 0)
    requires p.v.Pair? && Shape(p.t.first, p.v.first)
    requires Serialized(p.t.first, p.v.first, mid, BitsOf(buf[..]), at + off / 8, inner, r, size)
    requires next == off + 8 * size
    ensures r == Ok ==> Ready(buf, at, capacity, next, job, q) && Past(q, p) && next % 8 == 0
    ensures r == Ok ==> MinEnd(p.t.first, 0) <= 8 * size <= MaxEnd(p.t.first, 0)
    ensures r != Ok ==> Failed(buf, at, capacity, job, r)
  {
    q := p;
    if r == Ok {
      q := NestedDone(BitsOf(buf[..]), mid, at, off, inner, job, p, size);
      WholeSum(off, 8 * size, 0);
    } else {
      RefusedField(job.verdict, job.all, p);
      NestedConfined(p.t.first, p.v.first, job.was, mid, BitsOf(buf[..]), at, p.done, off, inner, r, size, capacity);
    }
  }

  lemma NestedDone(now: seq<bool>, mid: seq<bool>, at: nat, off: nat, inner: nat, job: Job, p: Point, size: nat)
    returns (q: Point)
    requires off == |p.done| && off % 8 == 0 && Wrote(mid, job.was, at, p.done) && Emitted(job.all, job.verdict, p)
    requires p.t.Then? && p.t.first.Nested? && p.v.Pair? && Shape(p.t.first, p.v.first)
    requires Serialized(p.t.first, p.v.first, mid, now, at + off / 8, inner, Ok, size)
    ensures Wrote(now, job.was, at, q.done) && Emitted(job.all, job.verdict, q) && |q.done| == off + 8 * size
    ensures Past(q, p) && MinEnd(p.t.first, 0) <= 8 * size <= MaxEnd(p.t.first, 0) && size <= inner
  {
    NestedWritten(p.t.first, p.v.first, job.was, mid, now, at, p.done, off, inner, size);
    q := EmitField(job.all, job.verdict, p, Encode(p.t.first, p.v.first, 0));
  }

  /** The end of every serializer: padding to a whole number of bytes, and the size. */
  method Complete(ghost t: Type, ghost v: Value, buf: array<bv8>, at: nat, capacity: nat, off: nat,
    ghost job: Job, ghost p: Point) returns (r: Status, size: nat)
    requires Shape(t, v) && Runs(job, t, v)
    requires p.t.Empty? && Ready(buf, at, capacity, off, job, p) && 8 * capacity >= MaxEnd(Nested(t), 0)
    modifies buf
    ensures r == Ok && Serialized(Nested(t), v, job.was, BitsOf(buf[..]), at, capacity, Ok, size)
    ensures 8 * size == Align(off)
    ensures MinEnd(Nested(t), 0) <= 8 * size <= MaxEnd(Nested(t), 0)
  {
    assert Open(0);
    var next;
    r, next := Pad(buf, at, capacity, off, job.was, p.done);
    Finished(t, v, job.was, BitsOf(buf[..]), at, capacity, p.done);
    size := next / 8;
  }

  /** A field was refused: so is the object, with the same error. */
  lemma Refused(t: Type, v: Value, buf: array<bv8>, at: nat, capacity: nat, job: Job, r: Status)
    requires Shape(t, v) && Runs(job, t, v)
    requires at + capacity <= buf.Length && 8 * capacity >= MaxEnd(Nested(t), 0) && Failed(buf, at, capacity, job, r)
    ensures Serialized(Nested(t), v, job.was, BitsOf(buf[..]), at, capacity, r, 0)
  {
    assert Open(0);
  }

  /** A nested serializer that succeeded at a byte boundary has written the next field. */
  lemma NestedWritten(t: Type, v: Value, was: seq<bool>, mid: seq<bool>, now: seq<bool>, at: nat, done: seq<bool>,
    off: nat, capacity: nat, size: nat)
    requires t.Nested? && Shape(t, v) && off == |done| && off % 8 == 0 && Wrote(mid, was, at, done)
    requires Serialized(t, v, mid, now, at + off / 8, capacity, Ok, size)
    ensures Encode(t, v, off) == Encode(t, v, 0) && Wrote(now, was, at, done + Encode(t, v, 0))
    ensures 8 * size == |Encode(t, v, 0)| && Validate(t, v) == Ok
    ensures MinEnd(t, 0) <= 8 * size <= MaxEnd(t, 0)
  {
    hide Encode, MinEnd, MaxEnd, Validate, Fits;
    EncodeAnywhere(t, v, 0, off);
    WroteMore(now, mid, was, at, done, Encode(t, v, 0));
    FitsIffValid(t, v);
    EncodeBounded(t, v, 0);
  }

  /** Whatever a nested serializer did stays in its part of the buffer. */
  lemma NestedConfined(t: Type, v: Value, was: seq<bool>, mid: seq<bool>, now: seq<bool>, at: nat, done: seq<bool>,
    off: nat, inner: nat, status: Status, size: nat, capacity: nat)
    requires t.Nested? && Shape(t, v) && off == |done| && off % 8 == 0 && Wrote(mid, was, at, done)
    requires Serialized(t, v, mid, now, at + off / 8, inner, status, size)
    requires off + 8 * inner <= 8 * capacity && 8 * (at + capacity) <= |was|
    ensures Confined(was, now, at, capacity)
  {
    hide Wrote, Encode, MinEnd, MaxEnd, Validate, Splice;
    WroteConfined(mid, was, at, done, capacity);
    var start, end := at + off / 8, at + off / 8 + inner;
    assert now[..8 * at] == now[..8 * start][..8 * at];
    assert mid[..8 * at] == mid[..8 * start][..8 * at];
    assert now[8 * (at + capacity)..] == now[8 * end..][8 * (at + capacity - end)..];
    assert mid[8 * (at + capacity)..] == mid[8 * end..][8 * (at + capacity - end)..];
  }

  /** The point a deserializer has reached: the reference is at `ref`, a value of type `t` is left to read, and `wrap`
      puts what was read so far around it. */
  datatype Cursor = Cursor(ref: nat, t: Type, wrap: Value -> Value) {
    function Around(r: Result): Result {
      if r.Done? then Done(wrap(r.value), r.next) else r
    }
  }

  /** `whole`, the reference outcome for the object, comes down to what the reference finds at the cursor. */
  ghost predicate Reading(whole: Result, bytes: seq<bv8>, off: nat, c: Cursor) {
    Tracks(8 * |bytes|, off, c.ref) && forall k: int | Open(k) :: Ahead(whole, BitsOf(bytes), c)
  }

  ghost predicate Ahead(whole: Result, b: seq<bool>, c: Cursor) {
    whole == c.Around(Decode(c.t, b, c.ref))
  }

  /** The cursor has moved past a field with value `v`. */
  ghost predicate After(d: Cursor, c: Cursor, v: Value) {
    c.t.Then? && d.t == c.t.rest && forall x :: d.wrap(x) == c.wrap(Pair(v, x))
  }

  lemma ReadStart(t: Type, bytes: seq<bv8>) returns (whole: Result, c: Cursor)
    ensures Outcome(whole, t, bytes) && Reading(whole, bytes, 0, c)
    ensures c.t == t && forall x :: c.wrap(x) == x
  {
    whole, c := Decode(t, BitsOf(bytes), 0), Cursor(0, t, (x: Value) => x);
    assert Ahead(whole, BitsOf(bytes), c);
  }

  ghost predicate Outcome(whole: Result, t: Type, bytes: seq<bv8>) {
    forall k: int | Open(k) :: whole == Decode(t, BitsOf(bytes), 0)
  }

  /** The reference takes one step. */
  lemma Stepped(whole: Result, b: seq<bool>, c: Cursor, v: Value, mark: nat) returns (d: Cursor)
    requires c.t.Then? && Decode(c.t.first, b, c.ref) == Done(v, mark)
    requires Ahead(whole, b, c)
    ensures After(d, c, v) && d.ref == mark && Ahead(whole, b, d)
  {
    ThenDecoded(c.t, b, c.ref, Done(v, mark));
    d := Cursor(mark, c.t.rest, (x: Value) => c.wrap(Pair(v, x)));
  }

  lemma Stuck(whole: Result, b: seq<bool>, c: Cursor, error: Fault)
    requires c.t.Then? && Decode(c.t.first, b, c.ref) == Fail(error)
    requires Ahead(whole, b, c)
    ensures whole == Fail(error)
  {
    ThenDecoded(c.t, b, c.ref, Fail(error));
  }

  /** A field read at the deserializer's own offset is the field the reference reads at the cursor. */
  lemma FieldTaken(whole: Result, bytes: seq<bv8>, off: nat, c: Cursor, v: Value, next: nat) returns (d: Cursor)
    requires Reading(whole, bytes, off, c) && c.t.Then? && Decode(c.t.first, BitsOf(bytes), off) == Done(v, next)
    ensures Reading(whole, bytes, next, d) && After(d, c, v)
  {
    assert Open(0);
    var b := BitsOf(bytes);
    TracksSame(b, off, c.ref);
    PositionIndependent(c.t.first, b, off, b, c.ref);
    Advances(c.t.first, b, off);
    TracksAdvance(8 * |bytes|, off, c.ref, next);
    d := Stepped(whole, b, c, v, next + c.ref - off);
  }

  lemma FieldFaulty(whole: Result, bytes: seq<bv8>, off: nat, c: Cursor, error: Fault)
    requires Reading(whole, bytes, off, c) && c.t.Then? && Decode(c.t.first, BitsOf(bytes), off) == Fail(error)
    ensures whole == Fail(error)
  {
    assert Open(0);
    TracksSame(BitsOf(bytes), off, c.ref);
    PositionIndependent(c.t.first, BitsOf(bytes), off, BitsOf(bytes), c.ref);
    Stuck(whole, BitsOf(bytes), c, error);
  }

  lemma TracksAdvance(bits: nat, off: nat, ref: nat, next: nat)
    requires Tracks(bits, off, ref) && off <= next
    ensures Tracks(bits, next, next + ref - off)
  {
  }

  /** A nested object read from what is left of the input. */
  lemma NestedTaken(whole: Result, bytes: seq<bv8>, off: nat, c: Cursor, r: Status, v: Value, size: nat, next: nat)
    returns (d: Cursor)
    requires Reading(whole, bytes, off, c) && c.t.Then? && c.t.first.Nested? && off % 8 == 0
    requires Deserialized(c.t.first, Rest(bytes, off), r, v, size) && next == off + 8 * size
    ensures r == Ok ==> Reading(whole, bytes, next, d) && After(d, c, v) && next % 8 == 0
    ensures r != Ok ==> whole == Fail(r)
  {
    hide Decode, Deserialized, After;
    assert Open(0);
    d := c;
    var b := BitsOf(bytes);
    var inner := Decode(c.t.first, b, c.ref);
    NestedRead(c.t.first, bytes, off, c.ref, r, v, size, next);
    if inner.Done? {
      d := Stepped(whole, b, c, v, inner.next);
      WholeSum(off, 8 * size, 0);
    } else {
      Stuck(whole, b, c, inner.error);
    }
  }

  method ReadLow(bytes: seq<bv8>, off: nat, width: nat, ghost whole: Result, ghost c: Cursor)
    returns (value: nat, next: nat, ghost d: Cursor)
    requires Reading(whole, bytes, off, c) && c.t.Then? && c.t.first == Field(width) && off % 8 == 0 && 0 < width <= 8
    ensures value < Pow2(width) && value < 0x100 && next == off + width
    ensures Reading(whole, bytes, next, d) && After(d, c, Plain(ToBits(value, width)))
  {
    value := TakeLow(bytes, off, width);
    Pow2Monotone(width, 8);
    Pow2Of8();
    next := off + width;
    d := FieldTaken(whole, bytes, off, c, Plain(ToBits(value, width)), next);
  }

  method ReadInteger(bytes: seq<bv8>, off: nat, native: nat, width: nat, ghost whole: Result, ghost c: Cursor)
    returns (value: nat, next: nat, ghost d: Cursor)
    requires Reading(whole, bytes, off, c) && c.t.Then? && c.t.first == Field(width)
    requires NativeWidth(native) && width <= native && width % 8 == 0 && off % 8 == 0
    ensures value < Pow2(width) && next == off + width && next % 8 == 0
    ensures value < 0x1_0000_0000_0000_0000
    ensures (native == 32 ==> value < 0x1_0000_0000) && (native == 16 ==> value < 0x1_0000)
    ensures Reading(whole, bytes, next, d) && After(d, c, Plain(ToBits(value, width)))
  {
    hide Pow2, ToBits, FromBits, Reading, After, Touching;
    ghost var p := SomePlacement(|bytes|, native / 8);
    ghost var passed;
    value, passed := GetUxx(native, bytes, off, width, p);
    assert passed;
    ReadNumber(BitsOf(bytes), off, width);
    NativePowers();
    Pow2Monotone(width, native);
    Pow2Monotone(native, 64);
    next := off + width;
    WholeSum(off, width, 0);
    d := FieldTaken(whole, bytes, off, c, Plain(ToBits(value, width)), next);
  }

  method ReadFlag(bytes: seq<bv8>, off: nat, ghost whole: Result, ghost c: Cursor)
    returns (value: bool, next: nat, ghost d: Cursor)
    requires Reading(whole, bytes, off, c) && c.t.Then? && c.t.first == Field(1)
    ensures Reading(whole, bytes, next, d) && After(d, c, Plain([value])) && next == off + 1
  {
    value := TakeFlag(bytes, off);
    next := off + 1;
    d := FieldTaken(whole, bytes, off, c, Plain([value]), next);
  }

  method ReadBytes(bytes: seq<bv8>, off: nat, n: nat, ghost whole: Result, ghost c: Cursor)
    returns (value: seq<bv8>, next: nat, ghost d: Cursor)
    requires Reading(whole, bytes, off, c) && c.t.Then? && c.t.first == Field(8 * n) && off % 8 == 0
    ensures |value| == n && next == off + 8 * n && next % 8 == 0
    ensures Reading(whole, bytes, next, d) && After(d, c, Plain(BitsOf(value)))
  {
    value := TakeElements(bytes, off, 8 * n, n);
    ReadWhole(BitsOf(value));
    next := off + 8 * n;
    WholeSum(off, 8 * n, 0);
    d := FieldTaken(whole, bytes, off, c, Plain(BitsOf(value)), next);
  }

  lemma SkipVoid(bytes: seq<bv8>, off: nat, n: nat, next: nat, whole: Result, c: Cursor) returns (d: Cursor)
    requires Reading(whole, bytes, off, c) && c.t.Then? && c.t.first == Void(n) && next == off + n
    ensures Reading(whole, bytes, next, d) && After(d, c, Nothing)
  {
    d := FieldTaken(whole, bytes, off, c, Nothing, next);
  }

  method ReadArray(bytes: seq<bv8>, off: nat, t: Type, ghost whole: Result, ghost c: Cursor)
    returns (r: Status, arr: Elements, next: nat, ghost d: Cursor)
    requires Reading(whole, bytes, off, c) && c.t.Then? && c.t.first == t && off % 8 == 0
    requires t.Blob? && Prefixed(t.prefix, t.unit, t.capacity)
    ensures arr.Backed(t.capacity * t.unit)
    ensures r == Ok ==> Reading(whole, bytes, next, d) && After(d, c, arr.Image(t.unit))
    ensures r == Ok ==> next == off + t.prefix + arr.count * t.unit
    ensures r != Ok ==> whole == Fail(r)
  {
    d := c;
    r, arr, next := TakeArray(bytes, off, t);
    if r == Ok {
      d := FieldTaken(whole, bytes, off, c, arr.Image(t.unit), next);
    } else {
      FieldFaulty(whole, bytes, off, c, r);
    }
  }

  method ReadByteArray(bytes: seq<bv8>, off: nat, t: Type, ghost whole: Result, ghost c: Cursor)
    returns (r: Status, arr: Elements, next: nat, ghost d: Cursor)
    requires Reading(whole, bytes, off, c) && c.t.Then? && c.t.first == t && off % 8 == 0
    requires t.Blob? && Prefixed(t.prefix, t.unit, t.capacity) && t.unit % 8 == 0
    ensures arr.Backed(t.capacity * t.unit)
    ensures r == Ok ==> Reading(whole, bytes, next, d) && After(d, c, arr.Image(t.unit)) && next % 8 == 0
    ensures r != Ok ==> whole == Fail(r)
  {
    r, arr, next, d := ReadArray(bytes, off, t, whole, c);
    if r == Ok {
      WholeBytes(arr.count, t.unit);
      WholeSum(off, t.prefix, arr.count * t.unit);
    }
  }

  /** The end of every deserializer: consumed is the aligned offset, cut at the end of the input. */
  method Conclude(bytes: seq<bv8>, off: nat, ghost t: Type, ghost whole: Result, ghost c: Cursor, ghost v: Value)
    returns (size: nat)
    requires Outcome(whole, t, bytes) && Reading(whole, bytes, off, c) && c.t.Empty? && v == c.wrap(Nothing)
    ensures Deserialized(Nested(t), bytes, Ok, v, size) && size <= |bytes|
  {
    assert Open(0);
    AllRead(t, bytes, off, c.ref, v);
    size := ChooseMin(Align(off), 8 * |bytes|) / 8;
  }

  lemma AllRead(t: Type, bytes: seq<bv8>, off: nat, ref: nat, v: Value)
    requires Tracks(8 * |bytes|, off, ref) && Decode(t, BitsOf(bytes), 0) == Done(v, ref)
    ensures Deserialized(Nested(t), bytes, Ok, v, ChooseMin(Align(off), 8 * |bytes|) / 8)
  {
    if off != ref {
      assert Align(off) >= 8 * |bytes| && Align(ref) >= 8 * |bytes|;
    }
  }

  /** A field was malformed: so is the object. */
  lemma Rejected(t: Type, bytes: seq<bv8>, whole: Result, r: Status, v: Value)
    requires Outcome(whole, t, bytes) && r != Ok && whole == Fail(r)
    ensures Deserialized(Nested(t), bytes, r, v, 0)
  {
    assert Open(0);
  }

  // ---------------------------------------------------------------- arrays of composites

  /** A chain of values, as the schema represents a list. */
  function Chain(vs: seq<Value>): (v: Value)
    ensures Length(v) == |vs|
  {
    if |vs| == 0 then Nothing else Pair(vs[0], Chain(vs[1..]))
  }

  /** `vs` in front of the chain `x`. */
  function Prepend(vs: seq<Value>, x: Value): Value {
    if |vs| == 0 then x else Prepend(vs[..|vs| - 1], Pair(vs[|vs| - 1], x))
  }

  lemma {:induction false} PrependChain(vs: seq<Value>, ws: seq<Value>)
    ensures Prepend(vs, Chain(ws)) == Chain(vs + ws)
  {
    if |vs| == 0 {
      assert vs + ws == ws;
    } else {
      var n := |vs| - 1;
      assert ([vs[n]] + ws)[1..] == ws;
      PrependChain(vs[..n], [vs[n]] + ws);
      assert vs[..n] + ([vs[n]] + ws) == vs + ws;
    }
  }

  lemma {:induction false} ChainFits(e: Type, vs: seq<Value>)
    requires forall i | 0 <= i < |vs| :: Fits(e, vs[i])
    ensures FitsList(e, Chain(vs)) && ListShape(e, Chain(vs)) && ValidateList(e, Chain(vs)) == Ok
  {
    if |vs| > 0 {
      ChainFits(e, vs[1..]);
      FitsShape(e, vs[0]);
      FitsIffValid(e, vs[0]);
    }
  }

  lemma {:induction false} FitsShape(t: Type, v: Value)
    requires Fits(t, v)
    ensures Shape(t, v)
    decreases t, 0
  {
    match t
    case Empty | Void(_) | Field(_) | Blob(_, _, _) =>
    case List(_, e, _) => FitsListShape(e, v);
    case Then(a, b) =>
      FitsShape(a, v.first);
      FitsShape(b, v.rest);
    case Nested(b) => FitsShape(b, v);
    case Union(os) => FitsShape(os[v.tag], v.option);
  }

  lemma {:induction false} FitsListShape(e: Type, v: Value)
    requires FitsList(e, v)
    ensures ListShape(e, v)
    decreases e, 1, v
  {
    if v.Pair? {
      FitsShape(e, v.first);
      FitsListShape(e, v.rest);
    }
  }

  /** The serializer's loop: elements before `i` are in `sofar`, the others are left. */
  ghost predicate ListEmitted(x: seq<bool>, f: (Value, nat) -> seq<bool>, vs: seq<Value>, i: nat,
    sofar: seq<bool>, off: nat)
  {
    i <= |vs| && x == sofar + EncodeList(f, Chain(vs[i..]), off + |sofar|)
  }

  lemma ListStart(t: Type, vs: seq<Value>, off: nat) returns (x: seq<bool>)
    requires t.List?
    ensures x == Encode(t, Chain(vs), off)
    ensures ListEmitted(x, Encoder(t.element), vs, 0, ToBits(|vs|, t.prefix), off)
  {
    x := Encode(t, Chain(vs), off);
    assert vs[0..] == vs;
  }

  lemma ListStep(x: seq<bool>, f: (Value, nat) -> seq<bool>, vs: seq<Value>, i: nat, sofar: seq<bool>, off: nat,
    y: seq<bool>)
    requires ListEmitted(x, f, vs, i, sofar, off) && i < |vs| && y == f(vs[i], off + |sofar|)
    ensures ListEmitted(x, f, vs, i + 1, sofar + y, off)
  {
    var left, mark := Chain(vs[i..]), off + |sofar|;
    assert left == Pair(vs[i], Chain(vs[i + 1..])) by {
      assert vs[i..][1..] == vs[i + 1..];
    }
    TailEmitted(f, x, sofar, left, mark, y);
    assert off + |sofar + y| == mark + |y|;
  }

  lemma TailEmitted(f: (Value, nat) -> seq<bool>, x: seq<bool>, sofar: seq<bool>, left: Value, mark: nat, y: seq<bool>)
    requires left.Pair? && x == sofar + EncodeList(f, left, mark) && y == f(left.first, mark)
    ensures x == (sofar + y) + EncodeList(f, left.rest, mark + |y|)
  {
    var z := EncodeList(f, left.rest, mark + |y|);
    ListEncoded(f, left, mark, y);
    Regroup(x, sofar, y, y + z, z);
  }

  /** One element of a byte-aligned list. */
  lemma ElementStep(x: seq<bool>, e: Type, vs: seq<Value>, i: nat, sofar: seq<bool>, off: nat, mark: nat)
    returns (y: seq<bool>)
    requires ListEmitted(x, Encoder(e), vs, i, sofar, off) && i < |vs| && mark == off + |sofar| && mark % 8 == 0
    ensures y == Encode(e, vs[i], 0) && ListEmitted(x, Encoder(e), vs, i + 1, sofar + y, off)
  {
    EncodeAnywhere(e, vs[i], 0, mark);
    y := Encoder(e)(vs[i], mark);
    ListStep(x, Encoder(e), vs, i, sofar, off, y);
  }

  lemma Associative(a: seq<bool>, b: seq<bool>, c: seq<bool>)
    ensures (a + b) + c == a + (b + c)
  {
  }

  lemma ListDone(x: seq<bool>, f: (Value, nat) -> seq<bool>, vs: seq<Value>, sofar: seq<bool>, off: nat)
    requires ListEmitted(x, f, vs, |vs|, sofar, off)
    ensures x == sofar
  {
  }

  /** The deserializer's loop: the reference has read `vs` and is left with `n` elements at `ref`. */
  ghost predicate ListReading(whole: Result, e: Type, b: seq<bool>, vs: seq<Value>, n: nat, ref: nat) {
    whole == AroundList(vs, DecodeList(Decoder(e), n, b, ref))
  }

  function AroundList(vs: seq<Value>, r: Result): Result {
    if r.Done? then Done(Prepend(vs, r.value), r.next) else r
  }

  lemma ListStepped(whole: Result, e: Type, b: seq<bool>, vs: seq<Value>, n: nat, ref: nat, v: Value, mark: nat)
    requires ListReading(whole, e, b, vs, n + 1, ref) && Decode(e, b, ref) == Done(v, mark)
    ensures ListReading(whole, e, b, vs + [v], n, mark)
  {
    var f := Decoder(e);
    var tail := DecodeList(f, n, b, mark);
    assert f(b, ref) == Done(v, mark);
    assert DecodeList(f, n + 1, b, ref) == Done(v, mark).WithRest(tail);
    if tail.Done? {
      assert (vs + [v])[..|vs|] == vs;
    }
  }

  lemma ListFinished(whole: Result, e: Type, b: seq<bool>, vs: seq<Value>, ref: nat)
    requires ListReading(whole, e, b, vs, 0, ref)
    ensures whole == Done(Chain(vs), ref)
  {
    PrependChain(vs, []);
    assert vs + [] == vs;
  }

  /** The length prefix of a list, read at the deserializer's offset, sends the reference into the list. */
  lemma ListHead(bytes: seq<bv8>, off: nat, t: Type, ref: nat, count: nat, next: nat, mark: nat) returns (list: Result)
    requires t.List? && next == off + t.prefix && mark == ref + t.prefix
    requires Tracks(8 * |bytes|, off, ref) && count == Unsigned(BitsOf(bytes), off, t.prefix)
    ensures ListReading(list, t.element, BitsOf(bytes), [], count, mark)
    ensures Decode(t, BitsOf(bytes), ref) == if count > t.capacity then Fail(BadArrayLength) else list
    ensures Tracks(8 * |bytes|, next, mark)
  {
    TracksRead(BitsOf(bytes), off, ref, t.prefix);
    TracksAdvance(8 * |bytes|, off, ref, next);
    list := DecodeList(Decoder(t.element), count, BitsOf(bytes), mark);
  }

  /** A nested element read from what is left of the input. */
  lemma ElementTaken(bytes: seq<bv8>, off: nat, whole: Result, e: Type, vs: seq<Value>, n: nat, left: nat, ref: nat,
    v: Value, size: nat, next: nat) returns (mark: nat)
    requires e.Nested? && off % 8 == 0 && n == left + 1 && Tracks(8 * |bytes|, off, ref) && next == off + 8 * size
    requires ListReading(whole, e, BitsOf(bytes), vs, n, ref) && Deserialized(e, Rest(bytes, off), Ok, v, size)
    ensures next % 8 == 0 && Tracks(8 * |bytes|, next, mark)
    ensures ListReading(whole, e, BitsOf(bytes), vs + [v], left, mark)
  {
    hide *;
    NestedRead(e, bytes, off, ref, Ok, v, size, next);
    mark := Decode(e, BitsOf(bytes), ref).next;
    ListStepped(whole, e, BitsOf(bytes), vs, left, ref, v, mark);
    WholeSum(off, 8 * size, 0);
  }
}
