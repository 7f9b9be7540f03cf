/** uavcan.primitive.array.Real16.1.0: every element is clamped to the range of binary16, packed and stored; reading
    unpacks every half-word. */
module Real16 {
  import opened Bits
  import opened Serialization
  import F = Float16
  import opened Dsdl
  import opened Sizes
  import opened Codec
  import opened Layout

  type u16 = F.u16
  type u32 = F.u32

  const HALVES := Blob(8, 16, 128)
  const REAL16_FIELDS := Then(HALVES, Empty)
  const REAL16 := Nested(REAL16_FIELDS)

  /** The binary32 pattern of 65504, the largest finite binary16. */
  const LARGEST := 0x477F_E000

  /** Finite numbers outside the range of binary16 are moved to its ends; infinities and NaNs are left alone. */
  function Clamp(x: u32): (r: u32) {
    var sign := if x >= 0x8000_0000 then 0x8000_0000 else 0;
    ClampMagnitude(x - sign) + sign
  }

  function ClampMagnitude(m: nat): (r: nat)
    ensures r <= m
  {
    if LARGEST < m < F.F32_INF then LARGEST else m
  }

  function Half(x: u32): u16 { F.Pack16(Clamp(x)) }

  function HalfBits(s: seq<u32>): (r: seq<bool>)
    ensures |r| == 16 * |s|
  {
    if |s| == 0 then [] else HalfBits(s[..|s| - 1]) + ToBits(Half(s[|s| - 1]), 16)
  }

  function RealsImage(s: seq<u32>): (v: Value)
    ensures Shape(REAL16, v) && Validate(REAL16, v) == (if |s| > 128 then BadArrayLength else Ok)
  {
    BlobEncoded(HALVES, Plain(HalfBits(s)), |s|, 0);
    assert Shape(REAL16_FIELDS, Pair(Plain(HalfBits(s)), Nothing));
    Pair(Plain(HalfBits(s)), Nothing)
  }

  lemma RealsExtent(off: nat)
    requires off % 8 == 0
    ensures MinEnd(REAL16, off) == off + 8 && MaxEnd(REAL16, off) == off + 2056
  {
    assert MinEnd(REAL16_FIELDS, off) == off + 8 && MaxEnd(REAL16_FIELDS, off) == off + 2056;
  }

  /** The loop over the elements. */
  method PutReals(buf: array<bv8>, at: nat, capacity: nat, off: nat, s: seq<u32>,
    ghost was: seq<bool>, ghost done: seq<bool>)
    returns (next: nat)
    requires at + capacity <= buf.Length && off == |done| && off % 8 == 0 && off + 16 * |s| <= 8 * capacity
    requires Wrote(BitsOf(buf[..]), was, at, done)
    modifies buf
    ensures next == off + 16 * |s| && Wrote(BitsOf(buf[..]), was, at, done + HalfBits(s))
  {
    next := off;
    assert done + [] == done;
    var i := 0;
    while i < |s|
      invariant i <= |s| && next == off + 16 * i && next % 8 == 0
      invariant Wrote(BitsOf(buf[..]), was, at, done + HalfBits(s[..i]))
    {
      var half := Half(s[i]);
      ghost var part := HalfBits(s[..i]);
      PutInteger(buf, at, next, half, 2, was, done + part);
      HalfStep(s, i);
      Associative(done, part, ToBits(half, 16));
      WholeSum(next, 16, 0);
      next := next + 16;
      i := i + 1;
    }
    assert s[..i] == s;
  }

  lemma HalfStep(s: seq<u32>, i: nat)
    requires i < |s|
    ensures HalfBits(s[..i + 1]) == HalfBits(s[..i]) + ToBits(Half(s[i]), 16)
  {
    assert s[..i + 1][..i] == s[..i];
  }

  method SerializeReals(s: seq<u32>, buf: array<bv8>, at: nat, capacity: nat) returns (r: Status, size: nat)
    requires at + capacity <= buf.Length
    modifies buf
    ensures Serialized(REAL16, RealsImage(s), old(BitsOf(buf[..])), BitsOf(buf[..]), at, capacity, r, size)
    ensures r == if capacity < 257 then BufferTooSmall else if |s| > 128 then BadArrayLength else Ok
    ensures r == Ok ==> HalvesAt(buf[..], at, s) && size == 1 + 2 * |s|
  {
    ghost var was := BitsOf(buf[..]);
    r, size := EmitReals(s, buf, at, capacity);
    RealsWritten(s, was, buf[..], at, capacity, r, size);
  }

  method EmitReals(s: seq<u32>, buf: array<bv8>, at: nat, capacity: nat) returns (r: Status, size: nat)
    requires at + capacity <= buf.Length
    modifies buf
    ensures Serialized(REAL16, RealsImage(s), old(BitsOf(buf[..])), BitsOf(buf[..]), at, capacity, r, size)
  {
    ghost var v := RealsImage(s);
    RealsExtent(0);
    if 8 * capacity < 2056 {
      return BufferTooSmall, 0;
    }
    ghost var job, p := Begin(REAL16_FIELDS, v, buf, at, capacity);
    BlobEncoded(HALVES, v.first, |s|, 0);
    if |s| > 128 {
      RefusedField(job.verdict, job.all, p);
      WroteConfined(BitsOf(buf[..]), job.was, at, p.done, capacity);
      Refused(REAL16_FIELDS, v, buf, at, capacity, job, BadArrayLength);
      return BadArrayLength, 0;
    }
    var off := 0;
    PutByte(buf, at, off, |s|, job.was, p.done);
    off := PutReals(buf, at, capacity, off + 8, s, job.was, p.done + ToBits(|s|, 8));
    Associative(p.done, ToBits(|s|, 8), HalfBits(s));
    p := EmitField(job.all, job.verdict, p, ToBits(|s|, 8) + HalfBits(s));
    r, size := Complete(REAL16_FIELDS, v, buf, at, capacity, off, job, p);
  }

  /** Half-word `i` of an array of them. */
  function Word(bits: seq<bool>, i: nat): (h: u16)
    requires 16 * i + 16 <= |bits|
  {
    FromBitsBound(bits[16 * i..16 * i + 16]);
    NativePowers();
    FromBits(bits[16 * i..16 * i + 16])
  }

  /** The numbers in an array of half-words. */
  predicate Unpacked(s: seq<u32>, bits: seq<bool>) {
    |bits| == 16 * |s| && forall i | 0 <= i < |s| :: s[i] == F.Unpack16(Word(bits, i))
  }

  lemma {:induction false} HalfWord(s: seq<u32>, i: nat)
    requires i < |s|
    ensures Word(HalfBits(s), i) == Half(s[i])
  {
    hide ToBits, FromBits;
    var n := |s| - 1;
    var head, last := HalfBits(s[..n]), ToBits(Half(s[n]), 16);
    assert HalfBits(s) == head + last;
    if i < n {
      HalfWord(s[..n], i);
      assert (head + last)[16 * i..16 * i + 16] == head[16 * i..16 * i + 16];
    } else {
      assert (head + last)[16 * i..16 * i + 16] == last;
      WordOfNumber(Half(s[n]));
    }
  }

  lemma WordOfNumber(h: u16)
    ensures FromBits(ToBits(h, 16)) == h
  {
    NativePowers();
    FromToBits(h, 16);
    DivModUnique(h, Pow2(16), 0, h);
  }

  // ---------------------------------------------------------------- places in the message

  /** The number of elements in a byte, and two bytes for the half of each of them. */
  predicate HalvesAt(bytes: seq<bv8>, i: nat, s: seq<u32>) {
    Number(bytes, i, 1) == |s| <= 128 && forall k | 0 <= k < |s| :: Number(bytes, i + 1 + 2 * k, 2) == Half(s[k])
  }

  /** The elements are the unpacked half-words of the message. */
  predicate UnpackedAt(bytes: seq<bv8>, i: nat, s: seq<u32>) {
    && Number(bytes, i, 1) == |s| <= 128
    && forall k | 0 <= k < |s| :: Number(bytes, i + 1 + 2 * k, 2) < 0x1_0000
                                  && s[k] == F.Unpack16(Number(bytes, i + 1 + 2 * k, 2))
  }

  lemma RealsWellFormed()
    ensures WellFormed(REAL16)
  {
    Pow2Of8();
    assert WellFormed(HALVES) && WellFormed(Empty);
  }

  lemma WordNumber(bytes: seq<bv8>, i: nat, n: nat, k: nat)
    requires k < n
    ensures Number(bytes, i + 2 * k, 2) == Word(Read(BitsOf(bytes), 8 * i, 16 * n), k)
  {
    WordRead(BitsOf(bytes), 8 * i, n, k);
  }

  lemma HalvesDecoded(bytes: seq<bv8>, i: nat, v: Value, end: nat)
    requires Decode(REAL16, BitsOf(bytes), 8 * i) == Done(v, end)
    ensures var n := Number(bytes, i, 1);
      && v.Pair? && v.first == Plain(Read(BitsOf(bytes), 8 * (i + 1), 16 * n)) && n <= 128 && end == 8 * (i + 1 + 2 * n)
  {
    hide Decode;
    var b, n := BitsOf(bytes), Number(bytes, i, 1);
    var inner := BodyDecoded(REAL16, b, 8 * i, v, end);
    var mid := FirstDecoded(REAL16_FIELDS, b, 8 * i, v, inner);
    BlobDecoded(HALVES, b, 8 * i, n);
    EmptyDecoded(b, 8 * (i + 1 + 2 * n), v.rest, inner);
  }

  lemma HalvesPlaced(bytes: seq<bv8>, i: nat, s: seq<u32>, end: nat)
    requires Decode(REAL16, BitsOf(bytes), 8 * i) == Done(RealsImage(s), end)
    ensures HalvesAt(bytes, i, s) && end == 8 * (i + 1 + 2 * |s|)
  {
    hide Decode, Number, Word, Half;
    var n := Number(bytes, i, 1);
    HalvesDecoded(bytes, i, RealsImage(s), end);
    assert HalfBits(s) == Read(BitsOf(bytes), 8 * (i + 1), 16 * n);
    forall k | 0 <= k < |s|
      ensures Number(bytes, i + 1 + 2 * k, 2) == Half(s[k])
    {
      WordNumber(bytes, i + 1, n, k);
      HalfWord(s, k);
    }
  }

  lemma UnpackedPlaced(bytes: seq<bv8>, i: nat, s: seq<u32>, v: Value, end: nat)
    requires Decode(REAL16, BitsOf(bytes), 8 * i) == Done(v, end)
    requires v.Pair? && v.first.Plain? ==> Unpacked(s, v.first.bits)
    ensures UnpackedAt(bytes, i, s) && end == 8 * (i + 1 + 2 * |s|)
  {
    hide Decode, Number, Word, F.Unpack16;
    var n := Number(bytes, i, 1);
    HalvesDecoded(bytes, i, v, end);
    forall k | 0 <= k < |s|
      ensures Number(bytes, i + 1 + 2 * k, 2) < 0x1_0000 && s[k] == F.Unpack16(Number(bytes, i + 1 + 2 * k, 2))
    {
      WordNumber(bytes, i + 1, n, k);
    }
  }

  lemma RealsVerdict(bytes: seq<bv8>, i: nat)
    ensures Verdict(REAL16, BitsOf(bytes), 8 * i) == if Number(bytes, i, 1) > 128 then BadArrayLength else Ok
  {
    hide Decode, Number, Verdict;
    var b, n := BitsOf(bytes), Number(bytes, i, 1);
    BodyVerdict(REAL16, b, 8 * i);
    ArrayVerdict(REAL16_FIELDS, bytes, i, 1, 8 * (i + 1 + 2 * n));
    EmptyVerdict(b, 8 * (i + 1 + 2 * n));
  }

  /** What the contract of the serializer says about the bytes. */
  lemma RealsWritten(s: seq<u32>, was: seq<bool>, bytes: seq<bv8>, at: nat, capacity: nat, r: Status, size: nat)
    requires Serialized(REAL16, RealsImage(s), was, BitsOf(bytes), at, capacity, r, size)
    ensures r == if capacity < 257 then BufferTooSmall else if |s| > 128 then BadArrayLength else Ok
    ensures r == Ok ==> HalvesAt(bytes, at, s) && size == 1 + 2 * |s|
  {
    hide Serialized, Decode, Validate, WellFormed, MaxEnd, HalvesAt;
    RealsExtent(0);
    WrittenVerdict(REAL16, RealsImage(s), was, BitsOf(bytes), at, capacity, r, size);
    if r == Ok {
      RealsWellFormed();
      WrittenDecodes(REAL16, RealsImage(s), was, bytes, at, capacity, size);
      HalvesPlaced(bytes, at, s, 8 * (at + size));
    }
  }

  /** nunavutGetF16. */
  method GetF16(buf: seq<bv8>, off: nat) returns (x: u32, ghost h: u16)
    ensures h == Unsigned(BitsOf(buf), off, 16) && x == F.Unpack16(h)
  {
    ghost var p := SomePlacement(|buf|, 2);
    var val;
    ghost var passed;
    val, passed := GetUxx(16, buf, off, 16, p);
    NativePowers();
    h := val;
    x := F.Unpack16(val);
  }

  lemma WordRead(b: seq<bool>, off: nat, n: nat, i: nat)
    requires i < n
    ensures Word(Read(b, off, 16 * n), i) == Unsigned(b, off + 16 * i, 16)
  {
    assert Read(b, off, 16 * n)[16 * i..16 * i + 16] == Read(b, off + 16 * i, 16);
  }

  method TakeReals(bytes: seq<bv8>, off: nat, count: nat) returns (s: seq<u32>)
    ensures |s| == count && Unpacked(s, Read(BitsOf(bytes), off, 16 * count))
  {
    hide F.Unpack16, Word, Unsigned;
    s := [];
    var next, i := off, 0;
    ghost var bits := Read(BitsOf(bytes), off, 16 * count);
    while i < count
      invariant i == |s| <= count && next == off + 16 * i
      invariant forall j | 0 <= j < i :: s[j] == F.Unpack16(Word(bits, j))
    {
      var x, h := GetF16(bytes, next);
      WordRead(BitsOf(bytes), off, count, i);
      s, next, i := s + [x], next + 16, i + 1;
    }
  }

  /** The decoded numbers are those of the half-words on the wire, payloads of NaNs included. */
  method DeserializeReals(bytes: seq<bv8>) returns (r: Status, s: seq<u32>, size: nat, ghost v: Value)
    ensures Deserialized(REAL16, bytes, r, v, size)
    ensures r == Ok ==> v.Pair? && v.first.Plain? && Unpacked(s, v.first.bits)
    ensures r == (if Number(bytes, 0, 1) > 128 then BadArrayLength else Ok) && (r == Ok ==> UnpackedAt(bytes, 0, s))
  {
    r, s, size, v := FetchReals(bytes);
    RealsVerdict(bytes, 0);
    ghost var end := ReadDecodes(REAL16, bytes, r, v, size);
    if r == Ok {
      UnpackedPlaced(bytes, 0, s, v, end);
    }
  }

  method FetchReals(bytes: seq<bv8>) returns (r: Status, s: seq<u32>, size: nat, ghost v: Value)
    ensures Deserialized(REAL16, bytes, r, v, size)
    ensures r == Ok ==> v.Pair? && v.first.Plain? && Unpacked(s, v.first.bits)
  {
    hide Decode, Unsigned, Unpacked, FromBits;
    v, s := Nothing, [];
    ghost var whole, c := ReadStart(REAL16_FIELDS, bytes);
    var count := TakeCount(bytes, 0, 8);
    BlobDecoded(HALVES, BitsOf(bytes), 0, count);
    if count > 128 {
      FieldFaulty(whole, bytes, 0, c, BadArrayLength);
      Rejected(REAL16_FIELDS, bytes, whole, BadArrayLength, v);
      return BadArrayLength, s, 0, v;
    }
    s := TakeReals(bytes, 8, count);
    var off := 8 + 16 * count;
    ghost var halves := Plain(Read(BitsOf(bytes), 8, 16 * count));
    c := FieldTaken(whole, bytes, 0, c, halves, off);
    v := Pair(halves, Nothing);
    size := Conclude(bytes, off, REAL16_FIELDS, whole, c, v);
    r := Ok;
  }

  // ---------------------------------------------------------------- what an element becomes

  lemma LargestPacks()
    ensures F.PackMagnitude(LARGEST) == 0x7BFF
  {
    hide F.Value32, F.RoundHalfEven;
  }

  lemma HalfSigned(m: nat, negative: bool, x: u32)
    requires m < 0x8000_0000 && x == m + if negative then 0x8000_0000 else 0
    ensures Clamp(x) == ClampMagnitude(m) + if negative then 0x8000_0000 else 0
    ensures Half(x) == F.PackMagnitude(ClampMagnitude(m)) + if negative then 0x8000 else 0
  {
    F.PackSigned(ClampMagnitude(m), negative);
  }

  /** A finite number never becomes an infinity, and one within range is rounded to the nearest binary16. */
  lemma FiniteStaysFinite(m: nat, negative: bool, x: u32) returns (h: nat)
    requires m < F.F32_INF && x == m + if negative then 0x8000_0000 else 0
    ensures h <= 0x7BFF && Half(x) == h + if negative then 0x8000 else 0
    ensures F.RoundsTo(F.Value32(if m < LARGEST then m else LARGEST), h)
  {
    HalfSigned(m, negative, x);
    var c := ClampMagnitude(m);
    h := F.PackMagnitude(c);
    F.PackMonotone(c, LARGEST);
    LargestPacks();
    F.PackRounds(c);
  }

  /** Writing a number read from a half-word gives the half-word back, unless it is one of the NaNs that collapse. */
  lemma HalfOfUnpacked(h: u16)
    ensures Half(F.Unpack16(h)) == h <==> !F.IsNaN16(h) || h % 0x8000 == 0x7E00
  {
    var m := if h >= 0x8000 then h - 0x8000 else h;
    UnpackedInRange(m, h >= 0x8000, h);
    F.PackUnpack(h);
  }

  lemma UnpackedInRange(m: nat, negative: bool, h: u16)
    requires m < 0x8000 && h == m + if negative then 0x8000 else 0
    ensures Clamp(F.Unpack16(h)) == F.Unpack16(h)
  {
    F.UnpackSigned(m, negative);
    HalfSigned(F.UnpackMagnitude(m), negative, F.Unpack16(h));
    if m < F.F16_INF {
      UnpackBelow(m);
    } else {
      F.UnpackInfinite(m);
    }
  }

  lemma UnpackBelow(m: nat)
    requires m < F.F16_INF
    ensures F.UnpackMagnitude(m) <= LARGEST
  {
    if m * 0x2000 < 0x80_0000 && m > 0 {
      var s := F.LeadingShift(m * 0x2000);
      assert F.UnpackMagic(m * 0x2000) < 114 * 0x80_0000;
    }
  }
}
