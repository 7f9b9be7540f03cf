/** Where the fields of a message stand, said in bytes and bits of the message alone: a number, a bit, an array behind its
    length. The lemmas lead from the reference decoder to these facts, field by field. */
module Layout {
  import opened Bits
  import opened Serialization
  import opened Dsdl
  import opened Sizes
  import opened Codec

  // ---------------------------------------------------------------- places in a message

  /** The number in `n` bytes from byte `i` on, least significant byte first; bytes past the end count as zero. */
  function Number(bytes: seq<bv8>, i: nat, n: nat): nat { Unsigned(BitsOf(bytes), 8 * i, 8 * n) }

  /** The number in `n` bits from bit `k` of byte `i` on. */
  function Bitfield(bytes: seq<bv8>, i: nat, k: nat, n: nat): nat { Unsigned(BitsOf(bytes), 8 * i + k, n) }

  /** Bit `k` of byte `i`. */
  predicate BitIn(bytes: seq<bv8>, i: nat, k: nat) { Read(BitsOf(bytes), 8 * i + k, 1)[0] }

  /** From byte `i` on stand the first `n` bits of `memory`. */
  predicate Holds(bytes: seq<bv8>, i: nat, memory: seq<bv8>, n: nat) {
    Read(BitsOf(bytes), 8 * i, n) == Read(BitsOf(memory), 0, n)
  }

  /** A length in `prefix` bytes, and behind it that many elements of `unit` bits. */
  predicate ArrayAt(bytes: seq<bv8>, i: nat, prefix: nat, unit: nat, arr: Elements) {
    Number(bytes, i, prefix) == arr.count && Holds(bytes, i + prefix, arr.memory, arr.count * unit)
  }

  /** Inside the message these are the stored bytes. */
  lemma NumberLoaded(bytes: seq<bv8>, i: nat, n: nat)
    requires i + n <= |bytes|
    ensures Number(bytes, i, n) == LoadLe(bytes[i..i + n])
  {
    BitsOfSlice(bytes, i, i + n);
    assert Read(BitsOf(bytes), 8 * i, 8 * n) == BitsOf(bytes)[8 * i..8 * (i + n)];
  }

  /** A single byte is its own number. */
  lemma ByteNumber(bytes: seq<bv8>, i: nat)
    ensures Number(bytes, i, 1) == if i < |bytes| then bytes[i] as int else 0
  {
    hide FromBits;
    if i < |bytes| {
      NumberLoaded(bytes, i, 1);
      assert bytes[i..i + 1] == [bytes[i]];
      ByteValue(bytes[i]);
    } else {
      assert Read(BitsOf(bytes), 8 * i, 8) == Zeros(8);
      FromBitsZeros(8);
    }
  }

  /** The bytes of a longer number have the weights 1, 256, 65536 and so on. */
  lemma NumberInBytes(bytes: seq<bv8>, i: nat, n: nat)
    ensures Number(bytes, i, n + 1) == Number(bytes, i, 1) + 0x100 * Number(bytes, i + 1, n)
  {
    hide FromBits, Pow2, BitsOf;
    var first, rest := Read(BitsOf(bytes), 8 * i, 8), Read(BitsOf(bytes), 8 * (i + 1), 8 * n);
    Pow2Of8();
    FromBitsConcat(first, rest);
    assert Read(BitsOf(bytes), 8 * i, 8 * (n + 1)) == first + rest;
  }

  lemma HoldsBytes(bytes: seq<bv8>, i: nat, memory: seq<bv8>, n: nat)
    requires i + n <= |bytes| && n <= |memory| && Holds(bytes, i, memory, 8 * n)
    ensures bytes[i..i + n] == memory[..n]
  {
    hide BitsOf, Read, BitAt;
    BitsOfSlice(bytes, i, i + n);
    BitsOfSlice(memory, 0, n);
    assert Read(BitsOf(bytes), 8 * i, 8 * n) == BitsOf(bytes)[8 * i..8 * (i + n)];
    assert Read(BitsOf(memory), 0, 8 * n) == BitsOf(memory)[0..8 * n] && memory[0..n] == memory[..n];
    BitsOfInjective(bytes[i..i + n], memory[..n]);
  }

  // ---------------------------------------------------------------- from the reference decoder to places

  lemma FirstDecoded(t: Type, b: seq<bool>, off: nat, v: Value, end: nat) returns (mid: nat)
    requires t.Then? && Decode(t, b, off) == Done(v, end)
    ensures v.Pair? && Decode(t.first, b, off) == Done(v.first, mid) && Decode(t.rest, b, mid) == Done(v.rest, end)
  {
    var r := Decode(t.first, b, off);
    ThenDecoded(t, b, off, r);
    mid := r.next;
  }

  lemma BodyDecoded(t: Type, b: seq<bool>, off: nat, v: Value, end: nat) returns (inner: nat)
    requires t.Nested? && off % 8 == 0 && Decode(t, b, off) == Done(v, end)
    ensures Decode(t.body, b, off) == Done(v, inner) && end == Align(inner)
  {
    inner := Decode(t.body, b, off).next;
  }

  lemma EmptyDecoded(b: seq<bool>, off: nat, v: Value, end: nat)
    requires Decode(Empty, b, off) == Done(v, end)
    ensures end == off
  {
  }

  lemma FieldDecoded(w: nat, b: seq<bool>, off: nat)
    ensures Decode(Field(w), b, off) == Done(Plain(Read(b, off, w)), off + w)
  {
  }

  lemma VoidDecoded(w: nat, b: seq<bool>, off: nat)
    ensures Decode(Void(w), b, off) == Done(Nothing, off + w)
  {
  }

  /** A number of `w` bits, truncated, is the next field. */
  lemma NumberFirst(t: Type, b: seq<bool>, off: nat, v: Value, end: nat, w: nat, x: nat)
    requires t.Then? && t.first == Field(w) && Decode(t, b, off) == Done(v, end)
    requires v.Pair? ==> v.first == Plain(ToBits(x, w))
    ensures v.Pair? && Unsigned(b, off, w) == x % Pow2(w) && Decode(t.rest, b, off + w) == Done(v.rest, end)
  {
    hide Decode;
    var mid := FirstDecoded(t, b, off, v, end);
    FieldDecoded(w, b, off);
    FromToBits(x, w);
  }

  /** The same at a byte boundary. */
  lemma CountFirst(t: Type, bytes: seq<bv8>, i: nat, v: Value, end: nat, n: nat, x: nat)
    requires t.Then? && t.first == Field(8 * n) && Decode(t, BitsOf(bytes), 8 * i) == Done(v, end)
    requires v.Pair? ==> v.first == Plain(ToBits(x, 8 * n))
    ensures v.Pair? && Number(bytes, i, n) == x % Pow2(8 * n)
    ensures Decode(t.rest, BitsOf(bytes), 8 * (i + n)) == Done(v.rest, end)
  {
    hide Decode, Unsigned, Pow2, ToBits;
    NumberFirst(t, BitsOf(bytes), 8 * i, v, end, 8 * n, x);
  }

  /** The same when the number fits. */
  lemma WholeFirst(t: Type, bytes: seq<bv8>, i: nat, v: Value, end: nat, n: nat, x: nat)
    requires t.Then? && t.first == Field(8 * n) && Decode(t, BitsOf(bytes), 8 * i) == Done(v, end)
    requires (v.Pair? ==> v.first == Plain(ToBits(x, 8 * n))) && x < Pow2(8 * n)
    ensures v.Pair? && Number(bytes, i, n) == x && Decode(t.rest, BitsOf(bytes), 8 * (i + n)) == Done(v.rest, end)
  {
    hide *;
    CountFirst(t, bytes, i, v, end, n, x);
    DivModUnique(x, Pow2(8 * n), 0, x);
  }

  lemma Pow2Of40()
    ensures Pow2(40) == 0x100_0000_0000 && Pow2(48) == 0x1_0000_0000_0000
  {
    hide Pow2;
    NativePowers();
    Pow2Add(32, 8);
    Pow2Add(40, 8);
  }

  /** Plain bits are the next field. */
  lemma BitsFirst(t: Type, b: seq<bool>, off: nat, v: Value, end: nat, w: nat)
    requires t.Then? && t.first == Field(w) && Decode(t, b, off) == Done(v, end)
    ensures v.Pair? && v.first == Plain(Read(b, off, w)) && Decode(t.rest, b, off + w) == Done(v.rest, end)
  {
    hide Decode;
    var mid := FirstDecoded(t, b, off, v, end);
    FieldDecoded(w, b, off);
  }

  lemma VoidFirst(t: Type, b: seq<bool>, off: nat, v: Value, end: nat, w: nat)
    requires t.Then? && t.first == Void(w) && Decode(t, b, off) == Done(v, end)
    ensures v.Pair? && Decode(t.rest, b, off + w) == Done(v.rest, end)
  {
    hide Decode;
    var mid := FirstDecoded(t, b, off, v, end);
    VoidDecoded(w, b, off);
  }

  /** A variable-length array of primitives is the next field. */
  lemma ArrayFirst(t: Type, bytes: seq<bv8>, i: nat, prefix: nat, v: Value, end: nat, arr: Elements, mid: nat)
    requires t.Then? && t.first.Blob? && t.first.prefix == 8 * prefix && t.first.unit > 0
    requires Decode(t, BitsOf(bytes), 8 * i) == Done(v, end) && (v.Pair? ==> v.first == arr.Image(t.first.unit))
    requires mid == 8 * (i + prefix) + arr.count * t.first.unit
    ensures v.Pair? && arr.count <= t.first.capacity && ArrayAt(bytes, i, prefix, t.first.unit, arr)
    ensures Decode(t.rest, BitsOf(bytes), mid) == Done(v.rest, end)
  {
    hide Decode;
    var b, u, n := BitsOf(bytes), t.first.unit, Number(bytes, i, prefix);
    var at := FirstDecoded(t, b, 8 * i, v, end);
    BlobDecoded(t.first, b, 8 * i, n);
    WholeCount(n, u);
    WholeCount(arr.count, u);
    assert |v.first.bits| == n * u;
  }

  // ---------------------------------------------------------------- when a message is accepted

  /** What a deserializer reports. */
  function Verdict(t: Type, b: seq<bool>, off: nat): Status {
    var r := Decode(t, b, off);
    if r.Done? then Ok else r.error
  }

  lemma FieldVerdict(t: Type, b: seq<bool>, off: nat, w: nat)
    requires t.Then? && (t.first == Field(w) || t.first == Void(w))
    ensures Verdict(t, b, off) == Verdict(t.rest, b, off + w)
  {
    hide Decode;
    FieldDecoded(w, b, off);
    VoidDecoded(w, b, off);
    ThenDecoded(t, b, off, Decode(t.first, b, off));
  }

  lemma FirstVerdict(t: Type, b: seq<bool>, off: nat)
    requires t.Then?
    ensures var r := Decode(t.first, b, off);
      Verdict(t, b, off) == if r.Fail? then r.error else Verdict(t.rest, b, r.next)
  {
    hide Decode;
    ThenDecoded(t, b, off, Decode(t.first, b, off));
  }

  lemma ArrayVerdict(t: Type, bytes: seq<bv8>, i: nat, prefix: nat, mid: nat)
    requires t.Then? && t.first.Blob? && t.first.prefix == 8 * prefix
    requires mid == 8 * (i + prefix) + Number(bytes, i, prefix) * t.first.unit
    ensures Verdict(t, BitsOf(bytes), 8 * i)
      == if Number(bytes, i, prefix) > t.first.capacity then BadArrayLength else Verdict(t.rest, BitsOf(bytes), mid)
  {
    hide Decode;
    FirstVerdict(t, BitsOf(bytes), 8 * i);
    BlobDecoded(t.first, BitsOf(bytes), 8 * i, Number(bytes, i, prefix));
  }

  lemma BodyVerdict(t: Type, b: seq<bool>, off: nat)
    requires t.Nested? && off % 8 == 0
    ensures Verdict(t, b, off) == Verdict(t.body, b, off)
  {
  }

  lemma EmptyVerdict(b: seq<bool>, off: nat)
    ensures Verdict(Empty, b, off) == Ok
  {
  }

  // ---------------------------------------------------------------- from the contracts

  /** What a serializer wrote decodes in place. */
  lemma WrittenDecodes(t: Type, v: Value, was: seq<bool>, bytes: seq<bv8>, at: nat, capacity: nat, size: nat)
    requires t.Nested? && WellFormed(t) && Shape(t, v)
    requires Serialized(t, v, was, BitsOf(bytes), at, capacity, Ok, size)
    ensures Decode(t, BitsOf(bytes), 8 * at) == Done(v, 8 * (at + size))
  {
    hide Encode, Decode, Validate, MaxEnd, WellFormed, Fits, Shape;
    var b, x := BitsOf(bytes), Encode(t, v, 0);
    FitsIffValid(t, v);
    EncodeAnywhere(t, v, 0, 8 * at);
    assert Read(b, 8 * at, |x|) == x;
    RoundTrip(t, v, b, 8 * at);
  }

  lemma ReadDecodes(t: Type, bytes: seq<bv8>, r: Status, v: Value, size: nat) returns (end: nat)
    requires Deserialized(t, bytes, r, v, size)
    ensures r == Verdict(t, BitsOf(bytes), 0)
    ensures r == Ok ==> Decode(t, BitsOf(bytes), 0) == Done(v, end)
  {
    end := if r == Ok then Decode(t, BitsOf(bytes), 0).next else 0;
  }

  /** Past the capacity check a serializer reports what is wrong with the object, if anything. */
  lemma WrittenVerdict(t: Type, v: Value, was: seq<bool>, now: seq<bool>, at: nat, capacity: nat, r: Status, size: nat)
    requires Shape(t, v) && Serialized(t, v, was, now, at, capacity, r, size)
    ensures r == if 8 * capacity < MaxEnd(t, 0) then BufferTooSmall else Validate(t, v)
  {
  }
}
