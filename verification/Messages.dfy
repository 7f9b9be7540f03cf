/** What follows from the two contracts alone, for every type and every serializer and deserializer that meets them: the
    theorems about whole messages. */
module Messages {
  import opened Bits
  import opened Serialization
  import opened Dsdl
  import opened Laws
  import opened Sizes
  import opened Codec

  lemma SpliceAt(b: seq<bool>, off: nat, x: seq<bool>)
    requires off + |x| <= |b|
    ensures At(Splice(b, off, x), off, x)
  {
  }

  lemma AtSlice(b: seq<bool>, off: nat, x: seq<bool>, len: nat)
    requires At(b, off, x) && |x| <= len && off + len <= |b|
    ensures At(b[off..off + len], 0, x)
  {
    var c := b[off..off + len];
    forall i | 0 <= i < |x|
      ensures Read(c, 0, |x|)[i] == x[i]
    {
      assert Read(b, off, |x|)[i] == x[i];
    }
  }

  /** Round trip, and self-delimitation: what a serializer wrote, followed by anything, reads back as the same value, and
      exactly the written bytes are consumed. */
  lemma RoundTripThroughBuffer(t: Type, v: Value, was: seq<bool>, buf: seq<bv8>, at: nat, capacity: nat, size: nat,
    n: nat, r: Status, w: Value, consumed: nat)
    requires t.Nested? && WellFormed(t) && Shape(t, v)
    requires Serialized(t, v, was, BitsOf(buf), at, capacity, Ok, size) && size <= n && at + n <= |buf|
    requires Deserialized(t, buf[at..at + n], r, w, consumed)
    ensures r == Ok && w == v && consumed == size
  {
    FitsIffValid(t, v);
    WrittenAt(buf, was, at, size, n, Encode(t, v, 0));
    ReadsBack(t, v, buf[at..at + n], size, r, w, consumed);
  }

  lemma WrittenAt(buf: seq<bv8>, was: seq<bool>, at: nat, size: nat, n: nat, x: seq<bool>)
    requires 8 * at + |x| <= |was| && BitsOf(buf) == Splice(was, 8 * at, x) && 8 * size == |x|
    requires size <= n && at + n <= |buf|
    ensures At(BitsOf(buf[at..at + n]), 0, x)
  {
    BitsOfSlice(buf, at, at + n);
    SpliceAt(was, 8 * at, x);
    AtSlice(BitsOf(buf), 8 * at, x, 8 * n);
    assert BitsOf(buf)[8 * at..8 * at + 8 * n] == BitsOf(buf)[8 * at..8 * (at + n)];
  }

  /** Whoever reads an encoding with anything after it gets the value and consumes the encoding. */
  lemma ReadsBack(t: Type, v: Value, bytes: seq<bv8>, size: nat, r: Status, w: Value, consumed: nat)
    requires t.Nested? && WellFormed(t) && Fits(t, v) && At(BitsOf(bytes), 0, Encode(t, v, 0))
    requires 8 * size == |Encode(t, v, 0)| && Deserialized(t, bytes, r, w, consumed)
    ensures r == Ok && w == v && consumed == size
  {
    RoundTrip(t, v, BitsOf(bytes), 0);
  }

  /** The message depends on the object only: two runs, on different buffers at different places, write the same bytes. */
  lemma SameBytes(t: Type, v: Value, was1: seq<bool>, buf1: seq<bv8>, at1: nat, capacity1: nat, size1: nat,
    was2: seq<bool>, buf2: seq<bv8>, at2: nat, capacity2: nat, size2: nat)
    requires Shape(t, v)
    requires Serialized(t, v, was1, BitsOf(buf1), at1, capacity1, Ok, size1)
    requires Serialized(t, v, was2, BitsOf(buf2), at2, capacity2, Ok, size2)
    ensures size1 == size2 && buf1[at1..at1 + size1] == buf2[at2..at2 + size2]
  {
    var x := Encode(t, v, 0);
    Written(buf1, was1, at1, size1, x);
    Written(buf2, was2, at2, size2, x);
    BitsOfInjective(buf1[at1..at1 + size1], buf2[at2..at2 + size2]);
  }

  lemma Written(buf: seq<bv8>, was: seq<bool>, at: nat, size: nat, x: seq<bool>)
    requires 8 * at + |x| <= |was| && BitsOf(buf) == Splice(was, 8 * at, x) && 8 * size == |x|
    ensures at + size <= |buf| && BitsOf(buf[at..at + size]) == x
  {
    BitsOfSlice(buf, at, at + size);
  }

  /** Bytes past the returned size, like those before the message, are as they were. */
  lemma RestUntouched(t: Type, v: Value, before: seq<bv8>, buf: seq<bv8>, at: nat, capacity: nat, size: nat)
    requires Shape(t, v) && Serialized(t, v, BitsOf(before), BitsOf(buf), at, capacity, Ok, size)
    ensures |buf| == |before| && buf[..at] == before[..at] && buf[at + size..] == before[at + size..]
  {
    hide Encode, Validate, MaxEnd, BitsOf;
    BitsOfSlice(buf, 0, at);
    BitsOfSlice(before, 0, at);
    BitsOfInjective(buf[0..at], before[0..at]);
    BitsOfSlice(buf, at + size, |buf|);
    BitsOfSlice(before, at + size, |buf|);
    BitsOfInjective(buf[at + size..|buf|], before[at + size..|buf|]);
  }

  /** No union anywhere in the type. */
  predicate Tagless(t: Type) {
    match t
    case Empty | Field(_) | Void(_) | Blob(_, _, _) => true
    case List(_, e, _) => Tagless(e)
    case Then(a, b) => Tagless(a) && Tagless(b)
    case Nested(b) => Tagless(b)
    case Union(_) => false
  }

  lemma {:induction false} OnlyBadLength(t: Type, v: Value)
    requires Shape(t, v)
    ensures Validate(t, v) != BufferTooSmall && (Tagless(t) ==> Validate(t, v) != BadUnionTag)
    decreases t, 0
  {
    match t
    case Empty | Field(_) | Void(_) | Blob(_, _, _) =>
    case List(_, e, _) => OnlyBadLengthList(e, v);
    case Then(a, b) =>
      OnlyBadLength(a, v.first);
      OnlyBadLength(b, v.rest);
    case Nested(b) => OnlyBadLength(b, v);
    case Union(os) => if v.tag < |os| { OnlyBadLength(os[v.tag], v.option); }
  }

  lemma {:induction false} OnlyBadLengthList(e: Type, v: Value)
    requires ListShape(e, v)
    ensures ValidateList(e, v) != BufferTooSmall && (Tagless(e) ==> ValidateList(e, v) != BadUnionTag)
    decreases e, 1, v
  {
    if v.Pair? {
      OnlyBadLength(e, v.first);
      OnlyBadLengthList(e, v.rest);
    }
  }

  /** The single capacity check is enough: the buffer is refused exactly when it is smaller than the extent of the type;
      past the check an object is refused exactly when it does not fit the type, and a type without unions can only be
      refused for the length of an array. */
  lemma CapacityIsEnough(t: Type, v: Value, was: seq<bool>, now: seq<bool>, at: nat, capacity: nat, r: Status, size: nat)
    requires Shape(t, v) && Serialized(t, v, was, now, at, capacity, r, size)
    ensures r == BufferTooSmall <==> 8 * capacity < MaxEnd(t, 0)
    ensures r == Ok <==> 8 * capacity >= MaxEnd(t, 0) && Fits(t, v)
    ensures Tagless(t) ==> r != BadUnionTag
    ensures r == Ok ==> MinEnd(t, 0) <= 8 * size <= MaxEnd(t, 0)
  {
    OnlyBadLength(t, v);
    FitsIffValid(t, v);
    if r == Ok {
      EncodeBounded(t, v, 0);
    }
  }

  /** Implicit zero extension, for any two runs: appending zero bytes changes neither the error nor the value, and what is
      consumed of the shorter input is what is consumed of the longer one, cut at the end of the shorter one. */
  lemma ZeroExtended(t: Type, bytes: seq<bv8>, zeros: seq<bv8>, r1: Status, v1: Value, size1: nat,
    r2: Status, v2: Value, size2: nat)
    requires t.Nested? && forall i | 0 <= i < |zeros| :: zeros[i] == 0
    requires Deserialized(t, bytes, r1, v1, size1) && Deserialized(t, bytes + zeros, r2, v2, size2)
    ensures r1 == r2 && (r1 == Ok ==> v1 == v2 && size1 == ChooseMin(size2, |bytes|))
  {
    ZeroExtension(t, bytes, zeros);
    NestedEnd(t, BitsOf(bytes), 0);
  }

  /** A decoded value always fits its type, so it can be encoded again. */
  lemma {:induction false} DecodedFits(t: Type, b: seq<bool>, off: nat)
    requires WellFormed(t)
    ensures Decode(t, b, off).Done? ==> Fits(t, Decode(t, b, off).value)
    decreases t, 1
  {
    match t
    case Empty | Field(_) | Void(_) =>
    case Blob(p, u, c) => BlobFits(t, b, off);
    case List(_, _, _) => ListFits(t, b, off);
    case Then(_, _) => ThenFits(t, b, off);
    case Nested(body) => DecodedFits(body, b, Align(off));
    case Union(os) =>
      var tag := Unsigned(b, off, 8);
      if tag < |os| {
        DecodedFits(os[tag], b, off + 8);
      }
  }

  lemma BlobFits(t: Type, b: seq<bool>, off: nat)
    requires t.Blob? && t.unit > 0
    ensures Decode(t, b, off).Done? ==> Fits(t, Decode(t, b, off).value)
  {
    var n := Unsigned(b, off, t.prefix);
    BlobDecoded(t, b, off, n);
    WholeCount(n, t.unit);
  }

  lemma {:induction false} ThenFits(t: Type, b: seq<bool>, off: nat)
    requires t.Then? && WellFormed(t)
    ensures Decode(t, b, off).Done? ==> Fits(t, Decode(t, b, off).value)
    decreases t, 0
  {
    var r := Decode(t.first, b, off);
    DecodedFits(t.first, b, off);
    ThenDecoded(t, b, off, r);
    if r.Done? {
      DecodedFits(t.rest, b, r.next);
    }
  }

  lemma {:induction false} ListFits(t: Type, b: seq<bool>, off: nat)
    requires t.List? && WellFormed(t)
    ensures Decode(t, b, off).Done? ==> Fits(t, Decode(t, b, off).value)
    decreases t, 0
  {
    var n := Unsigned(b, off, t.prefix);
    var e := t.element;
    forall o: nat
      ensures Decoder(e)(b, o).Done? ==> Fits(e, Decoder(e)(b, o).value)
    {
      DecodedFits(e, b, o);
    }
    ElementsFit(e, Decoder(e), n, b, off + t.prefix);
  }

  lemma {:induction false} ElementsFit(e: Type, f: (seq<bool>, nat) -> Result, n: nat, b: seq<bool>, off: nat)
    requires forall o: nat :: f(b, o).Done? ==> Fits(e, f(b, o).value)
    ensures var r := DecodeList(f, n, b, off); r.Done? ==> FitsList(e, r.value) && Length(r.value) == n
  {
    if n > 0 {
      var r := f(b, off);
      if r.Done? {
        ElementsFit(e, f, n - 1, b, r.next);
      }
    }
  }

  /** Initialization by decoding an empty message never fails, and consumes nothing. */
  lemma {:induction false} EmptyMessage(t: Type, off: nat)
    requires WellFormed(t)
    ensures Decode(t, [], off).Done?
    decreases t, 0
  {
    match t
    case Empty | Field(_) | Void(_) =>
    case Blob(p, u, c) => ZeroPrefix(off, p);
    case List(p, e, c) => ZeroPrefix(off, p);
    case Then(a, b) =>
      EmptyMessage(a, off);
      EmptyMessage(b, Decode(a, [], off).next);
    case Nested(body) => EmptyMessage(body, Align(off));
    case Union(os) =>
      ZeroPrefix(off, 8);
      EmptyMessage(os[0], off + 8);
  }

  lemma ZeroPrefix(off: nat, n: nat)
    ensures Unsigned([], off, n) == 0
  {
    assert Read([], off, n) == Zeros(n);
    FromBitsZeros(n);
  }

  lemma InitializeSucceeds(t: Type, r: Status, v: Value, size: nat)
    requires t.Nested? && WellFormed(t) && Deserialized(t, [], r, v, size)
    ensures r == Ok && size == 0 && Fits(t, v)
  {
    EmptyMessage(t, 0);
    DecodedFits(t, [], 0);
  }

  /** No encoding is the beginning of another one: a reader always knows which value it has seen. */
  lemma PrefixFree(t: Type, v: Value, w: Value, rest: seq<bool>)
    requires WellFormed(t) && Fits(t, v) && Fits(t, w) && Encode(t, w, 0) == Encode(t, v, 0) + rest
    ensures v == w && rest == []
  {
    var b := Encode(t, w, 0);
    assert At(b, 0, b);
    assert At(b, 0, Encode(t, v, 0));
    RoundTrip(t, w, b, 0);
    RoundTrip(t, v, b, 0);
  }
}
