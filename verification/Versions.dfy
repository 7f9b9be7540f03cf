/** Compatibility of two versions of a type that differ in the capacities of arrays and the number of options. */
module Versions {
  import opened Bits
  import opened Serialization
  import opened Dsdl
  import opened Sizes
  import opened Codec
  import opened Messages
  import opened Primitive
  import opened FileMessages

  /** `b` admits everything `a` does, on the same wire format. */
  predicate Widens(a: Type, b: Type) {
    match a
    case Empty => b.Empty?
    case Field(w) => b == Field(w)
    case Void(w) => b == Void(w)
    case Blob(p, u, c) => b.Blob? && b.prefix == p && b.unit == u && c <= b.capacity
    case List(p, e, c) => b.List? && b.prefix == p && c <= b.capacity && Widens(e, b.element)
    case Then(x, y) => b.Then? && Widens(x, b.first) && Widens(y, b.rest)
    case Nested(x) => b.Nested? && Widens(x, b.body)
    case Union(os) => b.Union? && |os| <= |b.options| && forall i | 0 <= i < |os| :: Widens(os[i], b.options[i])
  }

  // ---------------------------------------------------------------- a new reader of old messages

  /** A value of the older type is a value of the newer one, with the same encoding. */
  lemma {:induction false} SameEncoding(a: Type, b: Type, v: Value, off: nat)
    requires Widens(a, b) && Fits(a, v)
    ensures Fits(b, v) && Encode(a, v, off) == Encode(b, v, off)
    decreases a, 1
  {
    match a
    case Empty | Field(_) | Void(_) | Blob(_, _, _) =>
    case List(p, e, _) =>
      ElementsSame(e, b.element);
      ListSameEncoding(e, b.element, Encoder(e), Encoder(b.element), v, off + p);
    case Then(_, _) => ThenSameEncoding(a, b, v, off);
    case Nested(x) => SameEncoding(x, b.body, v, Align(off));
    case Union(_) => UnionSameEncoding(a, b, v, off);
  }

  lemma {:induction false} UnionSameEncoding(a: Type, b: Type, v: Value, off: nat)
    requires a.Union? && Widens(a, b) && Fits(a, v)
    ensures Fits(b, v) && Encode(a, v, off) == Encode(b, v, off)
    decreases a, 0
  {
    SameEncoding(a.options[v.tag], b.options[v.tag], v.option, off + 8);
  }

  lemma {:induction false} ThenSameEncoding(a: Type, b: Type, v: Value, off: nat)
    requires a.Then? && Widens(a, b) && Fits(a, v)
    ensures Fits(b, v) && Encode(a, v, off) == Encode(b, v, off)
    decreases a, 0
  {
    var x := Encode(a.first, v.first, off);
    SameEncoding(a.first, b.first, v.first, off);
    SameEncoding(a.rest, b.rest, v.rest, off + |x|);
    ThenEncoded(a, v, off, x);
    ThenEncoded(b, v, off, x);
  }

  ghost predicate Agree(a: Type, b: Type, f: (Value, nat) -> seq<bool>, g: (Value, nat) -> seq<bool>) {
    && (forall v: Value | Fits(a, v) :: Fits(b, v))
    && (forall v: Value, off: nat | Fits(a, v) :: f(v, off) == g(v, off))
  }

  lemma {:induction false} ElementsSame(a: Type, b: Type)
    requires Widens(a, b)
    ensures Agree(a, b, Encoder(a), Encoder(b))
    decreases a, 2
  {
    var f, g := Encoder(a), Encoder(b);
    forall v: Value | Fits(a, v)
      ensures Fits(b, v)
    {
      SameEncoding(a, b, v, 0);
    }
    forall v: Value, off: nat | Fits(a, v)
      ensures f(v, off) == g(v, off)
    {
      SameEncoding(a, b, v, off);
    }
  }

  lemma {:induction false} ListSameEncoding(a: Type, b: Type, f: (Value, nat) -> seq<bool>, g: (Value, nat) -> seq<bool>,
    v: Value, off: nat)
    requires Agree(a, b, f, g) && FitsList(a, v)
    ensures FitsList(b, v) && EncodeList(f, v, off) == EncodeList(g, v, off)
    decreases v
  {
    if v.Pair? {
      var x := f(v.first, off);
      assert x == g(v.first, off);
      ListEncoded(f, v, off, x);
      ListEncoded(g, v, off, x);
      ListSameEncoding(a, b, f, g, v.rest, off + |x|);
    }
  }

  // ---------------------------------------------------------------- an old reader of new messages

  /** What an old reader makes of a message that a new reader decodes to `Done(v, next)`: the same, or exactly the error an
      old writer would report for `v`. */
  function Narrowed(a: Type, v: Value, next: nat): Result
    requires Shape(a, v)
  {
    if Validate(a, v) == Ok then Done(v, next) else Fail(Validate(a, v))
  }

  function NarrowedList(a: Type, v: Value, next: nat): Result
    requires ListShape(a, v)
  {
    if ValidateList(a, v) == Ok then Done(v, next) else Fail(ValidateList(a, v))
  }

  lemma {:induction false} OldReader(a: Type, b: Type, x: seq<bool>, off: nat)
    requires Widens(a, b) && WellFormed(a) && Decode(b, x, off).Done?
    ensures var r := Decode(b, x, off); Shape(a, r.value) && Decode(a, x, off) == Narrowed(a, r.value, r.next)
    decreases a, 1
  {
    match a
    case Empty | Field(_) | Void(_) =>
    case Blob(_, _, _) => OldBlob(a, b, x, off);
    case List(_, _, _) => OldList(a, b, x, off);
    case Then(_, _) => OldThen(a, b, x, off);
    case Nested(body) => OldReader(body, b.body, x, Align(off));
    case Union(os) => OldUnion(a, b, x, off);
  }

  lemma OldBlob(a: Type, b: Type, x: seq<bool>, off: nat)
    requires a.Blob? && Widens(a, b) && WellFormed(a) && Decode(b, x, off).Done?
    ensures var r := Decode(b, x, off); Shape(a, r.value) && Decode(a, x, off) == Narrowed(a, r.value, r.next)
  {
    var n := Unsigned(x, off, a.prefix);
    BlobDecoded(a, x, off, n);
    BlobDecoded(b, x, off, n);
    BlobEncoded(a, Decode(b, x, off).value, n, off);
  }

  lemma {:induction false} OldUnion(a: Type, b: Type, x: seq<bool>, off: nat)
    requires a.Union? && Widens(a, b) && WellFormed(a) && Decode(b, x, off).Done?
    ensures var r := Decode(b, x, off); Shape(a, r.value) && Decode(a, x, off) == Narrowed(a, r.value, r.next)
    decreases a, 0
  {
    var tag := Unsigned(x, off, 8);
    if tag < |a.options| {
      OldReader(a.options[tag], b.options[tag], x, off + 8);
    }
  }

  lemma {:induction false} OldThen(a: Type, b: Type, x: seq<bool>, off: nat)
    requires a.Then? && Widens(a, b) && WellFormed(a) && Decode(b, x, off).Done?
    ensures var r := Decode(b, x, off); Shape(a, r.value) && Decode(a, x, off) == Narrowed(a, r.value, r.next)
    decreases a, 0
  {
    var r1 := Decode(b.first, x, off);
    ThenDecoded(b, x, off, r1);
    var r2 := Decode(b.rest, x, r1.next);
    OldReader(a.first, b.first, x, off);
    OldReader(a.rest, b.rest, x, r1.next);
    ThenDecoded(a, x, off, Narrowed(a.first, r1.value, r1.next));
    ThenNarrowed(a, r1.value, r1.next, r2.value, r2.next);
  }

  lemma ThenNarrowed(a: Type, v: Value, mid: nat, w: Value, next: nat)
    requires a.Then? && Shape(a.first, v) && Shape(a.rest, w)
    ensures Shape(a, Pair(v, w))
    ensures var r := Narrowed(a.first, v, mid);
      Narrowed(a, Pair(v, w), next) == if r.Fail? then r else r.WithRest(Narrowed(a.rest, w, next))
  {
  }

  /** The element readers of the two versions, related as the whole readers are. */
  ghost predicate ReadsOld(a: Type, f: (seq<bool>, nat) -> Result, g: (seq<bool>, nat) -> Result, x: seq<bool>) {
    forall o: nat | g(x, o).Done? :: Shape(a, g(x, o).value) && f(x, o) == Narrowed(a, g(x, o).value, g(x, o).next)
  }

  lemma {:induction false} OldElements(a: Type, b: Type, x: seq<bool>)
    requires Widens(a, b) && WellFormed(a)
    ensures ReadsOld(a, Decoder(a), Decoder(b), x)
    decreases a, 2
  {
    forall o: nat | Decoder(b)(x, o).Done?
      ensures var r := Decoder(b)(x, o); Shape(a, r.value) && Decoder(a)(x, o) == Narrowed(a, r.value, r.next)
    {
      OldReader(a, b, x, o);
    }
  }

  lemma {:induction false} OldList(a: Type, b: Type, x: seq<bool>, off: nat)
    requires a.List? && Widens(a, b) && WellFormed(a) && Decode(b, x, off).Done?
    ensures var r := Decode(b, x, off); Shape(a, r.value) && Decode(a, x, off) == Narrowed(a, r.value, r.next)
    decreases a, 0
  {
    var n := Unsigned(x, off, a.prefix);
    ListDecoded(a, x, off, n);
    ListDecoded(b, x, off, n);
    OldElements(a.element, b.element, x);
    OldListElements(a.element, Decoder(a.element), Decoder(b.element), n, x, off + a.prefix);
  }

  lemma {:induction false} OldListElements(a: Type, f: (seq<bool>, nat) -> Result, g: (seq<bool>, nat) -> Result,
    n: nat, x: seq<bool>, off: nat)
    requires ReadsOld(a, f, g, x) && DecodeList(g, n, x, off).Done?
    ensures var r := DecodeList(g, n, x, off);
      ListShape(a, r.value) && Length(r.value) == n && DecodeList(f, n, x, off) == NarrowedList(a, r.value, r.next)
  {
    if n > 0 {
      var r := g(x, off);
      assert Shape(a, r.value) && f(x, off) == Narrowed(a, r.value, r.next);
      OldListElements(a, f, g, n - 1, x, r.next);
    }
  }

  // ---------------------------------------------------------------- Modify.1.0 and Modify.1.1

  lemma ModifyWidens()
    ensures Widens(Modify(PATH_1_0), Modify(PATH_2_0))
    ensures WellFormed(Modify(PATH_1_0)) && WellFormed(Modify(PATH_2_0))
  {
    ModifyWellFormed(PATH_1_0);
    ModifyWellFormed(PATH_2_0);
    FieldsWiden(ArrayObject(PATH_1_0), ArrayObject(PATH_2_0));
  }

  lemma FieldsWiden(a: Type, b: Type)
    requires a == ArrayObject(PATH_1_0) && b == ArrayObject(PATH_2_0)
    ensures Widens(Modify(PATH_1_0), Modify(PATH_2_0))
  {
    var s, t := ModifyFields(PATH_1_0), ModifyFields(PATH_2_0);
    assert Widens(PATH_1_0, PATH_2_0);
    assert Widens(Then(PATH_1_0, Empty), Then(PATH_2_0, Empty));
    assert Widens(a, b);
    assert Widens(s.rest.rest.rest.rest, t.rest.rest.rest.rest);
    assert Widens(s.rest.rest.rest, t.rest.rest.rest);
    assert Widens(s.rest.rest, t.rest.rest);
    assert Widens(s.rest, t.rest);
    assert Widens(s, t);
  }

  /** Every Modify.Request 1.0 message, read as 1.1, is the same request. */
  lemma ModifyUpgrade(v: Value, was: seq<bool>, buf: seq<bv8>, at: nat, capacity: nat, size: nat, n: nat,
    r: Status, w: Value, consumed: nat)
    requires Shape(Modify(PATH_1_0), v) && size <= n && at + n <= |buf|
    requires Serialized(Modify(PATH_1_0), v, was, BitsOf(buf), at, capacity, Ok, size)
    requires Deserialized(Modify(PATH_2_0), buf[at..at + n], r, w, consumed)
    ensures r == Ok && w == v && consumed == size
  {
    ModifyWidens();
    FitsIffValid(Modify(PATH_1_0), v);
    SameEncoding(Modify(PATH_1_0), Modify(PATH_2_0), v, 0);
    WrittenAt(buf, was, at, size, n, Encode(Modify(PATH_1_0), v, 0));
    ReadsBack(Modify(PATH_2_0), v, buf[at..at + n], size, r, w, consumed);
  }

  /** A Modify.Request 1.1 message, read as 1.0, is the same request exactly when both paths have at most 112 bytes;
      otherwise it is refused for the length of an array. */
  lemma ModifyDowngrade(obj: ModifyRequest, was: seq<bool>, buf: seq<bv8>, at: nat, capacity: nat, size: nat, n: nat,
    r: Status, w: Value, consumed: nat)
    requires obj.Valid(PATH_2_0) && size <= n && at + n <= |buf|
    requires Serialized(Modify(PATH_2_0), obj.Image(PATH_2_0), was, BitsOf(buf), at, capacity, Ok, size)
    requires Deserialized(Modify(PATH_1_0), buf[at..at + n], r, w, consumed)
    ensures r == if obj.source.count <= 112 && obj.destination.count <= 112 then Ok else BadArrayLength
    ensures r == Ok ==> w == obj.Image(PATH_1_0) && consumed == size
  {
    hide Decode, Encode, Validate, MaxEnd, MinEnd, Fits;
    var v := obj.Image(PATH_2_0);
    var bytes := buf[at..at + n];
    ModifyWidens();
    FitsIffValid(Modify(PATH_2_0), v);
    WrittenAt(buf, was, at, size, n, Encode(Modify(PATH_2_0), v, 0));
    RoundTrip(Modify(PATH_2_0), v, BitsOf(bytes), 0);
    OldReader(Modify(PATH_1_0), Modify(PATH_2_0), BitsOf(bytes), 0);
    ModifyImages(obj);
  }

  lemma ModifyImages(obj: ModifyRequest)
    ensures obj.Image(PATH_1_0) == obj.Image(PATH_2_0)
    ensures Shape(Modify(PATH_1_0), obj.Image(PATH_1_0))
    ensures Validate(Modify(PATH_1_0), obj.Image(PATH_1_0))
      == if obj.source.count <= 112 && obj.destination.count <= 112 then Ok else BadArrayLength
  {
    ModifyValidated(PATH_1_0, obj);
  }
}
