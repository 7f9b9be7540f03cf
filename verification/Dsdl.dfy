/** The data serialization rules of the Cyphal Specification v1.0, section 3.7, as a reference encoder and decoder over
    bits: fields follow each other, a nested composite starts and ends on a byte boundary, a variable-length array is
    preceded by its length, a union by its tag, and every bit past the end of the input is zero.
    The theorems hold of every type that can be built from these constructors. */
module Dsdl {
  import opened Bits
  import opened Serialization

  datatype Type =
    | Empty
    | Field(width: nat)                                  // an integer, a boolean, or an array of fixed length
    | Void(width: nat)                                   // padding between fields
    | Blob(prefix: nat, unit: nat, capacity: nat)        // a variable-length array of primitives of `unit` bits
    | List(prefix: nat, element: Type, capacity: nat)    // a variable-length array of composites
    | Then(first: Type, rest: Type)
    | Nested(body: Type)                                 // a composite
    | Union(options: seq<Type>)                          // an 8-bit tag and one option

  /** Values: the bits of a primitive, pairs for structures, chains of pairs for arrays of composites. */
  datatype Value =
    | Nothing
    | Plain(bits: seq<bool>)
    | Pair(first: Value, rest: Value)
    | Tagged(tag: nat, option: Value)

  type Fault = s: Status | s != Ok witness BadArrayLength

  datatype Result = Done(value: Value, next: nat) | Fail(error: Fault) {
    function WithRest(r: Result): Result
      requires Done?
    {
      if r.Done? then Done(Pair(value, r.value), r.next) else r
    }

    function WithTag(tag: nat): Result {
      if Done? then Done(Tagged(tag, value), next) else this
    }

    function ToBoundary(): Result {
      if Done? then Done(value, Align(next)) else this
    }
  }

  /** The next byte boundary. */
  function Align(off: nat): (r: nat)
    ensures off <= r < off + 8 && r % 8 == 0
  {
    if off % 8 == 0 then off else off - off % 8 + 8
  }

  predicate WellFormed(t: Type) {
    match t
    case Empty | Field(_) | Void(_) => true
    case Blob(p, u, c) => u > 0 && c < Pow2(p)
    case List(p, e, c) => c < Pow2(p) && WellFormed(e)
    case Then(a, b) => WellFormed(a) && WellFormed(b)
    case Nested(b) => WellFormed(b)
    case Union(os) => 0 < |os| <= 256 && forall i | 0 <= i < |os| :: WellFormed(os[i])
  }

  function Length(v: Value): nat {
    if v.Pair? then 1 + Length(v.rest) else 0
  }

  /** A value of the right form; its array lengths and union tags may still be out of range. */
  predicate Shape(t: Type, v: Value)
    decreases t, 0
  {
    match t
    case Empty | Void(_) => v.Nothing?
    case Field(w) => v.Plain? && |v.bits| == w
    case Blob(_, u, _) => v.Plain? && u > 0 && |v.bits| % u == 0
    case List(_, e, _) => ListShape(e, v)
    case Then(a, b) => v.Pair? && Shape(a, v.first) && Shape(b, v.rest)
    case Nested(b) => Shape(b, v)
    case Union(os) => v.Tagged? && (v.tag < |os| ==> Shape(os[v.tag], v.option))
  }

  predicate ListShape(e: Type, v: Value)
    decreases e, 1, v
  {
    v.Nothing? || (v.Pair? && Shape(e, v.first) && ListShape(e, v.rest))
  }

  /** The error a serializer reports, if any: the first one in field order. */
  function Validate(t: Type, v: Value): Status
    requires Shape(t, v)
    decreases t, 0
  {
    match t
    case Empty | Void(_) | Field(_) => Ok
    case Blob(_, u, c) => if |v.bits| / u > c then BadArrayLength else Ok
    case List(_, e, c) => if Length(v) > c then BadArrayLength else ValidateList(e, v)
    case Then(a, b) =>
      var s := Validate(a, v.first);
      if s != Ok then s else Validate(b, v.rest)
    case Nested(b) => Validate(b, v)
    case Union(os) => if v.tag >= |os| then BadUnionTag else Validate(os[v.tag], v.option)
  }

  function ValidateList(e: Type, v: Value): Status
    requires ListShape(e, v)
    decreases e, 1, v
  {
    if v.Nothing? then Ok
    else
      var s := Validate(e, v.first);
      if s != Ok then s else ValidateList(e, v.rest)
  }

  /** A value of the type: right form, every length and tag in range. */
  predicate Fits(t: Type, v: Value)
    decreases t, 0
  {
    match t
    case Empty | Void(_) => v.Nothing?
    case Field(w) => v.Plain? && |v.bits| == w
    case Blob(_, u, c) => v.Plain? && u > 0 && |v.bits| % u == 0 && |v.bits| / u <= c
    case List(_, e, c) => Length(v) <= c && FitsList(e, v)
    case Then(a, b) => v.Pair? && Fits(a, v.first) && Fits(b, v.rest)
    case Nested(b) => Fits(b, v)
    case Union(os) => v.Tagged? && v.tag < |os| && Fits(os[v.tag], v.option)
  }

  predicate FitsList(e: Type, v: Value)
    decreases e, 1, v
  {
    v.Nothing? || (v.Pair? && Fits(e, v.first) && FitsList(e, v.rest))
  }

  lemma {:induction false} FitsIffValid(t: Type, v: Value)
    requires Shape(t, v)
    ensures Fits(t, v) <==> Validate(t, v) == Ok
    decreases t, 0
  {
    match t
    case Empty | Void(_) | Field(_) | Blob(_, _, _) =>
    case List(_, e, _) => FitsListIffValid(e, v);
    case Then(a, b) =>
      FitsIffValid(a, v.first);
      FitsIffValid(b, v.rest);
    case Nested(b) => FitsIffValid(b, v);
    case Union(os) => if v.tag < |os| { FitsIffValid(os[v.tag], v.option); }
  }

  lemma {:induction false} FitsListIffValid(e: Type, v: Value)
    requires ListShape(e, v)
    ensures FitsList(e, v) <==> ValidateList(e, v) == Ok
    decreases e, 1, v
  {
    if v.Pair? {
      FitsIffValid(e, v.first);
      FitsListIffValid(e, v.rest);
    }
  }

  // ---------------------------------------------------------------- the reference encoder

  /** The representation of `v` when it starts at bit `off` of the message; meant for values that fit the type. */
  function Encode(t: Type, v: Value, off: nat): seq<bool>
    decreases t, 0
  {
    match t
    case Empty => []
    case Field(_) => BitsIn(v)
    case Void(w) => Zeros(w)
    case Blob(p, u, _) => ToBits(Count(v, u), p) + BitsIn(v)
    case List(p, e, _) => ToBits(Length(v), p) + EncodeList(Encoder(e), v, off + p)
    case Then(a, b) =>
      if v.Pair? then
        var x := Encode(a, v.first, off);
        x + Encode(b, v.rest, off + |x|)
      else []
    case Nested(b) => Padded(Encode(b, v, Align(off)), off)
    case Union(os) =>
      if v.Tagged? && v.tag < |os| then ToBits(v.tag, 8) + Encode(os[v.tag], v.option, off + 8) else []
  }

  function Encoder(e: Type): (Value, nat) -> seq<bool>
    decreases e, 1
  {
    (v: Value, off: nat) => Encode(e, v, off)
  }

  /** The elements one after another. */
  function EncodeList(element: (Value, nat) -> seq<bool>, v: Value, off: nat): seq<bool>
    decreases v
  {
    if v.Pair? then
      var x := element(v.first, off);
      x + EncodeList(element, v.rest, off + |x|)
    else []
  }

  function BitsIn(v: Value): seq<bool> {
    if v.Plain? then v.bits else []
  }

  function Count(v: Value, unit: nat): nat {
    if unit == 0 then 0 else |BitsIn(v)| / unit
  }

  /** `inner`, which starts on the next byte boundary, with zeros before and after it. */
  function Padded(inner: seq<bool>, off: nat): (r: seq<bool>)
    ensures off + |r| == Align(Align(off) + |inner|)
  {
    Zeros(Align(off) - off) + inner + Zeros(Align(Align(off) + |inner|) - (Align(off) + |inner|))
  }

  // ---------------------------------------------------------------- the reference decoder

  function Decode(t: Type, b: seq<bool>, off: nat): Result
    decreases t, 0
  {
    match t
    case Empty => Done(Nothing, off)
    case Field(w) => Done(Plain(Read(b, off, w)), off + w)
    case Void(w) => Done(Nothing, off + w)
    case Blob(p, u, c) =>
      var n := Unsigned(b, off, p);
      if n > c then Fail(BadArrayLength) else Done(Plain(Read(b, off + p, n * u)), off + p + n * u)
    case List(p, e, c) =>
      var n := Unsigned(b, off, p);
      if n > c then Fail(BadArrayLength) else DecodeList(Decoder(e), n, b, off + p)
    case Then(a, rest) =>
      var r := Decode(a, b, off);
      if r.Fail? then r else r.WithRest(Decode(rest, b, r.next))
    case Nested(body) => Decode(body, b, Align(off)).ToBoundary()
    case Union(os) =>
      var tag := Unsigned(b, off, 8);
      if tag >= |os| then Fail(BadUnionTag) else Decode(os[tag], b, off + 8).WithTag(tag)
  }

  function Decoder(e: Type): (seq<bool>, nat) -> Result
    decreases e, 1
  {
    (b: seq<bool>, off: nat) => Decode(e, b, off)
  }

  /** `n` elements one after another. */
  function DecodeList(element: (seq<bool>, nat) -> Result, n: nat, b: seq<bool>, off: nat): Result
    decreases n
  {
    if n == 0 then Done(Nothing, off)
    else
      var r := element(b, off);
      if r.Fail? then r else r.WithRest(DecodeList(element, n - 1, b, r.next))
  }

  // ---------------------------------------------------------------- round trip

  /** The bits `x` stand at `off`; anything may follow. */
  ghost predicate At(b: seq<bool>, off: nat, x: seq<bool>) {
    off + |x| <= |b| && Read(b, off, |x|) == x
  }

  lemma AtConcat(b: seq<bool>, off: nat, x: seq<bool>, y: seq<bool>)
    requires At(b, off, x + y)
    ensures At(b, off, x) && At(b, off + |x|, y)
  {
    var all := Read(b, off, |x + y|);
    assert all[..|x|] == x && all[|x|..] == y;
    assert Read(b, off, |x|) == all[..|x|];
    assert Read(b, off + |x|, |y|) == all[|x|..];
  }

  lemma AtNumber(b: seq<bool>, off: nat, n: nat, p: nat)
    requires At(b, off, ToBits(n, p)) && n < Pow2(p)
    ensures Unsigned(b, off, p) == n
  {
    FromToBits(n, p);
    DivModUnique(n, Pow2(p), 0, n);
  }

  lemma NestedAt(inner: seq<bool>, b: seq<bool>, off: nat)
    requires At(b, off, Padded(inner, off))
    ensures At(b, Align(off), inner)
  {
    var pad, tail := Zeros(Align(off) - off), Zeros(Align(Align(off) + |inner|) - (Align(off) + |inner|));
    AtConcat(b, off, pad + inner, tail);
    AtConcat(b, off, pad, inner);
  }

  lemma CountedAt(b: seq<bool>, off: nat, n: nat, p: nat, x: seq<bool>)
    requires At(b, off, ToBits(n, p) + x) && n < Pow2(p)
    ensures Unsigned(b, off, p) == n && At(b, off + p, x)
  {
    AtConcat(b, off, ToBits(n, p), x);
    AtNumber(b, off, n, p);
  }

  /** Self-delimitation and round trip at once: wherever an encoding stands and whatever follows it, decoding yields the
      value and stops exactly at its end. */
  lemma {:induction false} RoundTrip(t: Type, v: Value, b: seq<bool>, off: nat)
    requires WellFormed(t) && Fits(t, v) && At(b, off, Encode(t, v, off))
    ensures Decode(t, b, off) == Done(v, off + |Encode(t, v, off)|)
    decreases t, 1
  {
    match t
    case Empty =>
    case Field(w) =>
    case Void(w) =>
    case Blob(_, _, _) => RoundTripBlob(t, v, b, off);
    case List(_, _, _) => RoundTripListField(t, v, b, off);
    case Then(_, _) => RoundTripThen(t, v, b, off);
    case Nested(_) => RoundTripNested(t, v, b, off);
    case Union(_) => RoundTripUnion(t, v, b, off);
  }

  lemma RoundTripBlob(t: Type, v: Value, b: seq<bool>, off: nat)
    requires t.Blob? && WellFormed(t) && Fits(t, v) && At(b, off, Encode(t, v, off))
    ensures Decode(t, b, off) == Done(v, off + |Encode(t, v, off)|)
  {
    var n := |v.bits| / t.unit;
    WholeUnits(|v.bits|, t.unit);
    CountedAt(b, off, n, t.prefix, v.bits);
    BlobRead(t, v, b, off, n);
  }

  lemma BlobRead(t: Type, v: Value, b: seq<bool>, off: nat, n: nat)
    requires t.Blob? && v.Plain? && n <= t.capacity && |v.bits| == n * t.unit
    requires Unsigned(b, off, t.prefix) == n && Read(b, off + t.prefix, |v.bits|) == v.bits
    ensures Decode(t, b, off) == Done(v, off + t.prefix + |v.bits|)
  {
    BlobDecoded(t, b, off, n);
  }

  lemma WholeUnits(n: nat, u: nat)
    requires u > 0 && n % u == 0
    ensures (n / u) * u == n
  {
  }

  lemma BlobDecoded(t: Type, b: seq<bool>, off: nat, n: nat)
    requires t.Blob? && Unsigned(b, off, t.prefix) == n
    ensures Decode(t, b, off) == if n > t.capacity then Fail(BadArrayLength)
      else Done(Plain(Read(b, off + t.prefix, n * t.unit)), off + t.prefix + n * t.unit)
  {
  }

  lemma ListDecoded(t: Type, b: seq<bool>, off: nat, n: nat)
    requires t.List? && Unsigned(b, off, t.prefix) == n
    ensures Decode(t, b, off) == if n > t.capacity then Fail(BadArrayLength)
      else DecodeList(Decoder(t.element), n, b, off + t.prefix)
  {
  }

  lemma {:induction false} RoundTripListField(t: Type, v: Value, b: seq<bool>, off: nat)
    requires t.List? && WellFormed(t) && Fits(t, v) && At(b, off, Encode(t, v, off))
    ensures Decode(t, b, off) == Done(v, off + |Encode(t, v, off)|)
    decreases t, 0
  {
    CountedAt(b, off, Length(v), t.prefix, EncodeList(Encoder(t.element), v, off + t.prefix));
    ElementRoundTrip(t.element, b);
    RoundTripList(t.element, Encoder(t.element), Decoder(t.element), v, b, off + t.prefix);
  }

  lemma ThenDecoded(t: Type, b: seq<bool>, off: nat, r: Result)
    requires t.Then? && r == Decode(t.first, b, off)
    ensures Decode(t, b, off) == if r.Fail? then r else r.WithRest(Decode(t.rest, b, r.next))
  {
  }

  lemma ThenEncoded(t: Type, v: Value, off: nat, x: seq<bool>)
    requires t.Then? && v.Pair? && x == Encode(t.first, v.first, off)
    ensures Encode(t, v, off) == x + Encode(t.rest, v.rest, off + |x|)
  {
  }

  lemma ThenAt(t: Type, v: Value, b: seq<bool>, off: nat, mid: nat, x: seq<bool>, y: seq<bool>)
    requires t.Then? && v.Pair? && x == Encode(t.first, v.first, off) && mid == off + |x| && y == Encode(t.rest, v.rest, mid)
    requires At(b, off, Encode(t, v, off))
    ensures At(b, off, x) && At(b, mid, y) && |Encode(t, v, off)| == |x| + |y|
  {
    ThenEncoded(t, v, off, x);
    AtConcat(b, off, x, y);
  }

  lemma {:induction false} RoundTripThen(t: Type, v: Value, b: seq<bool>, off: nat)
    requires t.Then? && WellFormed(t) && Fits(t, v) && At(b, off, Encode(t, v, off))
    ensures Decode(t, b, off) == Done(v, off + |Encode(t, v, off)|)
    decreases t, 0
  {
    var x := Encode(t.first, v.first, off);
    var mid := off + |x|;
    var y := Encode(t.rest, v.rest, mid);
    ThenAt(t, v, b, off, mid, x, y);
    RoundTrip(t.first, v.first, b, off);
    RoundTrip(t.rest, v.rest, b, mid);
    ThenDecoded(t, b, off, Done(v.first, mid));
  }

  lemma {:induction false} RoundTripNested(t: Type, v: Value, b: seq<bool>, off: nat)
    requires t.Nested? && WellFormed(t) && Fits(t, v) && At(b, off, Encode(t, v, off))
    ensures Decode(t, b, off) == Done(v, off + |Encode(t, v, off)|)
    decreases t, 0
  {
    NestedAt(Encode(t.body, v, Align(off)), b, off);
    RoundTrip(t.body, v, b, Align(off));
  }

  lemma {:induction false} RoundTripUnion(t: Type, v: Value, b: seq<bool>, off: nat)
    requires t.Union? && WellFormed(t) && Fits(t, v) && At(b, off, Encode(t, v, off))
    ensures Decode(t, b, off) == Done(v, off + |Encode(t, v, off)|)
    decreases t, 0
  {
    Pow2Of8();
    CountedAt(b, off, v.tag, 8, Encode(t.options[v.tag], v.option, off + 8));
    RoundTrip(t.options[v.tag], v.option, b, off + 8);
  }

  lemma ListAt(f: (Value, nat) -> seq<bool>, v: Value, b: seq<bool>, off: nat, mid: nat, x: seq<bool>, y: seq<bool>)
    requires v.Pair? && x == f(v.first, off) && mid == off + |x| && y == EncodeList(f, v.rest, mid)
    requires At(b, off, EncodeList(f, v, off))
    ensures At(b, off, x) && At(b, mid, y) && |EncodeList(f, v, off)| == |x| + |y|
  {
    ListEncoded(f, v, off, x);
    AtConcat(b, off, x, y);
  }

  lemma ListEncoded(f: (Value, nat) -> seq<bool>, v: Value, off: nat, x: seq<bool>)
    requires v.Pair? && x == f(v.first, off)
    ensures EncodeList(f, v, off) == x + EncodeList(f, v.rest, off + |x|)
  {
  }

  /** Over the message `b`, `g` undoes `f` on every value of type `e`. */
  ghost predicate Undoes(g: (seq<bool>, nat) -> Result, f: (Value, nat) -> seq<bool>, e: Type, b: seq<bool>) {
    forall v: Value, off: nat | Fits(e, v) && At(b, off, f(v, off)) :: g(b, off) == Done(v, off + |f(v, off)|)
  }

  lemma {:induction false} ElementRoundTrip(e: Type, b: seq<bool>)
    requires WellFormed(e)
    ensures Undoes(Decoder(e), Encoder(e), e, b)
    decreases e, 2
  {
    forall v: Value, off: nat | Fits(e, v) && At(b, off, Encoder(e)(v, off))
      ensures Decoder(e)(b, off) == Done(v, off + |Encoder(e)(v, off)|)
    {
      RoundTrip(e, v, b, off);
    }
  }

  lemma {:induction false} RoundTripList(e: Type, f: (Value, nat) -> seq<bool>, g: (seq<bool>, nat) -> Result,
    v: Value, b: seq<bool>, off: nat)
    requires Undoes(g, f, e, b) && FitsList(e, v) && At(b, off, EncodeList(f, v, off))
    ensures DecodeList(g, Length(v), b, off) == Done(v, off + |EncodeList(f, v, off)|)
    decreases v
  {
    if v.Pair? {
      var x := f(v.first, off);
      var mid := off + |x|;
      var y := EncodeList(f, v.rest, mid);
      ListAt(f, v, b, off, mid, x, y);
      UndoneAt(g, f, e, v.first, b, off, mid);
      RoundTripList(e, f, g, v.rest, b, mid);
      PairDecoded(g, Length(v.rest), b, off, v, mid, mid + |y|);
    }
  }

  lemma UndoneAt(g: (seq<bool>, nat) -> Result, f: (Value, nat) -> seq<bool>, e: Type, v: Value, b: seq<bool>,
    off: nat, end: nat)
    requires Undoes(g, f, e, b) && Fits(e, v) && At(b, off, f(v, off)) && end == off + |f(v, off)|
    ensures g(b, off) == Done(v, end)
  {
  }

  lemma PairDecoded(f: (seq<bool>, nat) -> Result, n: nat, b: seq<bool>, off: nat, v: Value, mid: nat, next: nat)
    requires v.Pair? && f(b, off) == Done(v.first, mid) && DecodeList(f, n, b, mid) == Done(v.rest, next)
    ensures DecodeList(f, n + 1, b, off) == Done(v, next)
  {
  }
}
