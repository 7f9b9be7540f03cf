/** Encodings depend on their position only through its remainder modulo eight, and their length lies between the
    bounds that the generated headers publish as extents and buffer sizes. */
module Sizes {
  import opened Dsdl
  import opened Laws

  // ---------------------------------------------------------------- position

  lemma {:induction false} EncodeAnywhere(t: Type, v: Value, off1: nat, off2: nat)
    requires off1 % 8 == off2 % 8
    ensures Encode(t, v, off1) == Encode(t, v, off2)
    decreases t, 1
  {
    hide *;
    match t
    case Empty | Field(_) | Void(_) | Blob(_, _, _) => LeafAnywhere(t, v, off1, off2);
    case List(_, _, _) => ListFieldAnywhere(t, v, off1, off2);
    case Then(_, _) => ThenAnywhere(t, v, off1, off2);
    case Nested(_) => NestedAnywhere(t, v, off1, off2);
    case Union(_) => UnionAnywhere(t, v, off1, off2);
  }

  lemma LeafAnywhere(t: Type, v: Value, off1: nat, off2: nat)
    requires t.Empty? || t.Field? || t.Void? || t.Blob?
    ensures Encode(t, v, off1) == Encode(t, v, off2)
  {
  }

  lemma {:induction false} ListFieldAnywhere(t: Type, v: Value, off1: nat, off2: nat)
    requires t.List? && off1 % 8 == off2 % 8
    ensures Encode(t, v, off1) == Encode(t, v, off2)
    decreases t, 0
  {
    ElementAnywhere(t.element);
    Congruent(off1, off2, t.prefix);
    ListAnywhere(Encoder(t.element), v, off1 + t.prefix, off2 + t.prefix);
  }

  lemma {:induction false} UnionAnywhere(t: Type, v: Value, off1: nat, off2: nat)
    requires t.Union? && off1 % 8 == off2 % 8
    ensures Encode(t, v, off1) == Encode(t, v, off2)
    decreases t, 0
  {
    if v.Tagged? && v.tag < |t.options| {
      Congruent(off1, off2, 8);
      EncodeAnywhere(t.options[v.tag], v.option, off1 + 8, off2 + 8);
    }
  }

  lemma {:induction false} NestedAnywhere(t: Type, v: Value, off1: nat, off2: nat)
    requires t.Nested? && off1 % 8 == off2 % 8
    ensures Encode(t, v, off1) == Encode(t, v, off2)
    decreases t, 0
  {
    AlignShift(off1, off2);
    EncodeAnywhere(t.body, v, Align(off1), Align(off2));
    PaddedAnywhere(Encode(t.body, v, Align(off1)), off1, off2);
  }

  lemma Congruent(a: nat, b: nat, k: nat)
    requires a % 8 == b % 8
    ensures (a + k) % 8 == (b + k) % 8
  {
  }

  lemma ThenSame(t: Type, v: Value, off1: nat, off2: nat, x: seq<bool>, y: seq<bool>)
    requires t.Then? && v.Pair? && x == Encode(t.first, v.first, off1) && x == Encode(t.first, v.first, off2)
    requires y == Encode(t.rest, v.rest, off1 + |x|) && y == Encode(t.rest, v.rest, off2 + |x|)
    ensures Encode(t, v, off1) == Encode(t, v, off2)
  {
    ThenEncoded(t, v, off1, x);
    ThenEncoded(t, v, off2, x);
  }

  lemma NoPairSame(t: Type, v: Value, off1: nat, off2: nat)
    requires t.Then? && !v.Pair?
    ensures Encode(t, v, off1) == Encode(t, v, off2)
  {
  }

  lemma {:induction false} ThenAnywhere(t: Type, v: Value, off1: nat, off2: nat)
    requires t.Then? && off1 % 8 == off2 % 8
    ensures Encode(t, v, off1) == Encode(t, v, off2)
    decreases t, 0
  {
    hide *;
    if v.Pair? {
      var x := Encode(t.first, v.first, off1);
      EncodeAnywhere(t.first, v.first, off1, off2);
      Congruent(off1, off2, |x|);
      EncodeAnywhere(t.rest, v.rest, off1 + |x|, off2 + |x|);
      ThenSame(t, v, off1, off2, x, Encode(t.rest, v.rest, off1 + |x|));
    } else {
      NoPairSame(t, v, off1, off2);
    }
  }

  lemma PaddedAnywhere(x: seq<bool>, off1: nat, off2: nat)
    requires off1 % 8 == off2 % 8
    ensures Padded(x, off1) == Padded(x, off2)
  {
    AlignShift(off1, off2);
    AlignShift(Align(off1) + |x|, Align(off2) + |x|);
  }

  ghost predicate Anywhere(f: (Value, nat) -> seq<bool>) {
    forall v: Value, o1: nat, o2: nat | o1 % 8 == o2 % 8 :: f(v, o1) == f(v, o2)
  }

  lemma {:induction false} ElementAnywhere(e: Type)
    ensures Anywhere(Encoder(e))
    decreases e, 2
  {
    forall v: Value, o1: nat, o2: nat | o1 % 8 == o2 % 8
      ensures Encoder(e)(v, o1) == Encoder(e)(v, o2)
    {
      EncodeAnywhere(e, v, o1, o2);
    }
  }

  lemma ListSame(f: (Value, nat) -> seq<bool>, v: Value, off1: nat, off2: nat, x: seq<bool>, y: seq<bool>)
    requires v.Pair? && x == f(v.first, off1) && x == f(v.first, off2)
    requires y == EncodeList(f, v.rest, off1 + |x|) && y == EncodeList(f, v.rest, off2 + |x|)
    ensures EncodeList(f, v, off1) == EncodeList(f, v, off2)
  {
    ListEncoded(f, v, off1, x);
    ListEncoded(f, v, off2, x);
  }

  lemma {:induction false} ListAnywhere(f: (Value, nat) -> seq<bool>, v: Value, off1: nat, off2: nat)
    requires Anywhere(f) && off1 % 8 == off2 % 8
    ensures EncodeList(f, v, off1) == EncodeList(f, v, off2)
    decreases v
  {
    if v.Pair? {
      var x := f(v.first, off1);
      assert x == f(v.first, off2);
      Congruent(off1, off2, |x|);
      ListAnywhere(f, v.rest, off1 + |x|, off2 + |x|);
      ListSame(f, v, off1, off2, x, EncodeList(f, v.rest, off1 + |x|));
    }
  }

  // ---------------------------------------------------------------- bounds

  /** The latest and the earliest end of a value that starts at `off`. */
  function MaxEnd(t: Type, off: nat): (end: nat)
    ensures end >= off
    decreases t, 0
  {
    match t
    case Empty => off
    case Field(w) => off + w
    case Void(w) => off + w
    case Blob(p, u, c) => off + p + c * u
    case List(p, e, c) => MaxEnds(e, c, off + p)
    case Then(a, b) => MaxEnd(b, MaxEnd(a, off))
    case Nested(b) => Align(MaxEnd(b, Align(off)))
    case Union(os) => MaxOption(os, |os|, off + 8)
  }

  function MaxEnds(e: Type, n: nat, off: nat): (end: nat)
    ensures end >= off
    decreases e, n + 1
  {
    if n == 0 then off else MaxEnds(e, n - 1, MaxEnd(e, off))
  }

  function MaxOption(os: seq<Type>, n: nat, off: nat): (end: nat)
    requires n <= |os|
    ensures end >= off
    decreases os, n
  {
    if n == 0 then off
    else
      var a, b := MaxOption(os, n - 1, off), MaxEnd(os[n - 1], off);
      if a > b then a else b
  }

  function MinEnd(t: Type, off: nat): (end: nat)
    ensures end >= off
    decreases t, 0
  {
    match t
    case Empty => off
    case Field(w) => off + w
    case Void(w) => off + w
    case Blob(p, _, _) => off + p
    case List(p, _, _) => off + p
    case Then(a, b) => MinEnd(b, MinEnd(a, off))
    case Nested(b) => Align(MinEnd(b, Align(off)))
    case Union(os) => if |os| == 0 then off + 8 else MinOption(os, |os|, off + 8)
  }

  function MinOption(os: seq<Type>, n: nat, off: nat): (end: nat)
    requires 0 < n <= |os|
    ensures end >= off
    decreases os, n
  {
    var b := MinEnd(os[n - 1], off);
    if n == 1 then b
    else
      var a := MinOption(os, n - 1, off);
      if a < b then a else b
  }

  /** Unfolds the extent of a structure by one field. */
  lemma ThenExtent(t: Type, off1: nat, min1: nat, min: nat, off2: nat, max1: nat, max: nat)
    requires t.Then? && MinEnd(t.first, off1) == min1 && MinEnd(t.rest, min1) == min
    requires MaxEnd(t.first, off2) == max1 && MaxEnd(t.rest, max1) == max
    ensures MinEnd(t, off1) == min && MaxEnd(t, off2) == max
  {
  }

  lemma NestedExtent(t: Type, min: nat, max: nat)
    requires MinEnd(t, 0) == min && MaxEnd(t, 0) == max && min % 8 == 0 && max % 8 == 0
    ensures MinEnd(Nested(t), 0) == min && MaxEnd(Nested(t), 0) == max
  {
  }

  lemma AlignMonotone(a: nat, b: nat)
    requires a <= b
    ensures Align(a) <= Align(b)
  {
  }

  /** Extents move with the position in steps of a byte. */
  lemma {:induction false} ExtentShift(t: Type, a: nat, d: nat)
    requires d % 8 == 0
    ensures MinEnd(t, a + d) == MinEnd(t, a) + d && MaxEnd(t, a + d) == MaxEnd(t, a) + d
    decreases t, 1
  {
    hide Align;
    match t
    case Empty | Field(_) | Void(_) | Blob(_, _, _) =>
    case List(p, e, c) => EndsShift(e, c, a + p, d);
    case Then(_, _) => ThenShift(t, a, d);
    case Nested(_) => NestedShift(t, a, d);
    case Union(os) => OptionsShift(os, |os|, a + 8, d);
  }

  lemma {:induction false} ThenShift(t: Type, a: nat, d: nat)
    requires t.Then? && d % 8 == 0
    ensures MinEnd(t, a + d) == MinEnd(t, a) + d && MaxEnd(t, a + d) == MaxEnd(t, a) + d
    decreases t, 0
  {
    hide *;
    var low, high := MinEnd(t.first, a), MaxEnd(t.first, a);
    ExtentShift(t.first, a, d);
    ExtentShift(t.rest, low, d);
    ExtentShift(t.rest, high, d);
    var min, max := MinEnd(t.rest, low), MaxEnd(t.rest, high);
    ThenExtent(t, a, low, min, a, high, max);
    ThenExtent(t, a + d, low + d, min + d, a + d, high + d, max + d);
  }

  lemma EmptyExtent(off: nat)
    ensures MinEnd(Empty, off) == off == MaxEnd(Empty, off)
  {
  }

  lemma NestedEnds(t: Type, off: nat, at: nat)
    requires t.Nested? && at == Align(off)
    ensures MinEnd(t, off) == Align(MinEnd(t.body, at)) && MaxEnd(t, off) == Align(MaxEnd(t.body, at))
  {
  }

  lemma {:induction false} NestedShift(t: Type, a: nat, d: nat)
    requires t.Nested? && d % 8 == 0
    ensures MinEnd(t, a + d) == MinEnd(t, a) + d && MaxEnd(t, a + d) == MaxEnd(t, a) + d
    decreases t, 0
  {
    hide *;
    var at := Align(a);
    AlignStep(a, d);
    ExtentShift(t.body, at, d);
    NestedEnds(t, a, at);
    NestedEnds(t, a + d, at + d);
    AlignStep(MinEnd(t.body, at), d);
    AlignStep(MaxEnd(t.body, at), d);
  }

  lemma AlignStep(a: nat, d: nat)
    requires d % 8 == 0
    ensures Align(a + d) == Align(a) + d
  {
  }

  lemma {:induction false} EndsShift(e: Type, n: nat, a: nat, d: nat)
    requires d % 8 == 0
    ensures MaxEnds(e, n, a + d) == MaxEnds(e, n, a) + d
    decreases e, n + 2
  {
    hide MaxEnd, Align;
    if n > 0 {
      var b := MaxEnd(e, a);
      ExtentShift(e, a, d);
      EndsShift(e, n - 1, b, d);
      assert MaxEnds(e, n, a + d) == MaxEnds(e, n - 1, b + d);
    }
  }

  lemma {:induction false} OptionsShift(os: seq<Type>, n: nat, a: nat, d: nat)
    requires n <= |os| && d % 8 == 0
    ensures MaxOption(os, n, a + d) == if n == 0 then a + d else MaxOption(os, n, a) + d
    ensures n > 0 ==> MinOption(os, n, a + d) == MinOption(os, n, a) + d
    decreases os, n
  {
    hide MinEnd, MaxEnd;
    if n > 0 {
      ExtentShift(os[n - 1], a, d);
      OptionsShift(os, n - 1, a, d);
    }
  }

  lemma ExtentAnywhere(t: Type, off: nat)
    requires off % 8 == 0
    ensures MinEnd(t, off) == MinEnd(t, 0) + off && MaxEnd(t, off) == MaxEnd(t, 0) + off
  {
    ExtentShift(t, 0, off);
  }

  lemma {:induction false} MaxMonotone(t: Type, a: nat, b: nat)
    requires a <= b
    ensures MaxEnd(t, a) <= MaxEnd(t, b)
    decreases t, 0
  {
    match t
    case Empty | Field(_) | Void(_) | Blob(_, _, _) =>
    case List(p, e, c) => MaxEndsMonotone(e, c, a + p, b + p);
    case Then(x, y) =>
      MaxMonotone(x, a, b);
      MaxMonotone(y, MaxEnd(x, a), MaxEnd(x, b));
    case Nested(x) =>
      AlignMonotone(a, b);
      MaxMonotone(x, Align(a), Align(b));
      AlignMonotone(MaxEnd(x, Align(a)), MaxEnd(x, Align(b)));
    case Union(os) => MaxOptionMonotone(os, |os|, a + 8, b + 8);
  }

  lemma {:induction false} MaxEndsMonotone(e: Type, n: nat, a: nat, b: nat)
    requires a <= b
    ensures MaxEnds(e, n, a) <= MaxEnds(e, n, b)
    decreases e, n + 1
  {
    hide MaxEnd;
    if n > 0 {
      MaxMonotone(e, a, b);
      MaxEndsMonotone(e, n - 1, MaxEnd(e, a), MaxEnd(e, b));
    }
  }

  lemma {:induction false} MaxOptionMonotone(os: seq<Type>, n: nat, a: nat, b: nat)
    requires n <= |os| && a <= b
    ensures MaxOption(os, n, a) <= MaxOption(os, n, b)
    decreases os, n
  {
    if n > 0 {
      MaxOptionMonotone(os, n - 1, a, b);
      MaxMonotone(os[n - 1], a, b);
    }
  }

  lemma {:induction false} MinMonotone(t: Type, a: nat, b: nat)
    requires a <= b
    ensures MinEnd(t, a) <= MinEnd(t, b)
    decreases t, 0
  {
    match t
    case Empty | Field(_) | Void(_) | Blob(_, _, _) | List(_, _, _) =>
    case Then(x, y) =>
      MinMonotone(x, a, b);
      MinMonotone(y, MinEnd(x, a), MinEnd(x, b));
    case Nested(x) =>
      AlignMonotone(a, b);
      MinMonotone(x, Align(a), Align(b));
      AlignMonotone(MinEnd(x, Align(a)), MinEnd(x, Align(b)));
    case Union(os) => if |os| > 0 { MinOptionMonotone(os, |os|, a + 8, b + 8); }
  }

  lemma {:induction false} MinOptionMonotone(os: seq<Type>, n: nat, a: nat, b: nat)
    requires 0 < n <= |os| && a <= b
    ensures MinOption(os, n, a) <= MinOption(os, n, b)
    decreases os, n
  {
    MinMonotone(os[n - 1], a, b);
    if n > 1 {
      MinOptionMonotone(os, n - 1, a, b);
    }
  }

  lemma {:induction false} OptionWithin(os: seq<Type>, n: nat, i: nat, off: nat)
    requires i < n <= |os|
    ensures MinOption(os, n, off) <= MinEnd(os[i], off) && MaxEnd(os[i], off) <= MaxOption(os, n, off)
    decreases n
  {
    if i < n - 1 {
      OptionWithin(os, n - 1, i, off);
    }
  }

  lemma Scale(n: nat, c: nat, u: nat)
    requires n <= c
    ensures n * u <= c * u
  {
  }

  /** Every value of a type ends between the two bounds. */
  lemma {:induction false} EncodeBounded(t: Type, v: Value, off: nat)
    requires Fits(t, v)
    ensures MinEnd(t, off) <= off + |Encode(t, v, off)| <= MaxEnd(t, off)
    decreases t, 1
  {
    hide *;
    match t
    case Empty | Field(_) | Void(_) => LeafBounded(t, v, off);
    case Blob(_, _, _) => BlobBounded(t, v, off);
    case List(_, _, _) => ListFieldBounded(t, v, off);
    case Then(_, _) => ThenBounded(t, v, off);
    case Nested(_) => NestedBounded(t, v, off);
    case Union(_) => UnionBounded(t, v, off);
  }

  lemma LeafBounded(t: Type, v: Value, off: nat)
    requires (t.Empty? || t.Field? || t.Void?) && Fits(t, v)
    ensures MinEnd(t, off) <= off + |Encode(t, v, off)| <= MaxEnd(t, off)
  {
  }

  lemma {:induction false} ListFieldBounded(t: Type, v: Value, off: nat)
    requires t.List? && Fits(t, v)
    ensures MinEnd(t, off) <= off + |Encode(t, v, off)| <= MaxEnd(t, off)
    decreases t, 0
  {
    ElementBounded(t.element);
    ListBounded(Encoder(t.element), t.element, v, t.capacity, off + t.prefix);
  }

  lemma {:induction false} UnionBounded(t: Type, v: Value, off: nat)
    requires t.Union? && Fits(t, v)
    ensures MinEnd(t, off) <= off + |Encode(t, v, off)| <= MaxEnd(t, off)
    decreases t, 0
  {
    OptionWithin(t.options, |t.options|, v.tag, off + 8);
    EncodeBounded(t.options[v.tag], v.option, off + 8);
  }

  lemma BlobBounded(t: Type, v: Value, off: nat)
    requires t.Blob? && Fits(t, v)
    ensures MinEnd(t, off) <= off + |Encode(t, v, off)| <= MaxEnd(t, off)
  {
    WholeUnits(|v.bits|, t.unit);
    Scale(|v.bits| / t.unit, t.capacity, t.unit);
  }

  lemma {:induction false} NestedBounded(t: Type, v: Value, off: nat)
    requires t.Nested? && Fits(t, v)
    ensures MinEnd(t, off) <= off + |Encode(t, v, off)| <= MaxEnd(t, off)
    decreases t, 0
  {
    var at := Align(off);
    var end := at + |Encode(t.body, v, at)|;
    NestedEnds(t, off, at);
    EncodeBounded(t.body, v, at);
    AlignMonotone(MinEnd(t.body, at), end);
    AlignMonotone(end, MaxEnd(t.body, at));
  }

  lemma {:induction false} ThenBounded(t: Type, v: Value, off: nat)
    requires t.Then? && Fits(t, v)
    ensures MinEnd(t, off) <= off + |Encode(t, v, off)| <= MaxEnd(t, off)
    decreases t, 0
  {
    hide Encode, MinEnd, MaxEnd;
    var x := Encode(t.first, v.first, off);
    var mid := off + |x|;
    EncodeBounded(t.first, v.first, off);
    EncodeBounded(t.rest, v.rest, mid);
    ThenLength(t, v, off, x, Encode(t.rest, v.rest, mid));
    ThenWithin(t, off, mid, mid + |Encode(t.rest, v.rest, mid)|);
  }

  lemma ThenWithin(t: Type, off: nat, mid: nat, end: nat)
    requires t.Then? && MinEnd(t.first, off) <= mid <= MaxEnd(t.first, off)
    requires MinEnd(t.rest, mid) <= end <= MaxEnd(t.rest, mid)
    ensures MinEnd(t, off) <= end <= MaxEnd(t, off)
  {
    MaxMonotone(t.rest, mid, MaxEnd(t.first, off));
    MinMonotone(t.rest, MinEnd(t.first, off), mid);
  }

  lemma ThenLength(t: Type, v: Value, off: nat, x: seq<bool>, y: seq<bool>)
    requires t.Then? && v.Pair? && x == Encode(t.first, v.first, off) && y == Encode(t.rest, v.rest, off + |x|)
    ensures |Encode(t, v, off)| == |x| + |y|
  {
    ThenEncoded(t, v, off, x);
  }

  /** Elements produced by `f` end by `MaxEnd(e, off)`. */
  ghost predicate ElementsBounded(f: (Value, nat) -> seq<bool>, e: Type) {
    forall v: Value, off: nat | Fits(e, v) :: off + |f(v, off)| <= MaxEnd(e, off)
  }

  lemma {:induction false} ElementBounded(e: Type)
    ensures ElementsBounded(Encoder(e), e)
    decreases e, 2
  {
    forall v: Value, off: nat | Fits(e, v)
      ensures off + |Encoder(e)(v, off)| <= MaxEnd(e, off)
    {
      EncodeBounded(e, v, off);
    }
  }

  /** The first element of a list and the rest, for the value, its encoding and its extent. */
  lemma ListUnfolded(f: (Value, nat) -> seq<bool>, e: Type, v: Value, n: nat, off: nat)
    requires FitsList(e, v) && Length(v) <= n
    ensures v.Pair? ==>
      && Fits(e, v.first) && FitsList(e, v.rest) && n > 0 && Length(v.rest) <= n - 1
      && |EncodeList(f, v, off)| == |f(v.first, off)| + |EncodeList(f, v.rest, off + |f(v.first, off)|)|
      && MaxEnds(e, n, off) == MaxEnds(e, n - 1, MaxEnd(e, off))
    ensures !v.Pair? ==> EncodeList(f, v, off) == []
  {
    if v.Pair? {
      ListEncoded(f, v, off, f(v.first, off));
    }
  }

  lemma {:induction false} ListBounded(f: (Value, nat) -> seq<bool>, e: Type, v: Value, n: nat, off: nat)
    requires ElementsBounded(f, e) && FitsList(e, v) && Length(v) <= n
    ensures off + |EncodeList(f, v, off)| <= MaxEnds(e, n, off)
    decreases v
  {
    hide MaxEnd, MaxEnds, Fits, FitsList, EncodeList, Length;
    ListUnfolded(f, e, v, n, off);
    if v.Pair? {
      var x := f(v.first, off);
      assert off + |x| <= MaxEnd(e, off);
      ListBounded(f, e, v.rest, n - 1, off + |x|);
      MaxEndsMonotone(e, n - 1, off + |x|, MaxEnd(e, off));
    }
  }
}
