/** What decoding depends on, for every type of the reference codec: the zero-extended bits ahead and not where they stand,
    and none of the bits behind the end. */
module Laws {
  import opened Bits
  import opened Serialization
  import opened Dsdl

  // ---------------------------------------------------------------- zero extension and position

  /** From `off1` on, `b1` holds the same zero-extended bits as `b2` from `off2` on. */
  ghost predicate SameFrom(b1: seq<bool>, off1: nat, b2: seq<bool>, off2: nat) {
    forall n: nat :: Alike(b1, off1, b2, off2, n)
  }

  ghost predicate Alike(b1: seq<bool>, off1: nat, b2: seq<bool>, off2: nat, n: nat) {
    Read(b1, off1, n) == Read(b2, off2, n)
  }

  lemma SameFromLater(b1: seq<bool>, off1: nat, b2: seq<bool>, off2: nat, k: nat)
    requires SameFrom(b1, off1, b2, off2)
    ensures SameFrom(b1, off1 + k, b2, off2 + k)
  {
    var o1, o2 := off1 + k, off2 + k;
    forall n: nat
      ensures Alike(b1, o1, b2, o2, n)
    {
      assert Alike(b1, off1, b2, off2, k + n);
      assert Read(b1, o1, n) == Read(b1, off1, k + n)[k..];
      assert Read(b2, o2, n) == Read(b2, off2, k + n)[k..];
    }
  }

  /** The same outcome, `d` bits further on. */
  predicate Shifted(r1: Result, r2: Result, d: int) {
    match r1
    case Fail(s) => r2 == Fail(s)
    case Done(v, n) => r2.Done? && r2.value == v && r2.next == n + d
  }

  /** Decoding never steps back. */
  lemma {:induction false} Advances(t: Type, b: seq<bool>, off: nat)
    ensures Decode(t, b, off).Done? ==> Decode(t, b, off).next >= off
    decreases t, 0
  {
    match t
    case Empty | Field(_) | Void(_) =>
    case Blob(p, _, _) => BlobDecoded(t, b, off, Unsigned(b, off, p));
    case List(p, e, _) =>
      forall o: nat
        ensures Decoder(e)(b, o).Done? ==> Decoder(e)(b, o).next >= o
      {
        Advances(e, b, o);
      }
      AdvancesList(Decoder(e), Unsigned(b, off, p), b, off + p);
    case Then(first, rest) =>
      Advances(first, b, off);
      var r := Decode(first, b, off);
      if r.Done? {
        Advances(rest, b, r.next);
      }
    case Nested(body) => Advances(body, b, Align(off));
    case Union(os) =>
      var tag := Unsigned(b, off, 8);
      if tag < |os| {
        Advances(os[tag], b, off + 8);
      }
  }

  lemma {:induction false} AdvancesList(f: (seq<bool>, nat) -> Result, n: nat, b: seq<bool>, off: nat)
    requires forall o: nat :: f(b, o).Done? ==> f(b, o).next >= o
    ensures DecodeList(f, n, b, off).Done? ==> DecodeList(f, n, b, off).next >= off
  {
    if n > 0 {
      var r := f(b, off);
      if r.Done? {
        AdvancesList(f, n - 1, b, r.next);
      }
    }
  }

  lemma AlignShift(off1: nat, off2: nat)
    requires off1 % 8 == off2 % 8
    ensures Align(off2) - Align(off1) == off2 - off1
  {
  }

  lemma BoundaryShifted(r1: Result, r2: Result, off1: nat, off2: nat)
    requires Shifted(r1, r2, off2 - off1) && off1 % 8 == off2 % 8
    ensures Shifted(r1.ToBoundary(), r2.ToBoundary(), off2 - off1)
  {
    if r1.Done? {
      AlignShift(r1.next, r2.next);
    }
  }

  /** A decoder sees nothing but the zero-extended bits ahead of it: the outcome does not depend on where they stand. */
  lemma {:induction false} PositionIndependent(t: Type, b1: seq<bool>, off1: nat, b2: seq<bool>, off2: nat)
    requires SameFrom(b1, off1, b2, off2) && off1 % 8 == off2 % 8
    ensures Shifted(Decode(t, b1, off1), Decode(t, b2, off2), off2 - off1)
    decreases t, 1
  {
    match t
    case Empty =>
    case Field(w) => assert Alike(b1, off1, b2, off2, w);
    case Void(w) =>
    case Blob(_, _, _) => BlobIndependent(t, b1, off1, b2, off2);
    case List(_, _, _) => ListFieldIndependent(t, b1, off1, b2, off2);
    case Then(_, _) => ThenIndependent(t, b1, off1, b2, off2);
    case Nested(_) => NestedIndependent(t, b1, off1, b2, off2);
    case Union(_) => UnionIndependent(t, b1, off1, b2, off2);
  }

  lemma {:induction false} NestedIndependent(t: Type, b1: seq<bool>, off1: nat, b2: seq<bool>, off2: nat)
    requires t.Nested? && SameFrom(b1, off1, b2, off2) && off1 % 8 == off2 % 8
    ensures Shifted(Decode(t, b1, off1), Decode(t, b2, off2), off2 - off1)
    decreases t, 0
  {
    AlignShift(off1, off2);
    SameFromLater(b1, off1, b2, off2, Align(off1) - off1);
    PositionIndependent(t.body, b1, Align(off1), b2, Align(off2));
    BoundaryShifted(Decode(t.body, b1, Align(off1)), Decode(t.body, b2, Align(off2)), off1, off2);
  }

  lemma {:induction false} UnionIndependent(t: Type, b1: seq<bool>, off1: nat, b2: seq<bool>, off2: nat)
    requires t.Union? && SameFrom(b1, off1, b2, off2) && off1 % 8 == off2 % 8
    ensures Shifted(Decode(t, b1, off1), Decode(t, b2, off2), off2 - off1)
    decreases t, 0
  {
    var tag := Unsigned(b1, off1, 8);
    assert Alike(b1, off1, b2, off2, 8);
    SameFromLater(b1, off1, b2, off2, 8);
    if tag < |t.options| {
      PositionIndependent(t.options[tag], b1, off1 + 8, b2, off2 + 8);
    }
  }

  lemma {:induction false} ListFieldIndependent(t: Type, b1: seq<bool>, off1: nat, b2: seq<bool>, off2: nat)
    requires t.List? && SameFrom(b1, off1, b2, off2) && off1 % 8 == off2 % 8
    ensures Shifted(Decode(t, b1, off1), Decode(t, b2, off2), off2 - off1)
    decreases t, 0
  {
    var n := Unsigned(b1, off1, t.prefix);
    assert Alike(b1, off1, b2, off2, t.prefix);
    SameFromLater(b1, off1, b2, off2, t.prefix);
    if n <= t.capacity {
      ElementIndependent(t.element, b1, b2);
      ListIndependent(Decoder(t.element), n, b1, off1 + t.prefix, b2, off2 + t.prefix);
    }
  }

  lemma BlobIndependent(t: Type, b1: seq<bool>, off1: nat, b2: seq<bool>, off2: nat)
    requires t.Blob? && SameFrom(b1, off1, b2, off2)
    ensures Shifted(Decode(t, b1, off1), Decode(t, b2, off2), off2 - off1)
  {
    assert Alike(b1, off1, b2, off2, t.prefix);
    var n := Unsigned(b1, off1, t.prefix);
    SameFromLater(b1, off1, b2, off2, t.prefix);
    assert Alike(b1, off1 + t.prefix, b2, off2 + t.prefix, n * t.unit);
    BlobDecoded(t, b1, off1, n);
    BlobDecoded(t, b2, off2, n);
  }

  lemma ThenShifted(t: Type, b1: seq<bool>, off1: nat, b2: seq<bool>, off2: nat, r1: Result, r2: Result, d: int)
    requires t.Then? && r1 == Decode(t.first, b1, off1) && r2 == Decode(t.first, b2, off2) && Shifted(r1, r2, d)
    requires r1.Done? ==> Shifted(Decode(t.rest, b1, r1.next), Decode(t.rest, b2, r2.next), d)
    ensures Shifted(Decode(t, b1, off1), Decode(t, b2, off2), d)
  {
    ThenDecoded(t, b1, off1, r1);
    ThenDecoded(t, b2, off2, r2);
  }

  lemma {:induction false} ThenIndependent(t: Type, b1: seq<bool>, off1: nat, b2: seq<bool>, off2: nat)
    requires t.Then? && SameFrom(b1, off1, b2, off2) && off1 % 8 == off2 % 8
    ensures Shifted(Decode(t, b1, off1), Decode(t, b2, off2), off2 - off1)
    decreases t, 0
  {
    hide *;
    var r1, r2 := Decode(t.first, b1, off1), Decode(t.first, b2, off2);
    PositionIndependent(t.first, b1, off1, b2, off2);
    if r1.Done? {
      Advances(t.first, b1, off1);
      SameFromLater(b1, off1, b2, off2, r1.next - off1);
      PositionIndependent(t.rest, b1, r1.next, b2, r2.next);
    }
    ThenShifted(t, b1, off1, b2, off2, r1, r2, off2 - off1);
  }

  /** The same for an element decoder, as a hypothesis about lists of elements. */
  ghost predicate Independent(f: (seq<bool>, nat) -> Result, b1: seq<bool>, b2: seq<bool>) {
    forall o1: nat, o2: nat {:trigger SameFrom(b1, o1, b2, o2)} | SameFrom(b1, o1, b2, o2) && o1 % 8 == o2 % 8 ::
      Shifted(f(b1, o1), f(b2, o2), o2 - o1) && (f(b1, o1).Done? ==> f(b1, o1).next >= o1)
  }

  lemma {:induction false} ElementIndependent(e: Type, b1: seq<bool>, b2: seq<bool>)
    ensures Independent(Decoder(e), b1, b2)
    decreases e, 2
  {
    forall o1: nat, o2: nat | SameFrom(b1, o1, b2, o2) && o1 % 8 == o2 % 8
      ensures Shifted(Decoder(e)(b1, o1), Decoder(e)(b2, o2), o2 - o1)
      ensures Decoder(e)(b1, o1).Done? ==> Decoder(e)(b1, o1).next >= o1
    {
      PositionIndependent(e, b1, o1, b2, o2);
      Advances(e, b1, o1);
    }
  }

  lemma {:induction false} ListIndependent(f: (seq<bool>, nat) -> Result, n: nat,
    b1: seq<bool>, off1: nat, b2: seq<bool>, off2: nat)
    requires Independent(f, b1, b2) && SameFrom(b1, off1, b2, off2) && off1 % 8 == off2 % 8
    ensures Shifted(DecodeList(f, n, b1, off1), DecodeList(f, n, b2, off2), off2 - off1)
  {
    hide SameFrom;
    if n > 0 {
      var r1, r2 := f(b1, off1), f(b2, off2);
      assert Shifted(r1, r2, off2 - off1);
      if r1.Done? {
        assert Shifted(DecodeList(f, n - 1, b1, r1.next), DecodeList(f, n - 1, b2, r2.next), off2 - off1) by {
          SameFromLater(b1, off1, b2, off2, r1.next - off1);
          ListIndependent(f, n - 1, b1, r1.next, b2, r2.next);
        }
      }
    }
  }

  /** What a deserializer reports for a message: the outcome, and how many bytes of the input it used. */
  function Consumed(r: Result, bytes: nat): nat {
    if r.Done? then ChooseMin(Align(r.next), 8 * bytes) / 8 else 0
  }

  /** Implicit zero extension: appending zero bytes changes neither the value nor the error, and what is consumed of the
      shorter input is what is consumed of the longer one, cut at its end. */
  lemma ZeroExtension(t: Type, bytes: seq<bv8>, zeros: seq<bv8>)
    requires forall i | 0 <= i < |zeros| :: zeros[i] == 0
    ensures Decode(t, BitsOf(bytes), 0) == Decode(t, BitsOf(bytes + zeros), 0)
    ensures Decode(t, BitsOf(bytes), 0).Done? ==>
      Consumed(Decode(t, BitsOf(bytes), 0), |bytes|)
        == ChooseMin(Consumed(Decode(t, BitsOf(bytes + zeros), 0), |bytes + zeros|), |bytes|)
  {
    BitsOfConcat(bytes, zeros);
    ZeroImage(zeros);
    var b := BitsOf(bytes);
    forall n: nat
      ensures Alike(b, 0, b + Zeros(8 * |zeros|), 0, n)
    {
    }
    PositionIndependent(t, b, 0, b + Zeros(8 * |zeros|), 0);
  }

  /** Implicit truncation: bytes after the part that was consumed do not matter. */
  lemma Truncation(t: Type, v: Value, bytes: seq<bv8>, rest: seq<bv8>)
    requires WellFormed(t) && Fits(Nested(t), v) && BitsOf(bytes) == Encode(Nested(t), v, 0)
    ensures Decode(Nested(t), BitsOf(bytes + rest), 0) == Done(v, 8 * |bytes|)
  {
    BitsOfConcat(bytes, rest);
    RoundTrip(Nested(t), v, BitsOf(bytes + rest), 0);
  }
}
