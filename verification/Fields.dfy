/** What the setters and getters of nunavut/support/serialization.h promise together: a field reads back as the number
    that was written, the narrow getters agree with the wide ones, and writes to disjoint ranges do not interfere. */
module Fields {
  import opened Bits
  import opened Serialization

  // ---------------------------------------------------------------- one field

  lemma ReadSpliced(b: seq<bool>, off: nat, x: seq<bool>)
    requires off + |x| <= |b|
    ensures Read(Splice(b, off, x), off, |x|) == x
  {
  }

  /** An accepted write of an unsigned field reads back modulo two to its width, wherever the field lies. */
  lemma UnsignedRoundTrip(b: seq<bool>, limitBits: nat, w: Write)
    requires limitBits <= |b| && w.Fits(limitBits)
    ensures Unsigned(Apply(b, limitBits, w), w.offBits, ChooseMin(w.lenBits, 64)) == w.value % Pow2(ChooseMin(w.lenBits, 64))
  {
    ReadSpliced(b, w.offBits, ToBits(w.value, w.Width()));
    FromToBits(w.value, w.Width());
  }

  /** The `w`-bit two's complement number congruent to `v`: the narrowing conversions of C. */
  function Wrap(v: int, w: nat): int
    requires w > 0
  {
    var m := v % Pow2(w);
    if m >= Pow2(w - 1) then m - Pow2(w) else m
  }

  predicate InSignedRange(v: int, n: nat)
    requires n > 0
  {
    var half: int := Pow2(n - 1);
    -half <= v < half
  }

  lemma SignedIsWrap(x: seq<bool>)
    requires |x| > 0
    ensures Signed(x) == Wrap(FromBits(x), |x|)
    ensures InSignedRange(Signed(x), |x|)
  {
    var n := |x| - 1;
    FromBitsBound(x);
    SmallModulo(FromBits(x), Pow2(|x|));
    TopBit(x, n);
  }

  lemma TopBit(x: seq<bool>, n: nat)
    requires |x| == n + 1
    ensures x[n] <==> FromBits(x) >= Pow2(n)
  {
    assert x == x[..n] + [x[n]];
    FromBitsConcat(x[..n], [x[n]]);
    FromBitsBound(x[..n]);
    assert [x[n]][1..] == [];
    assert FromBits([x[n]]) == if x[n] then 1 else 0;
  }

  lemma SmallModulo(n: nat, d: nat)
    requires n < d
    ensures n % d == n
  {
    DivModUnique(n, d, 0, n);
  }

  lemma ModuloShift(a: int, k: int, d: int)
    requires d > 0
    ensures (a + d * k) % d == a % d
  {
    assert d * (a / d + k) == d * (a / d) + d * k;
    DivModUnique(a + d * k, d, a / d + k, a % d);
  }

  lemma Associate(a: int, b: int, c: int)
    ensures (a * b) * c == a * (b * c)
  {
  }

  lemma WrapShift(v: int, n: nat, k: int, w: nat)
    requires 0 < w <= n
    ensures Wrap(v + Pow2(n) * k, w) == Wrap(v, w)
  {
    assert (v + Pow2(n) * k) % Pow2(w) == v % Pow2(w) by {
      Pow2Add(w, n - w);
      Associate(Pow2(w), Pow2(n - w), k);
      ModuloShift(v, Pow2(n - w) * k, Pow2(w));
    }
  }

  lemma WrapInRange(v: int, n: nat, w: nat)
    requires 0 < n <= w && InSignedRange(v, n)
    ensures Wrap(v, w) == v
  {
    Pow2Monotone(n - 1, w - 1);
    DivModUnique(v, Pow2(w), if v < 0 then -1 else 0, if v < 0 then v + Pow2(w) else v);
  }

  lemma WrapModulo(n: int, w: nat)
    requires w > 0
    ensures Wrap(n % Pow2(w), w) == Wrap(n, w)
  {
    assert 0 <= n % Pow2(w) < Pow2(w);
    SmallModulo(n % Pow2(w), Pow2(w));
  }

  /** A signed field of any width from one bit up reads back exactly, for every number of that width. */
  lemma SignedRoundTrip(b: seq<bool>, limitBits: nat, off: nat, len: nat, v: i64)
    requires 0 < len <= 64 && InSignedRange(v, len)
    requires limitBits <= |b| && off + len <= limitBits
    ensures Signed(Read(Apply(b, limitBits, Write(off, len, ToUnsigned64(v))), off, len)) == v
  {
    var w := Write(off, len, ToUnsigned64(v));
    assert Apply(b, limitBits, w) == Splice(b, off, ToBits(ToUnsigned64(v), len));
    ReadSpliced(b, off, ToBits(ToUnsigned64(v), len));
    SignedImage(v, len);
  }

  lemma SignedImage(v: i64, len: nat)
    requires 0 < len <= 64 && InSignedRange(v, len)
    ensures Signed(ToBits(ToUnsigned64(v), len)) == v
  {
    var n := ToUnsigned64(v);
    SignedIsWrap(ToBits(n, len));
    FromToBits(n, len);
    WrapModulo(n, len);
    NativePowers();
    WrapShift(v, 64, if v < 0 then 1 else 0, len);
    WrapInRange(v, len, len);
  }

  /** The narrower unsigned getters return the 64-bit one converted to their own type. */
  lemma NarrowUnsigned(b: seq<bool>, off: nat, len: nat, w: nat)
    requires NativeWidth(w)
    ensures Unsigned(b, off, ChooseMin(len, w)) == Unsigned(b, off, ChooseMin(len, 64)) % Pow2(w)
  {
    hide Pow2, FromBits, Read;
    var x := Read(b, off, ChooseMin(len, 64));
    if len <= w {
      FromBitsBound(x);
      Pow2Monotone(len, w);
      SmallModulo(FromBits(x), Pow2(w));
    } else {
      assert x[..w] == Read(b, off, w);
      FromBitsPrefix(x, w);
    }
  }

  lemma SignedPrefix(x: seq<bool>, w: nat)
    requires 0 < w <= |x|
    ensures Signed(x[..w]) == Wrap(Signed(x), w)
  {
    SignedIsWrap(x[..w]);
    FromBitsPrefix(x, w);
    WrapModulo(FromBits(x), w);
    WrapShift(FromBits(x), |x|, if x[|x| - 1] then -1 else 0, w);
  }

  /** The narrower signed getters return the 64-bit one converted to their own type. */
  lemma NarrowSigned(b: seq<bool>, off: nat, len: nat, w: nat)
    requires NativeWidth(w)
    ensures Signed(Read(b, off, ChooseMin(len, w))) == Wrap(Signed(Read(b, off, ChooseMin(len, 64))), w)
  {
    var x := Read(b, off, ChooseMin(len, 64));
    FromBitsBound(x);
    if len == 0 {
      SmallModulo(0, Pow2(w));
    } else if len <= w {
      SignedIsWrap(x);
      WrapInRange(Signed(x), len, w);
    } else {
      assert x[..w] == Read(b, off, w);
      SignedPrefix(x, w);
    }
  }

  // ---------------------------------------------------------------- many fields

  function ApplyAll(b: seq<bool>, limitBits: nat, ws: seq<Write>): (r: seq<bool>)
    requires limitBits <= |b|
    ensures |r| == |b|
    decreases |ws|
  {
    if |ws| == 0 then b else Apply(ApplyAll(b, limitBits, ws[..|ws| - 1]), limitBits, ws[|ws| - 1])
  }

  /** Distinct writes touch distinct bits. */
  ghost predicate Disjoint(ws: seq<Write>) {
    forall v, w | v in ws && w in ws && v != w ::
      v.offBits + v.Width() <= w.offBits || w.offBits + w.Width() <= v.offBits
  }

  /** Bit `i` of the final buffer is the one that some accepted write puts there, and the old one if none does. */
  ghost predicate SettledAt(final: seq<bool>, b: seq<bool>, limitBits: nat, ws: seq<Write>, i: nat)
    requires |final| == |b| && i < |b|
  {
    && (forall w | w in ws && w.Fits(limitBits) && w.Covers(i) :: final[i] == ToBits(w.value, w.Width())[i - w.offBits])
    && ((forall w | w in ws && w.Fits(limitBits) :: !w.Covers(i)) ==> final[i] == b[i])
  }

  lemma {:induction false} Settled(b: seq<bool>, limitBits: nat, ws: seq<Write>, i: nat)
    requires limitBits <= |b| && Disjoint(ws) && i < |b|
    ensures SettledAt(ApplyAll(b, limitBits, ws), b, limitBits, ws, i)
    decreases |ws|
  {
    if |ws| > 0 {
      var rest, last := ws[..|ws| - 1], ws[|ws| - 1];
      assert forall w :: w in ws <==> w in rest || w == last;
      Settled(b, limitBits, rest, i);
      var before, final := ApplyAll(b, limitBits, rest), ApplyAll(b, limitBits, ws);
      if !(last.Fits(limitBits) && last.Covers(i)) {
        assert final[i] == before[i];
        assert forall w | w in ws && w.Fits(limitBits) && w.Covers(i) :: w in rest;
      } else {
        assert forall w | w in ws && w.Covers(i) :: w == last;
      }
    }
  }

  /** Every accepted field keeps its own value, whatever else is written around it. */
  lemma WritesReadBack(b: seq<bool>, limitBits: nat, ws: seq<Write>, w: Write)
    requires limitBits <= |b| && Disjoint(ws) && w in ws && w.Fits(limitBits)
    ensures Read(ApplyAll(b, limitBits, ws), w.offBits, w.Width()) == ToBits(w.value, w.Width())
  {
    forall i | w.offBits <= i < w.offBits + w.Width()
      ensures ApplyAll(b, limitBits, ws)[i] == ToBits(w.value, w.Width())[i - w.offBits]
    {
      Settled(b, limitBits, ws, i);
    }
  }

  /** The final buffer depends on which disjoint writes were made, not on their order or on refused calls. */
  lemma WriteOrderIrrelevant(b: seq<bool>, limitBits: nat, ws: seq<Write>, vs: seq<Write>)
    requires limitBits <= |b| && Disjoint(ws) && Disjoint(vs)
    requires forall w: Write | w.Fits(limitBits) :: w in ws <==> w in vs
    ensures ApplyAll(b, limitBits, ws) == ApplyAll(b, limitBits, vs)
  {
    forall i | 0 <= i < |b|
      ensures ApplyAll(b, limitBits, ws)[i] == ApplyAll(b, limitBits, vs)[i]
    {
      Settled(b, limitBits, ws, i);
      Settled(b, limitBits, vs, i);
    }
  }
}
