/** The bit-level engine of nunavut/support/serialization.h. A pointer to constant memory is a sequence of bytes, a
    pointer to writable memory an array, and `size_t` is `nat`: callers keep `8 * size` and `offset + length` in range.
    Two assertions of the copy compare addresses; the ghost parameter `p` says where the two buffers stand, and the ghost
    result `passed` whether these assertions hold. */
module Serialization {
  import opened Bits

  function ChooseMin(a: nat, b: nat): nat {
    if a < b then a else b
  }

  /** How much of a fragment lies inside the buffer. */
  function SaturateFragment(bufferSizeBytes: nat, fragmentOffsetBits: nat, fragmentLengthBits: nat): (bits: nat)
    ensures bits <= fragmentLengthBits
    ensures fragmentOffsetBits + bits <= 8 * bufferSizeBytes || bits == 0
    ensures bits < fragmentLengthBits ==> 8 * bufferSizeBytes <= fragmentOffsetBits + bits
  {
    var sizeBits := bufferSizeBytes * 8;
    var tailBits := sizeBits - ChooseMin(sizeBits, fragmentOffsetBits);
    ChooseMin(fragmentLengthBits, tailBits)
  }

  // ---------------------------------------------------------------- addresses

  /** The addresses of the source and of the destination of a copy. */
  datatype Placement = Placement(src: nat, dst: nat)

  /** What is asked of a caller: two buffers that do not overlap. */
  predicate Disjoint(p: Placement, srcSize: nat, dstSize: nat) {
    p.src != p.dst && (p.src + srcSize <= p.dst || p.dst + dstSize <= p.src)
  }

  /** Any placement will do. */
  lemma SomePlacement(srcSize: nat, dstSize: nat) returns (p: Placement)
    ensures Disjoint(p, srcSize, dstSize)
  {
    p := Placement(0, srcSize + 1);
  }

  /** The assertions in front of the unaligned loop. */
  predicate AddressAssertions(p: Placement, dstOff: nat, len: nat, srcOff: nat) {
    && (p.src < p.dst ==> p.src + (srcOff + len + 8) / 8 <= p.dst)
    && (p.src > p.dst ==> p.dst + (dstOff + len + 8) / 8 <= p.src)
  }

  /** One buffer begins where the other ends, and the copy reaches the last bit in front of the border; or nothing is copied
      and the source offset lies beyond the border. */
  predicate Touching(p: Placement, dstSize: nat, dstOff: nat, len: nat, srcOff: nat) {
    || (p.dst + dstSize == p.src && dstOff + len == 8 * dstSize)
    || (p.src < p.dst && srcOff + len >= 8 * (p.dst - p.src))
  }

  /** Whether a copy meets its address assertions; on the aligned path there are none. */
  predicate Passes(p: Placement, dstSize: nat, dstOff: nat, len: nat, srcOff: nat) {
    (srcOff % 8 == 0 && dstOff % 8 == 0) || !Touching(p, dstSize, dstOff, len, srcOff)
  }

  lemma RoundedUp(x: nat, d: nat)
    ensures (x + 8) / 8 <= d <==> x < 8 * d
  {
  }

  /** The assertions are stricter than "no overlap": they ask for one byte too many when the copy ends on a byte boundary,
      and so fail exactly for some buffers that touch. */
  lemma AssertionsIff(p: Placement, srcSize: nat, dstSize: nat, dstOff: nat, len: nat, srcOff: nat)
    requires Disjoint(p, srcSize, dstSize) && dstOff + len <= 8 * dstSize && (len == 0 || srcOff + len <= 8 * srcSize)
    ensures AddressAssertions(p, dstOff, len, srcOff) <==> !Touching(p, dstSize, dstOff, len, srcOff)
    ensures len > 0 ==> (p.src < p.dst && srcOff + len >= 8 * (p.dst - p.src)
      <==> p.src + srcSize == p.dst && srcOff + len == 8 * srcSize)
  {
    if p.src < p.dst {
      RoundedUp(srcOff + len, p.dst - p.src);
    } else {
      RoundedUp(dstOff + len, p.src - p.dst);
    }
  }

  // ---------------------------------------------------------------- bit array copy

  /** A fragment that may be read; an empty one is harmless wherever it starts. */
  predicate Within(off: nat, n: nat, src: seq<bv8>) {
    n == 0 || off + n <= 8 * |src|
  }

  /** `now` is `was` with `n` bits from `dstOff` on taken from `src` at `srcOff`. */
  ghost predicate Copied(now: seq<bv8>, was: seq<bv8>, dstOff: nat, n: nat, src: seq<bv8>, srcOff: nat) {
    && |now| == |was| && dstOff + n <= 8 * |was| && Within(srcOff, n, src)
    && forall i | 0 <= i < 8 * |was| ::
         BitAt(now, i) == if dstOff <= i < dstOff + n then BitAt(src, srcOff + (i - dstOff)) else BitAt(was, i)
  }

  lemma CopiedNothing(was: seq<bv8>, dstOff: nat, src: seq<bv8>, srcOff: nat)
    requires dstOff <= 8 * |was|
    ensures Copied(was, was, dstOff, 0, src, srcOff)
  {
  }

  lemma CopiedIsSplice(now: seq<bv8>, was: seq<bv8>, dstOff: nat, n: nat, src: seq<bv8>, srcOff: nat)
    requires Copied(now, was, dstOff, n, src, srcOff)
    ensures BitsOf(now) == Splice(BitsOf(was), dstOff, Read(BitsOf(src), srcOff, n))
  {
  }

  lemma MaskBit(dstMod: nat, size: nat, k: nat)
    requires dstMod < 8 && 0 < size && dstMod + size <= 8 && k < 8
    ensures Bit(((((1 as bv32 << size) - 1) << dstMod) & 0xFF) as bv8, k) == (dstMod <= k < dstMod + size)
  {
    BitMask(((((1 as bv32 << size) - 1) << dstMod) & 0xFF) as bv8, k);
    match dstMod { case 0 => case 1 => case 2 => case 3 => case 4 => case 5 => case 6 => case _ => }
  }

  lemma MaskPositive(mask: bv8, dstMod: nat, size: nat)
    requires dstMod < 8 && 0 < size && dstMod + size <= 8
    requires mask == ((((1 as bv32 << size) - 1) << dstMod) & 0xFF) as bv8
    ensures mask > 0
  {
    MaskBit(dstMod, size, dstMod);
    BitMask(mask, dstMod);
  }

  lemma LowMaskBit(n: nat, k: nat)
    requires 0 < n < 8 && k < 8
    ensures Bit(((1 as bv32 << n) - 1) as bv8, k) == (k < n)
  {
    BitMask(((1 as bv32 << n) - 1) as bv8, k);
    match n { case 1 => case 2 => case 3 => case 4 => case 5 => case 6 => case _ => }
  }

  /** One masked merge moves exactly the bits under the mask. */
  lemma MergedBit(d: bv8, s: bv8, mask: bv8, lo: nat, hi: nat, k: nat)
    requires k < 8
    requires Bit(mask, k) == (lo <= k < hi)
    ensures Bit((d & !mask) | (s & mask), k) == if lo <= k < hi then Bit(s, k) else Bit(d, k)
  {
    OrBit(d & !mask, s & mask, k);
    AndBit(d, !mask, k);
    AndBit(s, mask, k);
    NotBit(mask, k);
  }

  /** `x` is byte `d` with `size` bits from `dstMod` on taken from byte `s` at `srcMod`. */
  ghost predicate Merged(x: bv8, d: bv8, dstMod: nat, s: bv8, srcMod: nat, size: nat)
    requires dstMod + size <= 8 && srcMod + size <= 8
  {
    forall k | 0 <= k < 8 ::
      Bit(x, k) == if dstMod <= k < dstMod + size then Bit(s, k - dstMod + srcMod) else Bit(d, k)
  }

  /** The last, partial byte of an aligned copy. */
  method MergeTail(d: bv8, s: bv8, lengthMod: nat) returns (x: bv8)
    requires 0 < lengthMod < 8
    ensures Merged(x, d, 0, s, 0, lengthMod)
  {
    var mask := ((1 as bv32 << lengthMod) - 1) as bv8;
    x := (d & !mask) | (s & mask);
    forall k | 0 <= k < 8
      ensures Bit(x, k) == if k < lengthMod then Bit(s, k) else Bit(d, k)
    {
      LowMaskBit(lengthMod, k);
      MergedBit(d, s, mask, 0, lengthMod, k);
    }
  }

  /** One turn of the unaligned loop: the new value of the destination byte. */
  method MergeRun(d: bv8, dstMod: nat, s: bv8, srcMod: nat, size: nat) returns (x: bv8)
    requires dstMod < 8 && srcMod < 8 && 0 < size && dstMod + size <= 8 && srcMod + size <= 8
    ensures Merged(x, d, dstMod, s, srcMod, size)
  {
    var mask := ((((1 as bv32 << size) - 1) << dstMod) & 0xFF) as bv8;
    MaskPositive(mask, dstMod, size);
    assert mask > 0;
    var input := (s >> srcMod) << dstMod;
    var a := d & !mask;
    var b := input & mask;
    x := a | b;
    RunMerged(d, dstMod, s, srcMod, size, mask, input);
  }

  lemma ShiftedBit(s: bv8, srcMod: nat, dstMod: nat, k: nat)
    requires srcMod < 8 && dstMod <= k < 8 && k - dstMod + srcMod < 8
    ensures Bit((s >> srcMod) << dstMod, k) == Bit(s, k - dstMod + srcMod)
  {
    hide Bit;
    ShiftLeftBit(s >> srcMod, dstMod, k);
    ShiftRightBit(s, srcMod, k - dstMod);
  }

  lemma RunMerged(d: bv8, dstMod: nat, s: bv8, srcMod: nat, size: nat, mask: bv8, input: bv8)
    requires dstMod < 8 && srcMod < 8 && 0 < size && dstMod + size <= 8 && srcMod + size <= 8
    requires mask == ((((1 as bv32 << size) - 1) << dstMod) & 0xFF) as bv8 && input == (s >> srcMod) << dstMod
    ensures Merged((d & !mask) | (input & mask), d, dstMod, s, srcMod, size)
  {
    forall k | 0 <= k < 8
      ensures Bit((d & !mask) | (input & mask), k)
        == if dstMod <= k < dstMod + size then Bit(s, k - dstMod + srcMod) else Bit(d, k)
    {
      MaskBit(dstMod, size, k);
      MergedBit(d, input, mask, dstMod, dstMod + size, k);
      if dstMod <= k < dstMod + size {
        ShiftedBit(s, srcMod, dstMod, k);
      }
    }
  }

  /** Replacing one byte by a merge extends the copied run by the bits under the mask. */
  lemma CopiedStep(now: seq<bv8>, was: seq<bv8>, dstOff: nat, n: nat, src: seq<bv8>, srcOff: nat, x: bv8, size: nat)
    requires Copied(now, was, dstOff, n, src, srcOff)
    requires srcOff + n + size <= 8 * |src| && dstOff + n + size <= 8 * |now|
    requires 0 < size && (dstOff + n) % 8 + size <= 8 && (srcOff + n) % 8 + size <= 8
    requires Merged(x, now[(dstOff + n) / 8], (dstOff + n) % 8, src[(srcOff + n) / 8], (srcOff + n) % 8, size)
    ensures Copied(now[(dstOff + n) / 8 := x], was, dstOff, n + size, src, srcOff)
  {
    hide Merged, Bit;
    var d, s := dstOff + n, srcOff + n;
    var next := now[d / 8 := x];
    forall i | 0 <= i < 8 * |was|
      ensures BitAt(next, i) ==
        if dstOff <= i < dstOff + (n + size) then BitAt(src, srcOff + (i - dstOff)) else BitAt(was, i)
    {
      SteppedBit(now, d, src, s, x, size, i);
      if d <= i < d + size {
        assert s + (i - d) == srcOff + (i - dstOff);
      }
    }
    assert Copied(next, was, dstOff, n + size, src, srcOff);
  }

  lemma BitAtParts(b: seq<bv8>, j: nat, k: nat)
    requires j < |b| && k < 8
    ensures BitAt(b, 8 * j + k) == Bit(b[j], k)
  {
    hide Bit;
    DivModUnique(8 * j + k, 8, j, k);
  }

  /** What the merge at bit `d` of the destination and bit `s` of the source does to one bit. */
  lemma SteppedBit(now: seq<bv8>, d: nat, src: seq<bv8>, s: nat, x: bv8, size: nat, i: nat)
    requires s + size <= 8 * |src| && d + size <= 8 * |now| && i < 8 * |now|
    requires 0 < size && d % 8 + size <= 8 && s % 8 + size <= 8
    requires Merged(x, now[d / 8], d % 8, src[s / 8], s % 8, size)
    ensures BitAt(now[d / 8 := x], i) == if d <= i < d + size then BitAt(src, s + (i - d)) else BitAt(now, i)
  {
    hide *;
    SteppedParts(now, d / 8, d % 8, src, s / 8, s % 8, x, size, i / 8, i % 8);
  }

  /** The same with bit numbers in bytes and bits. */
  lemma SteppedParts(now: seq<bv8>, dj: nat, dk: nat, src: seq<bv8>, sj: nat, sk: nat, x: bv8, size: nat, j: nat, k: nat)
    requires dj < |now| && sj < |src| && j < |now| && k < 8
    requires 0 < size && dk + size <= 8 && sk + size <= 8 && Merged(x, now[dj], dk, src[sj], sk, size)
    ensures BitAt(now[dj := x], 8 * j + k)
      == if 8 * dj + dk <= 8 * j + k < 8 * dj + dk + size then BitAt(src, 8 * sj + sk + (8 * j + k - (8 * dj + dk)))
         else BitAt(now, 8 * j + k)
  {
    hide Bit, BitAt, Merged;
    BitAtParts(now[dj := x], j, k);
    BitAtParts(now, j, k);
    if j != dj {
      assert now[dj := x][j] == now[j];
    } else {
      MergedAt(x, now[dj], dk, src[sj], sk, size, k);
      if dk <= k < dk + size {
        BitAtParts(src, sj, sk + k - dk);
      }
    }
  }

  lemma MergedAt(x: bv8, d: bv8, dk: nat, s: bv8, sk: nat, size: nat, k: nat)
    requires dk + size <= 8 && sk + size <= 8 && Merged(x, d, dk, s, sk, size) && k < 8
    ensures Bit(x, k) == if dk <= k < dk + size then Bit(s, k - dk + sk) else Bit(d, k)
  {
    hide Bit;
  }

  /** Whole bytes moved by memmove. */
  lemma AlignedCopied(now: seq<bv8>, was: seq<bv8>, pdst: nat, n: nat, src: seq<bv8>, psrc: nat)
    requires |now| == |was| && pdst + n <= |was| && Within(8 * psrc, 8 * n, src)
    requires forall j | 0 <= j < |now| :: now[j] == if pdst <= j < pdst + n then src[psrc + (j - pdst)] else was[j]
    ensures Copied(now, was, 8 * pdst, 8 * n, src, 8 * psrc)
  {
    forall i | 0 <= i < 8 * |was|
      ensures BitAt(now, i) ==
        if 8 * pdst <= i < 8 * pdst + 8 * n then BitAt(src, 8 * psrc + (i - 8 * pdst)) else BitAt(was, i)
    {
      var j := 8 * psrc + (i - 8 * pdst);
      if 8 * pdst <= i < 8 * pdst + 8 * n {
        assert j / 8 == psrc + (i / 8 - pdst) && j % 8 == i % 8;
      }
    }
  }

  method Memmove(dst: array<bv8>, pdst: nat, src: seq<bv8>, psrc: nat, n: nat)
    requires pdst + n <= dst.Length && Within(8 * psrc, 8 * n, src)
    modifies dst
    ensures Copied(dst[..], old(dst[..]), 8 * pdst, 8 * n, src, 8 * psrc)
  {
    forall k | 0 <= k < n {
      dst[pdst + k] := src[psrc + k];
    }
    AlignedCopied(dst[..], old(dst[..]), pdst, n, src, psrc);
  }

  /** The optimized path: whole bytes by memmove, then the last partial byte under a mask. */
  method CopyAligned(dst: array<bv8>, dstOffsetBits: nat, lengthBits: nat, src: seq<bv8>, srcOffsetBits: nat)
    requires dstOffsetBits + lengthBits <= 8 * dst.Length && dstOffsetBits % 8 == 0
    requires Within(srcOffsetBits, lengthBits, src) && srcOffsetBits % 8 == 0
    modifies dst
    ensures Copied(dst[..], old(dst[..]), dstOffsetBits, lengthBits, src, srcOffsetBits)
  {
    hide Copied, Merged, BitAt;
    ghost var was := dst[..];
    var lengthBytes := lengthBits / 8;
    var psrc, pdst := srcOffsetBits / 8, dstOffsetBits / 8;
    Memmove(dst, pdst, src, psrc, lengthBytes);
    var lengthMod := lengthBits % 8;
    if lengthMod != 0 {
      ghost var now := dst[..];
      var x := MergeTail(dst[pdst + lengthBytes], src[psrc + lengthBytes], lengthMod);
      dst[pdst + lengthBytes] := x;
      CopiedStep(now, was, dstOffsetBits, 8 * lengthBytes, src, srcOffsetBits, x, lengthMod);
      assert dst[..] == now[pdst + lengthBytes := x];
    }
  }

  /** The general path: at each turn the bits up to the nearer byte boundary of the two buffers. */
  method CopyUnaligned(dst: array<bv8>, dstOffsetBits: nat, lengthBits: nat, src: seq<bv8>, srcOffsetBits: nat,
    ghost p: Placement) returns (ghost passed: bool)
    requires dstOffsetBits + lengthBits <= 8 * dst.Length
    requires Within(srcOffsetBits, lengthBits, src) && Disjoint(p, |src|, dst.Length)
    modifies dst
    ensures Copied(dst[..], old(dst[..]), dstOffsetBits, lengthBits, src, srcOffsetBits)
    ensures passed <==> !Touching(p, dst.Length, dstOffsetBits, lengthBits, srcOffsetBits)
  {
    hide Copied, Merged, AddressAssertions, Touching;
    ghost var was := dst[..];
    var srcOff, dstOff := srcOffsetBits, dstOffsetBits;
    var lastBit := srcOff + lengthBits;
    passed := AddressAssertions(p, dstOffsetBits, lengthBits, srcOffsetBits);
    CopiedNothing(was, dstOffsetBits, src, srcOffsetBits);
    AssertionsIff(p, |src|, dst.Length, dstOffsetBits, lengthBits, srcOffsetBits);
    while lastBit > srcOff
      invariant srcOffsetBits <= srcOff <= lastBit
      invariant dstOff - dstOffsetBits == srcOff - srcOffsetBits
      invariant Copied(dst[..], was, dstOffsetBits, dstOff - dstOffsetBits, src, srcOffsetBits)
    {
      ghost var now := dst[..];
      var srcMod, dstMod := srcOff % 8, dstOff % 8;
      var maxMod := if srcMod > dstMod then srcMod else dstMod;
      var size := ChooseMin(8 - maxMod, lastBit - srcOff);
      assert 0 < size <= 8;
      var x := MergeRun(dst[dstOff / 8], dstMod, src[srcOff / 8], srcMod, size);
      dst[dstOff / 8] := x;
      CopiedStep(now, was, dstOffsetBits, dstOff - dstOffsetBits, src, srcOffsetBits, x, size);
      assert dst[..] == now[dstOff / 8 := x];
      srcOff := srcOff + size;
      dstOff := dstOff + size;
    }
    assert lastBit == srcOff;
  }

  method CopyBits(dst: array<bv8>, dstOffsetBits: nat, lengthBits: nat, src: seq<bv8>, srcOffsetBits: nat,
    ghost p: Placement) returns (ghost passed: bool)
    requires dstOffsetBits + lengthBits <= 8 * dst.Length
    requires Within(srcOffsetBits, lengthBits, src) && Disjoint(p, |src|, dst.Length)
    modifies dst
    ensures BitsOf(dst[..]) == Splice(old(BitsOf(dst[..])), dstOffsetBits, Read(BitsOf(src), srcOffsetBits, lengthBits))
    ensures passed == Passes(p, dst.Length, dstOffsetBits, lengthBits, srcOffsetBits)
  {
    ghost var was := dst[..];
    if srcOffsetBits % 8 == 0 && dstOffsetBits % 8 == 0 {
      CopyAligned(dst, dstOffsetBits, lengthBits, src, srcOffsetBits);
      passed := true;
    } else {
      passed := CopyUnaligned(dst, dstOffsetBits, lengthBits, src, srcOffsetBits, p);
    }
    CopiedIsSplice(dst[..], was, dstOffsetBits, lengthBits, src, srcOffsetBits);
  }

  /** Reads a run of bits with implicit zero extension; the last byte of the output is padded with zeros. */
  method GetBits(output: array<bv8>, buf: seq<bv8>, offBits: nat, lenBits: nat, ghost p: Placement)
    returns (ghost passed: bool)
    requires (lenBits + 7) / 8 <= output.Length && Disjoint(p, |buf|, output.Length)
    modifies output
    ensures BitsOf(output[..]) == Splice(old(BitsOf(output[..])), 0, ZeroPadded(Read(BitsOf(buf), offBits, lenBits)))
    ensures passed == Passes(p, output.Length, 0, SaturateFragment(|buf|, offBits, lenBits), offBits)
  {
    var satBits := SaturateFragment(|buf|, offBits, lenBits);
    ghost var was := output[..];
    forall k | satBits / 8 <= k < (lenBits + 7) / 8 {
      output[k] := 0;
    }
    assert ZeroedFrom(output[..], was, satBits / 8, (lenBits + 7) / 8);
    ghost var cleared := output[..];
    passed := CopyBits(output, 0, satBits, buf, offBits, p);
    FetchedBits(output[..], cleared, was, buf, offBits, lenBits, satBits);
  }

  /** Zeros up to the next byte boundary. */
  function ZeroPadded(x: seq<bool>): (r: seq<bool>)
    ensures |r| == 8 * ((|x| + 7) / 8)
  {
    x + Zeros(8 * ((|x| + 7) / 8) - |x|)
  }

  ghost predicate ZeroedFrom(now: seq<bv8>, was: seq<bv8>, lo: nat, hi: nat) {
    && |now| == |was| && lo <= hi <= |was|
    && forall k | 0 <= k < |was| :: now[k] == if lo <= k < hi then 0 else was[k]
  }

  lemma ZeroByteBit(k: nat)
    requires k < 8
    ensures !Bit(0, k)
  {
    BitMask(0, k);
  }

  lemma ZeroedBits(now: seq<bv8>, was: seq<bv8>, lo: nat, hi: nat)
    requires ZeroedFrom(now, was, lo, hi)
    ensures forall i | 0 <= i < 8 * |was| :: BitsOf(now)[i] == (BitsOf(was)[i] && !(8 * lo <= i < 8 * hi))
  {
    forall i | 0 <= i < 8 * |was|
      ensures BitAt(now, i) == (BitAt(was, i) && !(8 * lo <= i < 8 * hi))
    {
      ZeroByteBit(i % 8);
    }
  }

  lemma FetchedBits(out: seq<bv8>, cleared: seq<bv8>, was: seq<bv8>, buf: seq<bv8>, off: nat, len: nat, sat: nat)
    requires sat == SaturateFragment(|buf|, off, len)
    requires ZeroedFrom(cleared, was, sat / 8, (len + 7) / 8) && |out| == |was|
    requires BitsOf(out) == Splice(BitsOf(cleared), 0, Read(BitsOf(buf), off, sat))
    ensures BitsOf(out) == Splice(BitsOf(was), 0, ZeroPadded(Read(BitsOf(buf), off, len)))
  {
    ZeroedBits(cleared, was, sat / 8, (len + 7) / 8);
    PaddedSplice(BitsOf(out), BitsOf(cleared), BitsOf(was), BitsOf(buf), off, len, sat);
  }

  lemma PaddedSplice(out: seq<bool>, cleared: seq<bool>, was: seq<bool>, b: seq<bool>, off: nat, len: nat, sat: nat)
    requires |cleared| == |was| && 8 * ((len + 7) / 8) <= |was| && sat <= len && (sat < len ==> |b| <= off + sat)
    requires forall i | 0 <= i < |was| :: cleared[i] == (was[i] && !(8 * (sat / 8) <= i < 8 * ((len + 7) / 8)))
    requires out == Splice(cleared, 0, Read(b, off, sat))
    ensures out == Splice(was, 0, ZeroPadded(Read(b, off, len)))
  {
  }

  // ---------------------------------------------------------------- writing fields

  datatype Status = Ok | BufferTooSmall | BadArrayLength | BadUnionTag

  type u64 = n: nat | n < 0x1_0000_0000_0000_0000
  type i64 = n: int | -0x8000_0000_0000_0000 <= n < 0x8000_0000_0000_0000

  /** One call of a setter: `value` in `lenBits` bits at `offBits`; widths above 64 are saturated. */
  datatype Write = Write(offBits: nat, lenBits: nat, value: u64) {
    function Width(): nat { ChooseMin(lenBits, 64) }

    predicate Fits(limitBits: nat) { offBits + lenBits <= limitBits }

    predicate Covers(i: nat) { offBits <= i < offBits + Width() }
  }

  /** The effect of a setter on a buffer whose first `limitBits` bits may be written: a refused call changes nothing. */
  function Apply(b: seq<bool>, limitBits: nat, w: Write): (r: seq<bool>)
    requires limitBits <= |b|
    ensures |r| == |b|
  {
    if w.Fits(limitBits) then Splice(b, w.offBits, ToBits(w.value, w.Width())) else b
  }

  /** `p` places the eight bytes of the value and the buffer. */
  method SetUxx(buf: array<bv8>, bufSizeBytes: nat, offBits: nat, value: u64, lenBits: nat, ghost p: Placement)
    returns (r: Status, ghost passed: bool)
    requires bufSizeBytes <= buf.Length && Disjoint(p, 8, buf.Length)
    modifies buf
    ensures passed <==> r != Ok || Passes(p, buf.Length, offBits, ChooseMin(lenBits, 64), 0)
    ensures r == if 8 * bufSizeBytes < offBits + lenBits then BufferTooSmall else Ok
    ensures BitsOf(buf[..]) == Apply(old(BitsOf(buf[..])), 8 * bufSizeBytes, Write(offBits, lenBits, value))
  {
    if bufSizeBytes * 8 < offBits + lenBits {
      return BufferTooSmall, true;
    }
    var saturatedLenBits := ChooseMin(lenBits, 64);
    var image := StoreLe(value, 8);
    passed := CopyBits(buf, offBits, saturatedLenBits, image, 0, p);
    LowBits(value, saturatedLenBits);
    r := Ok;
  }

  lemma {:induction false} ToBitsPrefix(n: nat, len: nat, k: nat)
    requires k <= len
    ensures ToBits(n, len)[..k] == ToBits(n, k)
  {
    if k > 0 {
      ToBitsPrefix(n / 2, len - 1, k - 1);
      assert ToBits(n, len)[..k] == [n % 2 == 1] + ToBits(n / 2, len - 1)[..k - 1];
    }
  }

  lemma LowBits(value: nat, len: nat)
    requires len <= 64
    ensures Read(BitsOf(StoreLe(value, 8)), 0, len) == ToBits(value, len)
  {
    ToBitsPrefix(value, 64, len);
  }

  /** The conversion of C from int64_t to uint64_t. */
  function ToUnsigned64(v: i64): (n: u64) {
    if v < 0 then v + 0x1_0000_0000_0000_0000 else v
  }

  method SetIxx(buf: array<bv8>, bufSizeBytes: nat, offBits: nat, value: i64, lenBits: nat, ghost p: Placement)
    returns (r: Status, ghost passed: bool)
    requires bufSizeBytes <= buf.Length && Disjoint(p, 8, buf.Length)
    modifies buf
    ensures passed <==> r != Ok || Passes(p, buf.Length, offBits, ChooseMin(lenBits, 64), 0)
    ensures r == if 8 * bufSizeBytes < offBits + lenBits then BufferTooSmall else Ok
    ensures BitsOf(buf[..])
      == Apply(old(BitsOf(buf[..])), 8 * bufSizeBytes, Write(offBits, lenBits, ToUnsigned64(value)))
  {
    r, passed := SetUxx(buf, bufSizeBytes, offBits, ToUnsigned64(value), lenBits, p);
  }

  /** The address assertions fail exactly when the bit is the last one of the memory in front of the temporary `val`. */
  method SetBit(buf: array<bv8>, bufSizeBytes: nat, offBits: nat, value: bool, ghost p: Placement)
    returns (r: Status, ghost passed: bool)
    requires bufSizeBytes <= buf.Length && Disjoint(p, 1, buf.Length)
    modifies buf
    ensures passed <==> r != Ok || !(p.dst + buf.Length == p.src && offBits + 1 == 8 * buf.Length)
    ensures r == if 8 * bufSizeBytes <= offBits then BufferTooSmall else Ok
    ensures BitsOf(buf[..]) == Apply(old(BitsOf(buf[..])), 8 * bufSizeBytes, Write(offBits, 1, if value then 1 else 0))
  {
    if bufSizeBytes * 8 <= offBits {
      return BufferTooSmall, true;
    }
    var val: bv8 := if value then 1 else 0;
    passed := CopyBits(buf, offBits, 1, [val], 0, p);
    assert Read(BitsOf([val]), 0, 1) == ToBits(if value then 1 else 0, 1) by {
      assert BitAt([val], 0) == value;
      assert ToBits(if value then 1 else 0, 1) == [value];
    }
    r := Ok;
  }

  /** For instance the last bit of any buffer directly in front of the temporary. */
  lemma LastBitFails(n: nat, address: nat)
    requires n > 0
    ensures Disjoint(Placement(address + n, address), 1, n)
    ensures !AddressAssertions(Placement(address + n, address), 8 * n - 1, 1, 0)
  {
    RoundedUp(8 * n - 1 + 1, n);
  }

  // ---------------------------------------------------------------- reading fields

  /** The unsigned number in a field, zero-extended past the end of the buffer. */
  function Unsigned(b: seq<bool>, off: nat, len: nat): nat {
    FromBits(Read(b, off, len))
  }

  /** Two's complement. */
  function Signed(x: seq<bool>): int {
    FromBits(x) - if |x| > 0 && x[|x| - 1] then Pow2(|x|) else 0
  }

  predicate NativeWidth(w: nat) { w == 8 || w == 16 || w == 32 || w == 64 }

  /** nunavutGetU8, U16, U32 and U64 are this body at their own width. */
  method GetUxx(w: nat, buf: seq<bv8>, offBits: nat, lenBits: nat, ghost p: Placement) returns (r: nat, ghost passed: bool)
    requires NativeWidth(w) && Disjoint(p, |buf|, w / 8)
    ensures passed == Passes(p, w / 8, 0, SaturateFragment(|buf|, offBits, ChooseMin(lenBits, w)), offBits)
    ensures r == Unsigned(BitsOf(buf), offBits, ChooseMin(lenBits, w)) < Pow2(w)
  {
    var bits := SaturateFragment(|buf|, offBits, ChooseMin(lenBits, w));
    assert bits <= w;
    var val := new bv8[w / 8](_ => 0);
    ghost var zero := val[..];
    assert 8 * |zero| == w;
    passed := CopyBits(val, 0, bits, buf, offBits, p);
    r := LoadLe(val[..]);
    FetchedValue(val[..], zero, buf, offBits, ChooseMin(lenBits, w));
  }

  lemma ZeroImage(s: seq<bv8>)
    requires forall j | 0 <= j < |s| :: s[j] == 0
    ensures BitsOf(s) == Zeros(8 * |s|)
  {
    forall i | 0 <= i < 8 * |s|
      ensures !BitAt(s, i)
    {
      ZeroByteBit(i % 8);
    }
  }

  lemma FetchedValue(val: seq<bv8>, zero: seq<bv8>, buf: seq<bv8>, off: nat, len: nat)
    requires len <= 8 * |val| == 8 * |zero| && forall j | 0 <= j < |zero| :: zero[j] == 0
    requires BitsOf(val) == Splice(BitsOf(zero), 0, Read(BitsOf(buf), off, SaturateFragment(|buf|, off, len)))
    ensures LoadLe(val) == Unsigned(BitsOf(buf), off, len) < Pow2(8 * |val|)
  {
    hide Splice, Read, FromBits, Pow2, Zeros, BitsOf;
    FetchedField(val, zero, BitsOf(buf), off, len, SaturateFragment(|buf|, off, len));
    FromBitsExtend(Read(BitsOf(buf), off, len), 8 * |val| - len);
    FromBitsBound(BitsOf(val));
  }

  lemma FetchedField(val: seq<bv8>, zero: seq<bv8>, b: seq<bool>, off: nat, len: nat, sat: nat)
    requires sat <= len <= 8 * |val| == 8 * |zero| && (sat < len ==> |b| <= off + sat)
    requires forall j | 0 <= j < |zero| :: zero[j] == 0
    requires BitsOf(val) == Splice(BitsOf(zero), 0, Read(b, off, sat))
    ensures BitsOf(val) == Read(b, off, len) + Zeros(8 * |val| - len)
  {
    ZeroImage(zero);
    ExtendedField(BitsOf(val), b, off, len, sat);
  }

  lemma ExtendedField(val: seq<bool>, b: seq<bool>, off: nat, len: nat, sat: nat)
    requires sat <= len <= |val| && (sat < len ==> |b| <= off + sat)
    requires val == Splice(Zeros(|val|), 0, Read(b, off, sat))
    ensures val == Read(b, off, len) + Zeros(|val| - len)
  {
  }

  lemma FromBitsExtend(x: seq<bool>, n: nat)
    ensures FromBits(x + Zeros(n)) == FromBits(x)
  {
    FromBitsConcat(x, Zeros(n));
    FromBitsZeros(n);
  }

  method GetBit(buf: seq<bv8>, offBits: nat, ghost p: Placement) returns (r: bool, ghost passed: bool)
    requires Disjoint(p, |buf|, 1)
    ensures passed == Passes(p, 1, 0, SaturateFragment(|buf|, offBits, 1), offBits)
    ensures r == (offBits < 8 * |buf| && BitAt(buf, offBits))
  {
    var v;
    v, passed := GetUxx(8, buf, offBits, 1, p);
    r := 1 == v;
    var x := Read(BitsOf(buf), offBits, 1);
    assert FromBits(x) == (if x[0] then 1 else 0) + 2 * FromBits(x[1..]) && x[1..] == [];
  }

  /** `val & (1 << k)` is non-zero. */
  predicate TestBit(val: nat, k: nat) { ToBits(val, k + 1)[k] }

  /** The operators `|` and `~` on unsigned integers of `w` bits. */
  function Or(a: nat, b: nat, w: nat): nat {
    FromBits(OrBits(ToBits(a, w), ToBits(b, w)))
  }

  function OrBits(x: seq<bool>, y: seq<bool>): (r: seq<bool>)
    requires |x| == |y|
    ensures |r| == |x|
  {
    seq(|x|, i requires 0 <= i < |x| => x[i] || y[i])
  }

  function Complement(a: nat, w: nat): int {
    Pow2(w) - 1 - a
  }

  /** The sign extension and the conversion to a signed type, as the four signed getters write them. */
  function SignExtend(val: nat, sat: nat, w: nat): int
    requires val < Pow2(sat) && sat <= w
  {
    Pow2Monotone(sat, w);
    var neg := sat > 0 && TestBit(val, sat - 1);
    var extended := if sat < w && neg then Or(val, Complement(Pow2(sat) - 1, w), w) else val;
    if neg then -Complement(extended, w) - 1 else extended
  }

  /** nunavutGetI8, I16, I32 and I64 are this body at their own width. */
  method GetIxx(w: nat, buf: seq<bv8>, offBits: nat, lenBits: nat, ghost p: Placement) returns (r: int, ghost passed: bool)
    requires NativeWidth(w) && Disjoint(p, |buf|, w / 8)
    ensures passed == Passes(p, w / 8, 0, SaturateFragment(|buf|, offBits, ChooseMin(lenBits, w)), offBits)
    ensures r == Signed(Read(BitsOf(buf), offBits, ChooseMin(lenBits, w)))
  {
    var sat := ChooseMin(lenBits, w);
    var val;
    val, passed := GetUxx(w, buf, offBits, sat, p);
    SignExtendCorrect(Read(BitsOf(buf), offBits, sat), w);
    r := SignExtend(val, sat, w);
  }

  lemma SignExtendCorrect(x: seq<bool>, w: nat)
    requires |x| <= w
    ensures FromBits(x) < Pow2(|x|)
    ensures SignExtend(FromBits(x), |x|, w) == Signed(x)
  {
    FromBitsBound(x);
    SignExtendField(x, FromBits(x), w);
  }

  lemma SignExtendField(x: seq<bool>, val: nat, w: nat)
    requires |x| <= w && val == FromBits(x) < Pow2(|x|)
    ensures SignExtend(val, |x|, w) == Signed(x)
  {
    assert |x| > 0 ==> TestBit(val, |x| - 1) == x[|x| - 1] by {
      if |x| > 0 {
        SignBit(x);
      }
    }
    if |x| < w {
      SignExtension(x, w);
    }
    SignExtendValue(val, |x|, w);
  }

  lemma SignExtendValue(val: nat, sat: nat, w: nat)
    requires val < Pow2(sat) && sat <= w
    requires sat < w ==> Complement(Pow2(sat) - 1, w) >= 0
    requires sat < w ==> Or(val, Complement(Pow2(sat) - 1, w), w) == val + Pow2(w) - Pow2(sat)
    ensures SignExtend(val, sat, w) == val - if sat > 0 && TestBit(val, sat - 1) then Pow2(sat) else 0
  {
  }

  lemma SignBit(x: seq<bool>)
    requires |x| > 0
    ensures TestBit(FromBits(x), |x| - 1) == x[|x| - 1]
  {
    ToFromBits(x);
  }

  /** The mask of ones above the field adds exactly its own weight. */
  lemma SignExtension(x: seq<bool>, w: nat)
    requires |x| < w
    ensures Complement(Pow2(|x|) - 1, w) >= 0
    ensures Or(FromBits(x), Complement(Pow2(|x|) - 1, w), w) == FromBits(x) + Pow2(w) - Pow2(|x|)
  {
    FieldImage(x, w);
    HighOnesImage(|x|, w);
    OrDisjoint(FromBits(x), Complement(Pow2(|x|) - 1, w), x, w);
    FromBitsHighOnes(x, w);
  }

  lemma OrDisjoint(a: nat, b: nat, x: seq<bool>, w: nat)
    requires |x| <= w
    requires ToBits(a, w) == x + Zeros(w - |x|) && ToBits(b, w) == Zeros(|x|) + Ones(w - |x|)
    ensures Or(a, b, w) == FromBits(x + Ones(w - |x|))
  {
    assert OrBits(ToBits(a, w), ToBits(b, w)) == x + Ones(w - |x|);
  }

  function Ones(n: nat): (r: seq<bool>)
    ensures |r| == n && forall i | 0 <= i < n :: r[i]
  {
    seq(n, _ => true)
  }

  lemma FieldImage(x: seq<bool>, w: nat)
    requires |x| <= w
    ensures ToBits(FromBits(x), w) == x + Zeros(w - |x|)
  {
    FromBitsExtend(x, w - |x|);
    ToFromBits(x + Zeros(w - |x|));
  }

  lemma HighOnesImage(n: nat, w: nat)
    requires n < w
    ensures Complement(Pow2(n) - 1, w) >= 0
    ensures ToBits(Complement(Pow2(n) - 1, w), w) == Zeros(n) + Ones(w - n)
  {
    Pow2Monotone(n, w);
    FromBitsHighOnes(Zeros(n), w);
    FromBitsZeros(n);
    ToFromBits(Zeros(n) + Ones(w - n));
  }

  lemma TimesPredecessor(a: int, b: int)
    ensures a * (b - 1) == a * b - a
  {
  }

  lemma FromBitsHighOnes(x: seq<bool>, w: nat)
    requires |x| < w
    ensures FromBits(x + Ones(w - |x|)) == FromBits(x) + Pow2(w) - Pow2(|x|)
  {
    FromBitsConcat(x, Ones(w - |x|));
    HighOnesWeight(|x|, w - |x|);
  }

  lemma HighOnesWeight(n: nat, m: nat)
    ensures Pow2(n) * FromBits(Ones(m)) == Pow2(n + m) - Pow2(n)
  {
    FromBitsOnes(m);
    Pow2Add(n, m);
    TimesPredecessor(Pow2(n), Pow2(m));
  }

  lemma {:induction false} FromBitsOnes(n: nat)
    ensures FromBits(Ones(n)) == Pow2(n) - 1
  {
    if n > 0 {
      FromBitsOnes(n - 1);
      assert Ones(n)[1..] == Ones(n - 1);
    }
  }
}
