/** Bytes, bits and little-endian integers: the vocabulary in which every codec is specified.
    A buffer of bytes denotes a sequence of bits, least significant bit of the first byte first
    (Cyphal Specification v1.0, section 3.7), and a field is a slice of that sequence. */
module Bits {

  function Pow2(n: nat): (p: nat)
    ensures p > 0
  {
    if n == 0 then 1 else 2 * Pow2(n - 1)
  }

  lemma {:induction false} Pow2Add(a: nat, b: nat)
    ensures Pow2(a + b) == Pow2(a) * Pow2(b)
  {
    if a > 0 {
      Pow2Add(a - 1, b);
      assert Pow2(a + b) == 2 * Pow2((a - 1) + b);
      assert 2 * (Pow2(a - 1) * Pow2(b)) == (2 * Pow2(a - 1)) * Pow2(b);
    }
  }

  lemma Pow2Monotone(a: nat, b: nat)
    requires a <= b
    ensures Pow2(a) <= Pow2(b)
    decreases b
  {
    if a < b {
      Pow2Monotone(a, b - 1);
    }
  }

  lemma Pow2Of8()
    ensures Pow2(8) == 0x100
  {
    assert Pow2(4) == 16;
  }

  lemma NativePowers()
    ensures Pow2(8) == 0x100 && Pow2(16) == 0x1_0000 && Pow2(32) == 0x1_0000_0000
    ensures Pow2(64) == 0x1_0000_0000_0000_0000
  {
    hide Pow2;
    Pow2Of8();
    Pow2Add(8, 8);
    Pow2Add(16, 16);
    Pow2Add(32, 32);
  }

  // ---------------------------------------------------------------- bits of one byte

  /** Bit `k` of a byte: shift it down to the lowest place and look. */
  predicate Bit(b: bv8, k: nat)
    requires k < 8
    decreases k
  {
    if k == 0 then b & 1 == 1 else Bit(b >> 1, k - 1)
  }

  function Mask(k: nat): bv8
    requires k < 8
  {
    match k case 0 => 1 case 1 => 2 case 2 => 4 case 3 => 8 case 4 => 16 case 5 => 32 case 6 => 64 case _ => 128
  }

  predicate MaskedBit(b: bv8, k: nat)
    requires k < 8
  {
    b & Mask(k) != 0
  }

  lemma ShiftLeftMask(b: bv8, n: nat, k: nat)
    requires n < 8 && k < 8
    ensures MaskedBit(b << n, k) == (n <= k && MaskedBit(b, k - n))
  {
    match n { case 0 => case 1 => case 2 => case 3 => case 4 => case 5 => case 6 => case _ => }
  }

  lemma ShiftRightMask(b: bv8, n: nat, k: nat)
    requires n < 8 && k < 8
    ensures MaskedBit(b >> n, k) == (k + n < 8 && MaskedBit(b, k + n))
  {
    match n { case 0 => case 1 => case 2 => case 3 => case 4 => case 5 => case 6 => case _ => }
  }

  lemma {:induction false} BitMask(b: bv8, k: nat)
    requires k < 8
    ensures Bit(b, k) == MaskedBit(b, k)
  {
    if k > 0 {
      BitMask(b >> 1, k - 1);
      ShiftRightMask(b, 1, k - 1);
    }
  }

  lemma ShiftLeftBit(b: bv8, n: nat, k: nat)
    requires n < 8 && k < 8
    ensures Bit(b << n, k) == (n <= k && Bit(b, k - n))
  {
    ShiftLeftMask(b, n, k);
    BitMask(b << n, k);
    if n <= k {
      BitMask(b, k - n);
    }
  }

  lemma ShiftRightBit(b: bv8, n: nat, k: nat)
    requires n < 8 && k < 8
    ensures Bit(b >> n, k) == (k + n < 8 && Bit(b, k + n))
  {
    ShiftRightMask(b, n, k);
    BitMask(b >> n, k);
    if k + n < 8 {
      BitMask(b, k + n);
    }
  }

  lemma AndMask(a: bv8, b: bv8, m: bv8)
    requires m == 1 || m == 2 || m == 4 || m == 8 || m == 16 || m == 32 || m == 64 || m == 128
    ensures (a & b) & m != 0 <==> a & m != 0 && b & m != 0
    ensures !a & m != 0 <==> a & m == 0
  {
  }

  lemma AndBit(a: bv8, b: bv8, k: nat)
    requires k < 8
    ensures Bit(a & b, k) == (Bit(a, k) && Bit(b, k))
  {
    BitMask(a & b, k);
    BitMask(a, k);
    BitMask(b, k);
    AndMask(a, b, Mask(k));
  }

  lemma NotBit(a: bv8, k: nat)
    requires k < 8
    ensures Bit(!a, k) == !Bit(a, k)
  {
    BitMask(!a, k);
    BitMask(a, k);
    AndMask(a, a, Mask(k));
  }

  lemma OrMask(a: bv8, b: bv8, m: bv8)
    ensures (a | b) & m == (a & m) | (b & m)
  {
  }

  lemma OrZero(a: bv8, b: bv8)
    ensures a | b == 0 <==> a == 0 && b == 0
  {
  }

  lemma OrBit(a: bv8, b: bv8, k: nat)
    requires k < 8
    ensures Bit(a | b, k) == (Bit(a, k) || Bit(b, k))
  {
    BitMask(a | b, k);
    BitMask(a, k);
    BitMask(b, k);
    OrMask(a, b, Mask(k));
    OrZero(a & Mask(k), b & Mask(k));
  }

  lemma ByteExtensional(a: bv8, b: bv8)
    requires forall k | 0 <= k < 8 :: Bit(a, k) == Bit(b, k)
    ensures a == b
  {
    forall k | 0 <= k < 8
      ensures a & Mask(k) != 0 <==> b & Mask(k) != 0
    {
      BitMask(a, k);
      BitMask(b, k);
    }
    SameMasks(a, b);
  }

  lemma SameMasks(a: bv8, b: bv8)
    requires forall k | 0 <= k < 8 :: a & Mask(k) != 0 <==> b & Mask(k) != 0
    ensures a == b
  {
    assert a & Mask(0) != 0 <==> b & Mask(0) != 0;
    assert a & Mask(1) != 0 <==> b & Mask(1) != 0;
    assert a & Mask(2) != 0 <==> b & Mask(2) != 0;
    assert a & Mask(3) != 0 <==> b & Mask(3) != 0;
    assert a & Mask(4) != 0 <==> b & Mask(4) != 0;
    assert a & Mask(5) != 0 <==> b & Mask(5) != 0;
    assert a & Mask(6) != 0 <==> b & Mask(6) != 0;
    assert a & Mask(7) != 0 <==> b & Mask(7) != 0;
  }

  // ---------------------------------------------------------------- bits of a buffer

  predicate BitAt(s: seq<bv8>, i: nat)
    requires i < 8 * |s|
  {
    Bit(s[i / 8], i % 8)
  }

  function BitsOf(s: seq<bv8>): (r: seq<bool>)
    ensures |r| == 8 * |s|
    ensures forall i | 0 <= i < 8 * |s| :: r[i] == BitAt(s, i)
  {
    seq(8 * |s|, i requires 0 <= i < 8 * |s| => BitAt(s, i))
  }

  lemma BitsOfSlice(s: seq<bv8>, lo: nat, hi: nat)
    requires lo <= hi <= |s|
    ensures BitsOf(s[lo..hi]) == BitsOf(s)[8 * lo..8 * hi]
  {
    forall i | 0 <= i < 8 * (hi - lo)
      ensures BitsOf(s[lo..hi])[i] == BitsOf(s)[8 * lo..8 * hi][i]
    {
      assert (8 * lo + i) / 8 == lo + i / 8 && (8 * lo + i) % 8 == i % 8;
    }
  }

  lemma BitsOfConcat(s: seq<bv8>, t: seq<bv8>)
    ensures BitsOf(s + t) == BitsOf(s) + BitsOf(t)
  {
    forall i | 0 <= i < 8 * (|s| + |t|)
      ensures BitAt(s + t, i) == (BitsOf(s) + BitsOf(t))[i]
    {
      if 8 * |s| <= i {
        assert (i - 8 * |s|) / 8 == i / 8 - |s| && (i - 8 * |s|) % 8 == i % 8;
      }
    }
  }

  /** A buffer is determined by its bits. */
  lemma BitsOfInjective(s: seq<bv8>, t: seq<bv8>)
    requires BitsOf(s) == BitsOf(t)
    ensures s == t
  {
    forall j | 0 <= j < |s|
      ensures s[j] == t[j]
    {
      forall k | 0 <= k < 8
        ensures Bit(s[j], k) == Bit(t[j], k)
      {
        assert (8 * j + k) / 8 == j && (8 * j + k) % 8 == k;
        assert BitsOf(s)[8 * j + k] == BitsOf(t)[8 * j + k];
      }
      ByteExtensional(s[j], t[j]);
    }
  }

  // ---------------------------------------------------------------- reading and overwriting a slice

  function Zeros(n: nat): (r: seq<bool>)
    ensures |r| == n && forall i | 0 <= i < n :: !r[i]
  {
    seq(n, _ => false)
  }

  /** The slice of `len` bits at `off`, every bit past the end taken as zero (implicit zero extension). */
  function Read(b: seq<bool>, off: nat, len: nat): (r: seq<bool>)
    ensures |r| == len
    ensures forall i | 0 <= i < len :: r[i] == (off + i < |b| && b[off + i])
  {
    seq(len, i requires 0 <= i < len => off + i < |b| && b[off + i])
  }

  /** `b` with the bits from `off` on replaced by `x`. */
  function Splice(b: seq<bool>, off: nat, x: seq<bool>): (r: seq<bool>)
    requires off + |x| <= |b|
    ensures |r| == |b|
    ensures forall i | 0 <= i < |b| :: r[i] == if off <= i < off + |x| then x[i - off] else b[i]
  {
    b[..off] + x + b[off + |x|..]
  }

  // ---------------------------------------------------------------- numbers

  /** The `len` least significant bits of `n`, least significant first. */
  function ToBits(n: nat, len: nat): (r: seq<bool>)
    ensures |r| == len
  {
    if len == 0 then [] else [n % 2 == 1] + ToBits(n / 2, len - 1)
  }

  function FromBits(b: seq<bool>): nat {
    if |b| == 0 then 0 else (if b[0] then 1 else 0) + 2 * FromBits(b[1..])
  }

  lemma {:induction false} FromBitsBound(b: seq<bool>)
    ensures FromBits(b) < Pow2(|b|)
  {
    if |b| > 0 {
      FromBitsBound(b[1..]);
    }
  }

  /** Storing a number in `len` bits keeps it modulo 2^len. */
  lemma {:induction false} FromToBits(n: nat, len: nat)
    ensures FromBits(ToBits(n, len)) == n % Pow2(len)
  {
    if len > 0 {
      FromToBits(n / 2, len - 1);
      assert ToBits(n, len)[1..] == ToBits(n / 2, len - 1);
      HalveModulus(n, Pow2(len - 1));
    }
  }

  lemma HalveModulus(n: nat, m: nat)
    requires m > 0
    ensures n % (2 * m) == n % 2 + 2 * ((n / 2) % m)
  {
    var q, r := (n / 2) / m, (n / 2) % m;
    assert n == (2 * m) * q + (n % 2 + 2 * r);
    assert 0 <= n % 2 + 2 * r < 2 * m;
    DivModUnique(n, 2 * m, q, n % 2 + 2 * r);
  }

  lemma DivModUnique(n: int, d: int, q: int, r: int)
    requires d > 0 && n == d * q + r && 0 <= r < d
    ensures n / d == q && n % d == r
  {
    var q' := n / d;
    assert n == d * q' + n % d;
    SmallMultiple(d, q - q', n % d - r);
  }

  lemma SmallMultiple(d: int, z: int, e: int)
    requires d > 0 && d * z == e && -d < e < d
    ensures z == 0
  {
    assert z >= 1 ==> d * z >= d;
    assert z <= -1 ==> d * z <= -d;
  }

  lemma {:induction false} ToFromBits(b: seq<bool>)
    ensures ToBits(FromBits(b), |b|) == b
  {
    if |b| > 0 {
      ToFromBits(b[1..]);
    }
  }

  lemma {:induction false} FromBitsConcat(a: seq<bool>, b: seq<bool>)
    ensures FromBits(a + b) == FromBits(a) + Pow2(|a|) * FromBits(b)
  {
    if |a| == 0 {
      assert a + b == b;
    } else {
      FromBitsConcat(a[1..], b);
      assert (a + b)[1..] == a[1..] + b;
      assert 2 * (Pow2(|a| - 1) * FromBits(b)) == Pow2(|a|) * FromBits(b);
    }
  }

  lemma {:induction false} FromBitsZeros(n: nat)
    ensures FromBits(Zeros(n)) == 0
  {
    if n > 0 {
      FromBitsZeros(n - 1);
      assert Zeros(n)[1..] == Zeros(n - 1);
    }
  }

  lemma {:induction false} ToBitsZero(len: nat)
    ensures ToBits(0, len) == Zeros(len)
  {
    if len > 0 {
      ToBitsZero(len - 1);
    }
  }

  /** The low bits of a number are the number modulo a power of two. */
  lemma FromBitsPrefix(b: seq<bool>, k: nat)
    requires k <= |b|
    ensures FromBits(b[..k]) == FromBits(b) % Pow2(k)
  {
    assert b == b[..k] + b[k..];
    FromBitsConcat(b[..k], b[k..]);
    FromBitsBound(b[..k]);
    DivModUnique(FromBits(b), Pow2(k), FromBits(b[k..]), FromBits(b[..k]));
  }

  // ---------------------------------------------------------------- the memory image of an integer

  function ByteOf(b: seq<bool>): bv8
    requires |b| <= 8
  {
    if |b| == 0 then 0 else (ByteOf(b[1..]) << 1) | LowBit(b[0])
  }

  function LowBit(v: bool): bv8 {
    if v then 1 else 0
  }

  lemma LowBitBit(v: bool, k: nat)
    requires k < 8
    ensures Bit(LowBit(v), k) == (k == 0 && v)
  {
    BitMask(LowBit(v), k);
  }

  lemma {:induction false} ByteOfBit(b: seq<bool>, k: nat)
    requires |b| <= 8 && k < 8
    ensures Bit(ByteOf(b), k) == (k < |b| && b[k])
  {
    if |b| == 0 {
      LowBitBit(false, k);
    } else {
      var rest := ByteOf(b[1..]);
      OrBit(rest << 1, LowBit(b[0]), k);
      ShiftLeftBit(rest, 1, k);
      LowBitBit(b[0], k);
      if k > 0 {
        ByteOfBit(b[1..], k - 1);
      }
    }
  }

  function Pack(b: seq<bool>): (r: seq<bv8>)
    requires |b| % 8 == 0
    ensures |r| == |b| / 8
  {
    seq(|b| / 8, j requires 0 <= j < |b| / 8 => ByteOf(b[8 * j..8 * j + 8]))
  }

  lemma PackBits(b: seq<bool>)
    requires |b| % 8 == 0
    ensures BitsOf(Pack(b)) == b
  {
    forall i | 0 <= i < |b|
      ensures BitsOf(Pack(b))[i] == b[i]
    {
      var j := i / 8;
      assert BitAt(Pack(b), i) == Bit(ByteOf(b[8 * j..8 * j + 8]), i % 8);
      ByteOfBit(b[8 * j..8 * j + 8], i % 8);
    }
  }

  /** The `k` bytes of an unsigned integer object on a little-endian machine: its `8 * k` low bits in order. */
  function StoreLe(n: nat, k: nat): (r: seq<bv8>)
    ensures |r| == k
    ensures BitsOf(r) == ToBits(n, 8 * k)
  {
    PackBits(ToBits(n, 8 * k));
    Pack(ToBits(n, 8 * k))
  }

  /** The integer object whose memory holds these bytes. */
  function LoadLe(s: seq<bv8>): nat {
    FromBits(BitsOf(s))
  }

  // ---------------------------------------------------------------- the number in a byte

  lemma ByteHalf(b: bv8)
    ensures b as int == 2 * ((b >> 1) as int) + if b & 1 == 1 then 1 else 0
  {
  }

  function FirstBits(b: bv8, n: nat): (r: seq<bool>)
    requires n <= 8
    ensures |r| == n && forall k | 0 <= k < n :: r[k] == Bit(b, k)
  {
    seq(n, k requires 0 <= k < n => Bit(b, k))
  }

  lemma {:induction false} LowValue(b: bv8, n: nat)
    requires n <= 8 && b as int < Pow2(n)
    ensures FromBits(FirstBits(b, n)) == b as int
  {
    if n > 0 {
      ByteHalf(b);
      LowValue(b >> 1, n - 1);
      assert FirstBits(b, n)[1..] == FirstBits(b >> 1, n - 1);
    }
  }

  /** One byte in memory is the number that its bit vector denotes. */
  lemma ByteValue(b: bv8)
    ensures LoadLe([b]) == b as int
  {
    Pow2Of8();
    LowValue(b, 8);
    assert BitsOf([b]) == FirstBits(b, 8);
  }
}
