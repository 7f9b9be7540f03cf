/** The binary16 conversions of nunavut/support/serialization.h, on the bit patterns of IEEE 754-2019 binary32 and
    binary16 numbers. Magnitudes are exact natural numbers: a binary32 counts units of 2^-149, a binary16 units of 2^-24,
    that is 2^125 of the former. */
module Float16 {
  import opened Bits

  type u16 = n: nat | n < 0x1_0000
  type u32 = n: nat | n < 0x1_0000_0000

  const F32_INF := 255 * 0x80_0000
  const F16_INF := 0x7C00
  const ROUND_MASK := 0xFFFF_F000
  const TWO_112 := 0x1_0000_0000_0000_0000_0000_0000_0000

  // ---------------------------------------------------------------- values

  /** The value of a non-negative finite binary32, in units of 2^-149. The formula goes on past the largest exponent. */
  function Value32(b: nat): nat {
    var e, m := b / 0x80_0000, b % 0x80_0000;
    if e == 0 then m else (0x80_0000 + m) * Pow2(e - 1)
  }

  /** The value of a non-negative binary16, in units of 2^-24; infinity counts as the next power of two, 65536. */
  function Value16(h: nat): nat {
    var e, m := h / 0x400, h % 0x400;
    if e == 0 then m else (0x400 + m) * Pow2(e - 1)
  }

  lemma Distribute(a: int, b: int, c: int)
    ensures (a + b) * c == a * c + b * c
  {
  }

  lemma Associate(a: int, b: int, c: int)
    ensures (a * b) * c == a * (b * c) == b * (a * c)
  {
  }

  /** Consecutive patterns differ by one unit in the last place of the lower one. */
  lemma Successor32(b: nat)
    ensures Value32(b + 1) == Value32(b) + (if b < 0x80_0000 then 1 else Pow2(b / 0x80_0000 - 1))
  {
    var e, m := b / 0x80_0000, b % 0x80_0000;
    if m + 1 < 0x80_0000 {
      assert (b + 1) / 0x80_0000 == e && (b + 1) % 0x80_0000 == m + 1;
      if e > 0 {
        Distribute(0x80_0000 + m, 1, Pow2(e - 1));
      }
    } else {
      assert (b + 1) / 0x80_0000 == e + 1 && (b + 1) % 0x80_0000 == 0;
      if e > 0 {
        Distribute(0x80_0000 + m, 1, Pow2(e - 1));
        assert 0x80_0000 * Pow2(e) == 2 * 0x80_0000 * Pow2(e - 1);
      }
    }
  }

  lemma Monotone32(a: nat, b: nat)
    requires a <= b
    ensures Value32(a) <= Value32(b)
    decreases b
  {
    if a < b {
      Monotone32(a, b - 1);
      Successor32(b - 1);
    }
  }

  /** The low 13 bits of a binary32 pattern interpolate between two binary16 patterns. */
  lemma Interpolate(h: nat, j: nat)
    requires j <= 0x2000
    ensures Value32(0x2000 * h + j) == 0x2000 * Value16(h) + j * (if h < 0x400 then 1 else Pow2(h / 0x400 - 1))
    decreases j
  {
    var e, m := h / 0x400, h % 0x400;
    if j == 0 {
      assert (0x2000 * h) / 0x80_0000 == e && (0x2000 * h) % 0x80_0000 == 0x2000 * m;
      if e > 0 {
        Associate(0x2000, 0x400 + m, Pow2(e - 1));
      }
    } else {
      Interpolate(h, j - 1);
      Successor32(0x2000 * h + (j - 1));
      assert (0x2000 * h + (j - 1)) / 0x80_0000 == e;
      Distribute(j - 1, 1, if h < 0x400 then 1 else Pow2(e - 1));
    }
  }

  lemma Aligned(h: nat)
    ensures Value32(0x2000 * h) == 0x2000 * Value16(h)
  {
    Interpolate(h, 0);
  }

  /** The pattern half way between two neighbouring binary16 patterns has the value half way between theirs. */
  lemma Midpoint(h: nat)
    ensures 2 * Value32(0x2000 * h + 0x1000) == 0x2000 * (Value16(h) + Value16(h + 1))
  {
    Interpolate(h, 0x1000);
    Interpolate(h, 0x2000);
    Aligned(h + 1);
  }

  lemma Monotone16(g: nat, h: nat)
    requires g <= h
    ensures Value16(g) <= Value16(h)
  {
    Aligned(g);
    Aligned(h);
    Monotone32(0x2000 * g, 0x2000 * h);
  }

  // ---------------------------------------------------------------- the product with 2^-112

  /** n / d rounded to the nearest integer, ties to even. */
  function RoundHalfEven(n: nat, d: nat): nat
    requires d > 0
  {
    var q, r := n / d, n % d;
    if 2 * r < d || (2 * r == d && q % 2 == 0) then q else q + 1
  }

  /** The binary32 product of a finite non-negative number and 2^-112, the `magic` of packing. */
  function TimesMagic(b: nat): nat {
    if b >= 113 * 0x80_0000 then b - 112 * 0x80_0000 else RoundHalfEven(Value32(b), TWO_112)
  }

  lemma ScaleDown(b: nat, k: nat)
    requires b >= (k + 1) * 0x80_0000
    ensures Value32(b) == Value32(b - k * 0x80_0000) * Pow2(k)
  {
    var e, m := b / 0x80_0000, b % 0x80_0000;
    assert (b - k * 0x80_0000) / 0x80_0000 == e - k && (b - k * 0x80_0000) % 0x80_0000 == m;
    Pow2Add(e - 1 - k, k);
    Associate(0x80_0000 + m, Pow2(e - 1 - k), Pow2(k));
  }

  /** Up to the first normal binade a pattern is its own value. */
  lemma SmallValue(b: nat)
    requires b < 0x100_0000
    ensures Value32(b) == b
  {
    assert Pow2(0) == 1;
  }

  function Abs(x: int): nat {
    if x < 0 then -x else x
  }

  lemma Multiples(k: int, d: nat)
    ensures k >= 1 ==> k * d >= d
    ensures k >= 2 ==> k * d >= 2 * d
    ensures k <= -1 ==> k * d <= -(d as int)
  {
  }

  lemma RoundedNearest(n: nat, d: nat, z: int)
    requires d > 0
    ensures Abs(RoundHalfEven(n, d) * d - n) <= Abs(z * d - n)
    ensures z != RoundHalfEven(n, d) && Abs(z * d - n) == Abs(RoundHalfEven(n, d) * d - n)
      ==> RoundHalfEven(n, d) % 2 == 0
  {
    var q, r := n / d, n % d;
    var k := z - q;
    assert n == q * d + r;
    assert z * d == q * d + k * d by {
      Distribute(q, k, d);
    }
    assert (q + 1) * d == q * d + d;
    Multiples(k, d);
  }

  /** TimesMagic is the correctly rounded product: no binary32 is nearer, and a tie goes to the even pattern. */
  lemma ProductRounded(b: nat, y: nat)
    requires b < F32_INF
    ensures Abs(Value32(TimesMagic(b)) * TWO_112 - Value32(b)) <= Abs(Value32(y) * TWO_112 - Value32(b))
    ensures y != TimesMagic(b)
      && Abs(Value32(y) * TWO_112 - Value32(b)) == Abs(Value32(TimesMagic(b)) * TWO_112 - Value32(b))
      ==> TimesMagic(b) % 2 == 0
  {
    var d := TWO_112;
    if b >= 113 * 0x80_0000 {
      ScaleDown(b, 112);
      Power112(112);
      if y != TimesMagic(b) {
        Distinct32(y, TimesMagic(b));
        Multiples(Value32(y) - Value32(TimesMagic(b)), d);
        Distribute(Value32(TimesMagic(b)), Value32(y) - Value32(TimesMagic(b)), d);
      }
    } else {
      RoundedNearest(Value32(b), d, Value32(y));
      QuotientBound(b);
      SmallValue(TimesMagic(b));
      if y != TimesMagic(b) {
        Distinct32(y, TimesMagic(b));
      }
    }
  }

  lemma Distinct32(a: nat, b: nat)
    requires a != b
    ensures Value32(a) != Value32(b)
  {
    if a < b {
      Monotone32(a + 1, b);
      Successor32(a);
    } else {
      Monotone32(b + 1, a);
      Successor32(b);
    }
  }

  /** The product of a number below 2^-14 is a subnormal binary32, or just the smallest normal one. */
  lemma QuotientBound(b: nat)
    requires b < 113 * 0x80_0000
    ensures Value32(b) < 0x80_0000 * TWO_112
    ensures TimesMagic(b) <= 0x80_0000
  {
    BinadeBound(b, 112);
    Power112(112);
    DivBound(Value32(b), TWO_112, 0x80_0000);
  }

  lemma BinadeBound(b: nat, k: nat)
    requires b < (k + 1) * 0x80_0000
    ensures Value32(b) < 0x80_0000 * Pow2(k)
  {
    var t := (k + 1) * 0x80_0000;
    Monotone32(b, t - 1);
    Successor32(t - 1);
    assert t / 0x80_0000 == k + 1 && t % 0x80_0000 == 0;
  }

  lemma DivBound(n: nat, d: nat, c: nat)
    requires d > 0 && n < c * d
    ensures n / d < c
  {
    assert n == d * (n / d) + n % d;
    Multiples(n / d - c + 1, d);
    Distribute(n / d - c, c, d);
  }

  // ---------------------------------------------------------------- packing

  /** nunavutFloat16Pack on the pattern without its sign. */
  function PackMagnitude(b: nat): nat
    requires b < 0x8000_0000
  {
    if b >= F32_INF then
      if b % 0x80_0000 != 0 then 0x7E00 else if b > F32_INF then 0x7FFF else 0x7C00
    else
      Biased(TimesMagic(b - b % 0x1000))
  }

  /** The second half of packing: half a unit in the last place is added by subtracting the rounding mask modulo 2^32. */
  function Biased(product: nat): nat {
    var biased := (product + 0x1_0000_0000 - ROUND_MASK) % 0x1_0000_0000;
    var clamped := if biased > 31 * 0x80_0000 then 31 * 0x80_0000 else biased;
    clamped / 0x2000
  }

  lemma BiasedValue(product: nat)
    requires product < 0x8000_0000
    ensures var h := Biased(product);
      h <= F16_INF && (h > 0 ==> 0x2000 * (h - 1) + 0x1000 <= product) && (h < F16_INF ==> product < 0x2000 * h + 0x1000)
  {
    var t := product + 0x1000;
    assert (product + 0x1_0000_0000 - ROUND_MASK) % 0x1_0000_0000 == t;
    assert t == 0x2000 * (t / 0x2000) + t % 0x2000;
  }

  /** `h` is the binary16 that roundTiesToAway assigns to `x` units of 2^-149 (IEEE 754-2019, section 4.3.1): `x` is at
      least half way up from the number before `h` and less than half way to the number after it. */
  ghost predicate RoundsTo(x: nat, h: nat) {
    && h <= F16_INF
    && (h > 0 ==> Wide16(h - 1) + Wide16(h) <= 2 * x)
    && (h < F16_INF ==> 2 * x < Wide16(h) + Wide16(h + 1))
  }

  /** The value of a non-negative binary16 in the units of binary32. */
  function Wide16(h: nat): nat {
    Value16(h) * (0x2000 * TWO_112)
  }

  lemma WideMonotone(g: nat, h: nat)
    requires g <= h
    ensures Wide16(g) <= Wide16(h)
  {
    Monotone16(g, h);
    ScaleMonotone(Value16(g), Value16(h), 0x2000 * TWO_112);
  }

  lemma Power112(k: nat)
    requires k == 112
    ensures Pow2(k) == TWO_112
  {
    SmallPowers(k / 16);
    Square(k / 16, 0x80);
    Square(k / 8, 0x4000);
    Square(k / 4, 0x1000_0000);
    Square(k / 2, 0x100_0000_0000_0000);
  }

  lemma Square(k: nat, p: nat)
    requires Pow2(k) == p
    ensures Pow2(2 * k) == p * p
  {
    Pow2Add(k, k);
  }

  lemma Threshold(h: nat)
    ensures Wide16(h) + Wide16(h + 1) == 2 * (Value32(0x2000 * h + 0x1000) * TWO_112)
  {
    var v := Value16(h) + Value16(h + 1);
    Midpoint(h);
    Pow2Add(13, 112);
    assert Pow2(13) == 0x2000;
    Associate(v, 0x2000, TWO_112);
    Distribute(Value16(h), Value16(h + 1), 0x2000 * TWO_112);
    Associate(2, Value32(0x2000 * h + 0x1000), TWO_112);
  }

  lemma AboveThreshold(c: nat, h: nat)
    requires 0x2000 * h + 0x1000 <= c
    ensures Wide16(h) + Wide16(h + 1) <= 2 * (Value32(c) * TWO_112)
  {
    Threshold(h);
    Monotone32(0x2000 * h + 0x1000, c);
    ScaleMonotone(Value32(0x2000 * h + 0x1000), Value32(c), TWO_112);
  }

  lemma BelowThreshold(c: nat, h: nat)
    requires c < 0x2000 * h + 0x1000
    ensures 2 * (Value32(c) * TWO_112) < Wide16(h) + Wide16(h + 1)
  {
    Threshold(h);
    Monotone32(c + 1, 0x2000 * h + 0x1000);
    Successor32(c);
    ScaleStrict(Value32(c), Value32(0x2000 * h + 0x1000), TWO_112);
  }

  lemma ScaleStrict(a: int, b: int, d: nat)
    requires a < b && d > 0
    ensures a * d < b * d
  {
    Distribute(a, b - a, d);
    Multiples(b - a, d);
  }

  /** Between two neighbouring thresholds, stated on patterns. */
  lemma BetweenThresholds(c: nat, h: nat)
    requires h <= F16_INF
    requires h > 0 ==> 0x2000 * (h - 1) + 0x1000 <= c
    requires h < F16_INF ==> c < 0x2000 * h + 0x1000
    ensures RoundsTo(Value32(c) * TWO_112, h)
  {
    if h > 0 {
      AboveThreshold(c, h - 1);
    }
    if h < F16_INF {
      BelowThreshold(c, h);
    }
  }

  lemma MaskKeepsSide(c: nat, t: nat)
    requires t % 0x1000 == 0
    ensures c - c % 0x1000 < t <==> c < t
  {
  }

  lemma MaskedProduct(b: nat)
    requires 113 * 0x80_0000 <= b
    ensures var c := b - 112 * 0x80_0000; TimesMagic(b - b % 0x1000) == c - c % 0x1000
  {
    MaskKeepsSide(b, 113 * 0x80_0000);
    assert (b - 112 * 0x80_0000) % 0x1000 == b % 0x1000;
  }

  /** Numbers from 2^-14 on: the product is exact and the threshold comparison is one of patterns. */
  lemma PackNormal(b: nat)
    requires 113 * 0x80_0000 <= b < F32_INF
    ensures RoundsTo(Value32(b), PackMagnitude(b))
  {
    hide Pow2, Value32, RoundsTo, Biased;
    var c := b - 112 * 0x80_0000;
    MaskedProduct(b);
    PatternSides(c);
    ScaleDown(b, 112);
    Power112(112);
    BetweenThresholds(c, Biased(c - c % 0x1000));
  }

  lemma PatternSides(c: nat)
    requires c < 0x8000_0000
    ensures var h := Biased(c - c % 0x1000);
      h <= F16_INF && (h > 0 ==> 0x2000 * (h - 1) + 0x1000 <= c) && (h < F16_INF ==> c < 0x2000 * h + 0x1000)
  {
    BiasedValue(c - c % 0x1000);
    MaskKeepsSide(c, 0x2000 * Biased(c - c % 0x1000) + 0x1000);
  }

  /** Between two neighbouring thresholds below 2^-14, where patterns are their own values. */
  lemma BelowSmallest(x: nat, h: nat)
    requires h <= 0x400
    requires h > 0 ==> (0x2000 * (h - 1) + 0x1000) * TWO_112 <= x
    requires x < (0x2000 * h + 0x1000) * TWO_112
    ensures RoundsTo(x, h)
  {
    if h > 0 {
      Threshold(h - 1);
      SmallValue(0x2000 * (h - 1) + 0x1000);
    }
    Threshold(h);
    SmallValue(0x2000 * h + 0x1000);
  }

  /** Numbers below 2^-14: the product may itself be rounded, but only where the result is zero. */
  lemma PackSubnormal(b: nat)
    requires b < 113 * 0x80_0000
    ensures RoundsTo(Value32(b), PackMagnitude(b))
  {
    var q := TimesMagic(b - b % 0x1000);
    QuotientBound(b - b % 0x1000);
    BiasedValue(q);
    if b < 101 * 0x80_0000 {
      TinyProduct(b);
    } else {
      var u, g := ExactProduct(b);
      ExactSides(Value32(b), q, u, g, Biased(q));
    }
    BelowSmallest(Value32(b), Biased(q));
  }

  lemma ExactSides(x: nat, q: nat, u: nat, g: nat, h: nat)
    requires 0 < g && 0x1000 % g == 0 && q == u * g
    requires q * TWO_112 <= x < (q + g) * TWO_112
    requires h > 0 ==> 0x2000 * (h - 1) + 0x1000 <= q
    requires q < 0x2000 * h + 0x1000
    ensures h > 0 ==> (0x2000 * (h - 1) + 0x1000) * TWO_112 <= x
    ensures x < (0x2000 * h + 0x1000) * TWO_112
  {
    var k := 0x1000 / g;
    assert k * g == 0x1000;
    Associate(2 * h + 1, k, g);
    Multiple(u, (2 * h + 1) * k, g);
  }

  lemma TinyBinade(e: nat)
    requires e == 101
    ensures 0x1000 * Pow2(e - 1) == TWO_112
  {
    GridUnit(e);
    assert Pow2(e - 101) == 1;
  }

  lemma TinyProduct(b: nat)
    requires b < 101 * 0x80_0000
    ensures Value32(b) < 0x800 * TWO_112 && TimesMagic(b - b % 0x1000) <= 0x800
  {
    var masked := b - b % 0x1000;
    TinyBinade(101);
    BinadeBound(b, 100);
    Monotone32(masked, b);
    DivBound(Value32(masked), TWO_112, 0x800);
  }

  /** With at least 12 significant bits above 2^-37 nothing is lost: the product is u * g and masking loses less than g. */
  lemma ExactProduct(b: nat) returns (u: nat, g: nat)
    requires 101 * 0x80_0000 <= b < 113 * 0x80_0000
    ensures 0 < g <= 0x800 && 0x1000 % g == 0
    ensures TimesMagic(b - b % 0x1000) == u * g
    ensures (u * g) * TWO_112 <= Value32(b) < (u * g + g) * TWO_112
  {
    var e, m := b / 0x80_0000, b % 0x80_0000;
    u, g := (0x80_0000 + m) / 0x1000, Pow2(e - 101);
    SmallPowers(e - 101);
    MaskedValue(b, u);
    GridUnit(e);
    GridValues(u, m % 0x1000, Pow2(e - 1), g);
    DivModUnique(Value32(b - b % 0x1000), TWO_112, u * g, 0);
  }

  lemma MaskedValue(b: nat, u: nat)
    requires b >= 0x80_0000 && u == (0x80_0000 + b % 0x80_0000) / 0x1000
    ensures Value32(b) == (0x1000 * u + (b % 0x80_0000) % 0x1000) * Pow2(b / 0x80_0000 - 1)
    ensures Value32(b - b % 0x1000) == (0x1000 * u) * Pow2(b / 0x80_0000 - 1)
  {
    hide Pow2;
    var m := b % 0x80_0000;
    MaskedParts(b, b / 0x80_0000, m);
    assert 0x1000 * u == 0x80_0000 + (m - m % 0x1000);
  }

  lemma MaskedParts(b: nat, e: nat, m: nat)
    requires b == 0x80_0000 * e + m && m < 0x80_0000
    ensures b % 0x1000 == m % 0x1000
    ensures (b - b % 0x1000) / 0x80_0000 == e && (b - b % 0x1000) % 0x80_0000 == m - m % 0x1000
  {
    DivModUnique(b, 0x1000, 0x800 * e + m / 0x1000, m % 0x1000);
    DivModUnique(b - b % 0x1000, 0x80_0000, e, m - m % 0x1000);
  }

  lemma GridUnit(e: nat)
    requires 101 <= e
    ensures 0x1000 * Pow2(e - 1) == Pow2(e - 101) * TWO_112
  {
    Pow2Add(12, e - 1);
    Pow2Add(e - 101, 112);
    Power112(112);
    assert Pow2(12) == 0x1000;
  }

  lemma GridValues(u: nat, low: nat, p: nat, g: nat)
    requires low < 0x1000 && 0x1000 * p == g * TWO_112 && p > 0
    ensures (0x1000 * u) * p == TWO_112 * (u * g)
    ensures (u * g) * TWO_112 <= (0x1000 * u + low) * p < (u * g + g) * TWO_112
  {
    Associate(u, 0x1000, p);
    Associate(u, g, TWO_112);
    Distribute(0x1000 * u, low, p);
    ScaleStrict(low, 0x1000, p);
    ScaleMonotone(0, low, p);
  }

  lemma SmallPowers(k: nat)
    requires k < 12
    ensures Pow2(k) == [1, 2, 4, 8, 16, 32, 64, 128, 256, 512, 1024, 2048][k]
  {
  }

  /** Distinct multiples of g are at least g apart. */
  lemma Multiple(a: int, b: int, g: nat)
    ensures a * g < b * g ==> a * g + g <= b * g
  {
    if a >= b {
      ScaleMonotone(b, a, g);
    } else {
      ScaleMonotone(a + 1, b, g);
      Distribute(a, 1, g);
    }
  }

  lemma ScaleMonotone(a: int, b: int, d: nat)
    requires a <= b
    ensures a * d <= b * d
  {
  }

  // ---------------------------------------------------------------- what packing promises

  /** Every finite number is rounded to the nearest binary16, ties away from zero; from 65520 on that is infinity. */
  lemma PackRounds(b: nat)
    requires b < F32_INF
    ensures RoundsTo(Value32(b), PackMagnitude(b))
  {
    if b < 113 * 0x80_0000 {
      PackSubnormal(b);
    } else {
      PackNormal(b);
    }
  }

  lemma WideStrict(h: nat)
    ensures Wide16(h) < Wide16(h + 1)
  {
    Aligned(h);
    Aligned(h + 1);
    Distinct32(0x2000 * h, 0x2000 * (h + 1));
    Monotone16(h, h + 1);
    ScaleStrict(Value16(h), Value16(h + 1), 0x2000 * TWO_112);
  }

  lemma NearerThanLower(x: int, a: int, l: int, b: int)
    requires b <= l <= a && l + a <= 2 * x
    ensures Abs(x - a) <= Abs(x - b)
  {
  }

  lemma NearerThanUpper(x: int, a: int, u: int, b: int)
    requires a < u <= b && 2 * x < a + u
    ensures Abs(x - a) < Abs(x - b)
  {
  }

  /** The rounding rule in terms of distance: nothing is nearer, and at equal distance the result is the larger. */
  lemma RoundsToNearest(x: nat, h: nat, g: nat)
    requires RoundsTo(x, h) && g <= F16_INF && g != h
    ensures Abs(x - Wide16(h)) <= Abs(x - Wide16(g))
    ensures Abs(x - Wide16(h)) == Abs(x - Wide16(g)) ==> g < h
  {
    if g < h {
      WideMonotone(g, h - 1);
      WideMonotone(h - 1, h);
      NearerThanLower(x, Wide16(h), Wide16(h - 1), Wide16(g));
    } else {
      WideMonotone(h + 1, g);
      WideStrict(h);
      NearerThanUpper(x, Wide16(h), Wide16(h + 1), Wide16(g));
    }
  }

  /** Only one binary16 satisfies the rule, so it determines the result. */
  lemma RoundingUnique(x: nat, y: nat, g: nat, h: nat)
    requires RoundsTo(x, g) && RoundsTo(y, h) && x <= y
    ensures g <= h
  {
    if h < g {
      WideMonotone(h + 1, g);
      WideMonotone(h, g - 1);
    }
  }

  lemma PackMonotone(a: nat, b: nat)
    requires a <= b <= F32_INF
    ensures PackMagnitude(a) <= PackMagnitude(b)
  {
    if a < F32_INF {
      PackRounds(a);
      if b < F32_INF {
        PackRounds(b);
        Monotone32(a, b);
        RoundingUnique(Value32(a), Value32(b), PackMagnitude(a), PackMagnitude(b));
      }
    }
  }

  // ---------------------------------------------------------------- unpacking

  /** How far a significand must be shifted up to its place. */
  function LeadingShift(n: nat): (s: nat)
    requires 0 < n < 0x100_0000
    ensures 0x80_0000 <= n * Pow2(s) < 0x100_0000 && s < 24
    decreases 0x100_0000 - n
  {
    if n >= 0x80_0000 then 0
    else
      var s := LeadingShift(2 * n);
      Associate(n, 2, Pow2(s));
      ShiftBound(n, s + 1);
      s + 1
  }

  lemma ShiftBound(n: nat, s: nat)
    requires n > 0 && n * Pow2(s) < 0x100_0000
    ensures s < 24
  {
    ScaleMonotone(1, n, Pow2(s));
    if s >= 24 {
      Pow2Add(12, 12);
      SmallPowers(11);
      Pow2Monotone(24, s);
      assert false;
    }
  }

  /** The binary32 product of 2^112, the `magic` of unpacking, and a number below 2^-117: always exact. */
  function UnpackMagic(c: nat): nat
    requires c < 32 * 0x80_0000
  {
    if c >= 0x80_0000 then c + 112 * 0x80_0000
    else if c == 0 then 0
    else
      var s := LeadingShift(c);
      (113 - s) * 0x80_0000 + (c * Pow2(s) - 0x80_0000)
  }

  lemma UnpackExact(c: nat)
    requires c < 32 * 0x80_0000
    ensures Value32(UnpackMagic(c)) == Value32(c) * TWO_112
    ensures c >= 31 * 0x80_0000 <==> UnpackMagic(c) >= 0x8F * 0x80_0000
  {
    Power112(112);
    if c >= 0x80_0000 {
      ScaleDown(c + 112 * 0x80_0000, 112);
    } else if c > 0 {
      var s := LeadingShift(c);
      var b := UnpackMagic(c);
      assert b / 0x80_0000 == 113 - s && b % 0x80_0000 == c * Pow2(s) - 0x80_0000;
      Pow2Add(s, 112 - s);
      Associate(c, Pow2(s), Pow2(112 - s));
    }
  }

  /** nunavutFloat16Unpack on the pattern without its sign; from 2^16 on the exponent is filled with ones. */
  function UnpackMagnitude(h: nat): nat
    requires h < 0x8000
  {
    var out := UnpackMagic(h * 0x2000);
    if out >= 0x8F * 0x80_0000 then F32_INF + out % 0x80_0000 else out
  }

  /** Unpacking keeps the value of every finite number. */
  lemma UnpackValue(h: nat)
    requires h < F16_INF
    ensures UnpackMagnitude(h) < F32_INF && Value32(UnpackMagnitude(h)) == Wide16(h)
  {
    UnpackExact(h * 0x2000);
    Aligned(h);
    Associate(Value16(h), 0x2000, TWO_112);
  }

  /** Packing undoes unpacking, and every NaN comes back as the one quiet NaN. */
  lemma PackUnpackMagnitude(h: nat)
    requires h < 0x8000
    ensures PackMagnitude(UnpackMagnitude(h)) == if h <= F16_INF then h else 0x7E00
  {
    if h < F16_INF {
      var b := UnpackMagnitude(h);
      UnpackValue(h);
      PackRounds(b);
      Exact(h);
      RoundingUnique(Wide16(h), Wide16(h), PackMagnitude(b), h);
      RoundingUnique(Wide16(h), Wide16(h), h, PackMagnitude(b));
    } else {
      UnpackInfinite(h);
    }
  }

  lemma UnpackInfinite(h: nat)
    requires F16_INF <= h < 0x8000
    ensures UnpackMagnitude(h) == F32_INF + 0x2000 * (h - F16_INF)
  {
    assert UnpackMagic(h * 0x2000) == h * 0x2000 + 112 * 0x80_0000;
    assert h * 0x2000 + 112 * 0x80_0000 == 0x8F * 0x80_0000 + 0x2000 * (h - F16_INF);
  }

  lemma Exact(h: nat)
    requires h < F16_INF
    ensures RoundsTo(Wide16(h), h)
  {
    WideStrict(h);
    if h > 0 {
      WideMonotone(h - 1, h);
    }
  }

  // ---------------------------------------------------------------- with the sign

  /** nunavutFloat16Pack: the sign bit is taken off, and put back on the result. */
  function Pack16(bits: u32): (r: u16) {
    var sign := if bits >= 0x8000_0000 then 0x8000_0000 else 0;
    PackBound(bits - sign);
    PackMagnitude(bits - sign) + sign / 0x1_0000
  }

  lemma PackBound(b: nat)
    requires b < 0x8000_0000
    ensures PackMagnitude(b) < 0x8000
  {
  }

  /** nunavutFloat16Unpack. */
  function Unpack16(h: u16): (r: u32) {
    var sign := if h >= 0x8000 then 0x8000 else 0;
    UnpackBound(h - sign);
    UnpackMagnitude(h - sign) + sign * 0x1_0000
  }

  lemma UnpackBound(h: nat)
    requires h < 0x8000
    ensures UnpackMagnitude(h) < 0x8000_0000
  {
  }

  predicate IsNaN16(h: u16) { h % 0x8000 > F16_INF }

  lemma PackSigned(m: nat, negative: bool)
    requires m < 0x8000_0000
    ensures Pack16(m + if negative then 0x8000_0000 else 0) == PackMagnitude(m) + if negative then 0x8000 else 0
  {
  }

  lemma UnpackSigned(m: nat, negative: bool)
    requires m < 0x8000
    ensures UnpackMagnitude(m) < 0x8000_0000
    ensures Unpack16(m + if negative then 0x8000 else 0) == UnpackMagnitude(m) + if negative then 0x8000_0000 else 0
  {
    UnpackBound(m);
  }

  predicate IsNaN32(x: u32) { x % 0x8000_0000 > F32_INF }

  /** Packing keeps the sign, and makes a NaN of the NaNs and of nothing else. */
  lemma PackSpecial(x: u32)
    ensures Pack16(x) >= 0x8000 <==> x >= 0x8000_0000
    ensures IsNaN16(Pack16(x)) <==> IsNaN32(x)
    ensures x % 0x8000_0000 == F32_INF ==> Pack16(x) % 0x8000 == F16_INF
  {
    hide Value32, Wide16, Biased, TimesMagic, RoundsTo;
    var m := x % 0x8000_0000;
    PackSigned(m, x >= 0x8000_0000);
    PackBound(m);
    if m < F32_INF {
      PackMagnitudeFinite(m);
    }
  }

  lemma PackMagnitudeFinite(m: nat)
    requires m < F32_INF
    ensures PackMagnitude(m) <= F16_INF
  {
    PackRounds(m);
  }

  /** Unpacking keeps the sign, and makes a NaN of the NaNs and an infinity of the infinities, and of nothing else. */
  lemma UnpackSpecial(h: u16)
    ensures Unpack16(h) >= 0x8000_0000 <==> h >= 0x8000
    ensures IsNaN32(Unpack16(h)) <==> IsNaN16(h)
    ensures Unpack16(h) % 0x8000_0000 == F32_INF <==> h % 0x8000 == F16_INF
  {
    hide UnpackMagnitude, UnpackMagic, Value32, Wide16;
    var m := h % 0x8000;
    UnpackSigned(m, h >= 0x8000);
    if m < F16_INF {
      UnpackValue(m);
    } else {
      UnpackInfinite(m);
    }
  }

  /** Pack16(Unpack16(h)) == h for every number and infinity, and for exactly one NaN of each sign. */
  lemma PackUnpack(h: u16)
    ensures Pack16(Unpack16(h)) == h <==> !IsNaN16(h) || h % 0x8000 == 0x7E00
    ensures IsNaN16(h) ==> Pack16(Unpack16(h)) % 0x8000 == 0x7E00
  {
    hide UnpackMagnitude, PackMagnitude, UnpackMagic, TimesMagic, Biased;
    var r := PackUnpackSigned(h % 0x8000, h >= 0x8000, h);
    assert r % 0x8000 == if h % 0x8000 <= F16_INF then h % 0x8000 else 0x7E00;
  }

  lemma PackUnpackSigned(m: nat, negative: bool, h: u16) returns (r: u16)
    requires m < 0x8000 && h == m + if negative then 0x8000 else 0
    ensures r == Pack16(Unpack16(h))
    ensures r == (if m <= F16_INF then m else 0x7E00) + if negative then 0x8000 else 0
  {
    var u := UnpackMagnitude(m);
    PackUnpackMagnitude(m);
    UnpackSigned(m, negative);
    var b := Unpack16(h);
    assert b == u + if negative then 0x8000_0000 else 0;
    r := Pack16(b);
    PackSigned(u, negative);
  }
}
