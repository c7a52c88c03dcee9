/**
  Sticky bits: an integer that stands for a fraction it rounds to odd, and why one
  final rounding to nearest of such an integer is the rounding of the fraction.
 */
module Rounding {
  import opened Words
  import opened Float64
  import opened TwoWords

  /** s is n/d exactly, or s is odd and n/d lies strictly within 1 of it. */
  ghost predicate Sticky(s: int, n: int, d: nat) {
    s * d == n || (s % 2 == 1 && (s - 1) * d < n < (s + 1) * d)
  }

  /** A sticky shift of a sticky integer is sticky for the shifted fraction. */
  lemma StickyShift(s: nat, n: int, d: nat, k: nat)
    requires d > 0 && Sticky(s, n, d)
    ensures Sticky(StickyShr(s, k), n, d * Pow2(k))
  {
    hide *;
    var t, b := StickyParts(s, k);
    if b == 0 {
      StickyExact(s, t, Pow2(k), n, d);
    } else {
      StickyLossy(s, t, b, Pow2(k), n, d);
    }
  }

  lemma StickyParts(s: nat, k: nat) returns (t: nat, b: nat)
    ensures s == t * Pow2(k) + b && b < Pow2(k)
    ensures StickyShr(s, k) == if b == 0 then t else MakeOdd(t)
    ensures b == 0 ==> Pow2(k) == 1 || s % 2 == 0
  {
    t, b := Div(s, Pow2(k)), s % Pow2(k);
    EvenMultiple(t, k);
  }

  lemma StickyExact(s: nat, t: nat, p: nat, n: int, d: nat)
    requires s == t * p && (p == 1 || s % 2 == 0) && Sticky(s, n, d)
    ensures Sticky(t, n, d * p)
  {
    assert t * (d * p) == (t * p) * d;
  }

  lemma StickyLossy(s: nat, t: nat, b: nat, p: nat, n: int, d: nat)
    requires s == t * p + b && 0 < b < p && d > 0 && Sticky(s, n, d)
    ensures Sticky(MakeOdd(t), n, d * p)
  {
    var u := MakeOdd(t);
    LowerSticky(u - 1, t, p, s, d);
    UpperSticky(u + 1, t, p, s, d, b);
    MulStrict(s - 1, s, d);
    MulStrict(s, s + 1, d);
  }

  lemma EvenMultiple(t: nat, k: nat)
    ensures k > 0 ==> (t * Pow2(k)) % 2 == 0
    ensures k == 0 ==> Pow2(k) == 1
  {
    if k > 0 {
      EvenProduct(t, Pow2(k - 1));
    }
  }

  lemma EvenProduct(t: nat, g: nat)
    ensures (t * (2 * g)) % 2 == 0
  {
    Assoc(t, 2, g); Comm(t, 2); Assoc(2, t, g);
    var h := t * g;
    assert (2 * h) % 2 == 0;
  }

  lemma LowerSticky(u: int, t: nat, p: nat, s: nat, d: nat)
    requires u <= t && t * p <= s - 1
    ensures u * (d * p) <= (s - 1) * d
  {
    MulMono(u, t, d * p);
    assert t * (d * p) == (t * p) * d;
    MulMono(t * p, s - 1, d);
  }

  lemma UpperSticky(u: int, t: nat, p: nat, s: nat, d: nat, b: nat)
    requires u >= t + 1 && s == t * p + b && b < p
    ensures (s + 1) * d <= u * (d * p)
  {
    MulMono(t + 1, u, d * p);
    assert (t + 1) * (d * p) == (t * p + p) * d;
    MulMono(s + 1, t * p + p, d);
  }

  lemma StickyScale(s: int, n: int, d: nat, k: nat)
    requires k > 0 && Sticky(s, n, d)
    ensures Sticky(s, n * k, d * k)
  {
    Assoc(s, d, k); Assoc(s - 1, d, k); Assoc(s + 1, d, k);
    if s * d != n {
      MulStrict((s - 1) * d, n, k);
      MulStrict(n, (s + 1) * d, k);
    }
  }

  /** Adding an even integer, or subtracting from one, keeps the sticky relation. */
  lemma StickyAdd(p: nat, s: nat, n: int, d: nat)
    requires p % 2 == 0 && Sticky(s, n, d)
    ensures Sticky(p + s, p * d + n, d)
    ensures Sticky(p - s, p * d - n, d)
  {
    Dist(p, s, d); Dist(p, 0 - s, d);
    Dist(p, s - 1, d); Dist(p, s + 1, d);
    Dist(p, -(s - 1), d); Dist(p, -(s + 1), d);
    NegMul(s, d); NegMul(s - 1, d); NegMul(s + 1, d);
  }

  lemma NegMul(a: int, d: int)
    ensures (-a) * d == -(a * d)
  {
  }

  /** Against an even integer, a sticky integer compares as its fraction does. */
  lemma StickyCompare(s: nat, n: int, d: nat, k: nat)
    requires d > 0 && Sticky(s, n, d) && k % 2 == 0
    ensures s < k ==> n < k * d
    ensures s > k ==> n > k * d
    ensures s == k ==> n == k * d
  {
    if s < k { MulMono(s + 1, k, d); MulStrict(s, k, d); }
    if s > k { MulMono(k, s - 1, d); MulStrict(k, s, d); }
  }

  // ---- The last ten bits ----

  // m/1024 to nearest, ties to even, as the source computes it.
  function RoundTen(m: u64): u64
    requires m + 512 < W
  {
    AndNotOne(Shr64(m + 512, 10));
    BitAndNot(Shr64(m + 512, 10), Zero(BitXor(LowBits(m, 10), 512)))
  }

  lemma RoundTenValue(m: u64)
    requires m + 512 < W
    ensures var r := RoundTen(m);
      && 1024 * r - 512 <= m <= 1024 * r + 512
      && (m == 1024 * r - 512 || m == 1024 * r + 512 ==> r % 2 == 0)
  {
    Pow2Values();
    hide Pow2;
    assert Shr64(m + 512, 10) == (m + 512) / 1024 && LowBits(m, 10) == m % 1024;
    hide Shr64, LowBits;
    XorZero(m % 1024, 512);
    AndNotOne((m + 512) / 1024);
    assert BitAndNot((m + 512) / 1024, 0) == (m + 512) / 1024;
    hide BitXor, BitAndNot;
  }

  // ---- From a sticky significand to the nearest float ----

  const UNIT: nat := 1365

  // m stands for the magnitude a / 2^1375, at exponent pe.
  ghost predicate Represents(m: nat, pe: int, a: nat) {
    pe + UNIT >= 0 && Sticky(m, a, Pow2(pe + UNIT))
  }

  lemma UnitSplit(pe: nat)
    ensures 1024 * Pow2(pe + UNIT) == Pow2(pe) * Pow2(1375)
  {
    Pow2Add(pe, 1375);
    Pow2Add(10, pe + UNIT);
    Pow2Values();
  }

  /** Comparing a with a multiple of half a unit in the last place is comparing m
      with a multiple of 512. */
  lemma CompareHalfUlps(m: nat, pe: nat, a: nat, h: nat)
    requires Represents(m, pe, a)
    ensures m < 512 * h ==> 2 * a < (h * Pow2(pe)) * Pow2(1375)
    ensures m > 512 * h ==> 2 * a > (h * Pow2(pe)) * Pow2(1375)
    ensures m == 512 * h ==> 2 * a == (h * Pow2(pe)) * Pow2(1375)
  {
    hide Pow2, Sticky;
    UnitSplit(pe);
    CompareScaled(m, a, Pow2(pe + UNIT), Pow2(pe), Pow2(1375), h);
  }

  lemma CompareScaled(m: nat, a: nat, d: nat, g: nat, e: nat, h: nat)
    requires d > 0 && Sticky(m, a, d) && 1024 * d == g * e
    ensures m < 512 * h ==> 2 * a < (h * g) * e
    ensures m > 512 * h ==> 2 * a > (h * g) * e
    ensures m == 512 * h ==> 2 * a == (h * g) * e
  {
    hide Sticky;
    StickyCompare(m, a, d, 512 * h);
    HalfUlpAlgebra(h, g, e, d);
  }

  lemma HalfUlpAlgebra(h: nat, g: nat, e: nat, d: nat)
    requires 1024 * d == g * e
    ensures (h * g) * e == 2 * ((512 * h) * d)
  {
    Assoc(h, g, e);
    Assoc(512, h, d);
    Comm(1024, d); Assoc(h, d, 1024);
  }

  lemma CompareMidpoint(m: nat, pe: nat, a: nat, h: nat, sum: nat, b: nat)
    requires Represents(m, pe, a) && sum == h * Pow2(pe)
    requires m == 512 * h ==> b % 2 == 0
    ensures m >= 512 * h ==> AtLeast(2 * a, sum * Pow2(1375), b)
    ensures m <= 512 * h ==> AtLeast(sum * Pow2(1375), 2 * a, b)
  {
    hide Represents, Pow2;
    CompareHalfUlps(m, pe, a, h);
  }

  /** The normal range: significand r at exponent pe. */
  lemma NormalNearest(m: u64, pe: nat, a: nat)
    requires 1024 * FRAC <= m < 2048 * FRAC && Represents(m, pe, a)
    requires pe * FRAC + RoundTen(m) <= INF
    ensures NearestEven(pe * FRAC + RoundTen(m), a, Pow2(1375))
  {
    hide Represents, Pow2, RoundTen, Val, NearestEven, AtLeast;
    var r := RoundTen(m);
    var b := pe * FRAC + r;
    RoundTenValue(m);
    Parity(pe, r);
    NormalLower(m, pe, a, r);
    NormalUpper(m, pe, a, r);
    MidpointsAreNearest(b, a, Pow2(1375));
  }

  lemma Parity(pe: nat, r: nat)
    ensures (pe * FRAC + r) % 2 == r % 2
  {
    assert pe * FRAC == 2 * (pe * 0x8_0000_0000_0000);
  }

  lemma SumDown(r: nat, g: nat)
    ensures r * g + (r * g - g) == (2 * r - 1) * g
    ensures r * g + (r * g + g) == (2 * r + 1) * g
  {
  }

  lemma NormalLower(m: nat, pe: nat, a: nat, r: nat)
    requires 1024 * FRAC <= m && Represents(m, pe, a)
    requires FRAC <= r <= 2 * FRAC && 1024 * r - 512 <= m
    requires m == 1024 * r - 512 ==> r % 2 == 0
    ensures var b := pe * FRAC + r;
      AtLeast(2 * a, (Val(b - 1) + Val(b)) * Pow2(1375), b)
  {
    hide Represents, Val, AtLeast;
    var b, g := pe * FRAC + r, Pow2(pe);
    Parity(pe, r);
    ValCompose(pe, r);
    ValStep(b - 1);
    if r > FRAC {
      GapCompose(pe, r - 1);
      hide Pow2;
      SumDown(r, g);
      CompareMidpoint(m, pe, a, 2 * r - 1, Val(b - 1) + Val(b), b);
    } else {
      // Just above a power of two the lower midpoint is closer, but m is no lower.
      hide Pow2;
      LowestSignificand(m, pe, a, Val(b - 1), b);
    }
  }

  lemma LowestSignificand(m: nat, pe: nat, a: nat, below: nat, b: nat)
    requires 1024 * FRAC <= m && Represents(m, pe, a)
    requires below < FRAC * Pow2(pe)
    ensures AtLeast(2 * a, (below + FRAC * Pow2(pe)) * Pow2(1375), b)
  {
    hide Represents, Pow2;
    CompareHalfUlps(m, pe, a, 2 * FRAC);
    Assoc(2, FRAC, Pow2(pe));
    AroundPower(a, FRAC * Pow2(pe), below, Pow2(1375));
  }

  lemma AroundPower(a: nat, x: nat, other: nat, e: nat)
    requires e > 0
    ensures other < x && 2 * a >= (2 * x) * e ==> 2 * a > (other + x) * e
    ensures other > x && 2 * a < (2 * x) * e ==> (x + other) * e > 2 * a
  {
    if other < x { MulStrict(other + x, 2 * x, e); }
    if other > x { MulStrict(2 * x, x + other, e); }
  }

  lemma NormalUpper(m: nat, pe: nat, a: nat, r: nat)
    requires m < 2048 * FRAC && Represents(m, pe, a)
    requires FRAC <= r <= 2 * FRAC && m <= 1024 * r + 512
    requires m == 1024 * r + 512 ==> r % 2 == 0
    ensures var b := pe * FRAC + r;
      AtLeast((Val(b) + Val(b + 1)) * Pow2(1375), 2 * a, b)
  {
    hide Represents, Val, AtLeast;
    var b, g := pe * FRAC + r, Pow2(pe);
    Parity(pe, r);
    ValCompose(pe, r);
    ValStep(b);
    if r < 2 * FRAC {
      GapCompose(pe, r);
      hide Pow2;
      SumDown(r, g);
      CompareMidpoint(m, pe, a, 2 * r + 1, Val(b) + Val(b + 1), b);
    } else {
      hide Pow2;
      HighestSignificand(m, pe, a, Val(b + 1), b);
    }
  }

  lemma HighestSignificand(m: nat, pe: nat, a: nat, above: nat, b: nat)
    requires m < 2048 * FRAC && Represents(m, pe, a)
    requires above > (2 * FRAC) * Pow2(pe)
    ensures AtLeast(((2 * FRAC) * Pow2(pe) + above) * Pow2(1375), 2 * a, b)
  {
    hide Represents, Pow2;
    CompareHalfUlps(m, pe, a, 4 * FRAC);
    Assoc(2, 2 * FRAC, Pow2(pe));
    AroundPower(a, (2 * FRAC) * Pow2(pe), above, Pow2(1375));
  }

  /** The subnormal range: the pattern is the significand. */
  lemma SubnormalNearest(m: u64, a: nat)
    requires m <= 1024 * FRAC && Represents(m, 0, a)
    ensures NearestEven(RoundTen(m), a, Pow2(1375))
  {
    hide Represents, RoundTen, AtLeast, NearestEven, Pow2, Val;
    var r := RoundTen(m);
    RoundTenValue(m);
    EvenMultiple(0, 0);
    assert r <= FRAC;
    ValSmall(r);
    ValSmall(r + 1);
    if r > 0 {
      ValSmall(r - 1);
      CompareMidpoint(m, 0, a, 2 * r - 1, Val(r - 1) + Val(r), r);
    }
    CompareMidpoint(m, 0, a, 2 * r + 1, Val(r) + Val(r + 1), r);
    MidpointsAreNearest(r, a, Pow2(1375));
  }

  /** Overflow: from half a unit past the largest float on, infinity is nearest. */
  lemma OverflowNearest(m: nat, pe: nat, a: nat)
    requires Represents(m, pe, a) && 1024 * FRAC <= m
    requires pe > 2045 || (pe == 2045 && m >= 2048 * FRAC - 512)
    ensures NearestEven(INF, a, Pow2(1375))
  {
    hide Represents, NearestEven, Pow2, Val, AtLeast;
    var sum := (4 * FRAC - 1) * Pow2(2045);
    LargestSum();
    if pe == 2045 {
      CompareMidpoint(m, 2045, a, 4 * FRAC - 1, sum, INF);
    } else {
      CompareHalfUlps(m, pe, a, 2 * FRAC);
      PastLargest(a, pe, sum);
    }
    MidpointsAreNearest(INF, a, Pow2(1375));
  }

  lemma LargestSum()
    ensures Val(INF - 1) + Val(INF) == (4 * FRAC - 1) * Pow2(2045)
  {
    hide Pow2, Val;
    var g := Pow2(2045);
    assert INF == 2045 * FRAC + 2 * FRAC && INF - 1 == 2045 * FRAC + (2 * FRAC - 1);
    ValCompose(2045, 2 * FRAC);
    ValCompose(2045, 2 * FRAC - 1);
    Dist(2 * FRAC, 2 * FRAC - 1, g);
  }

  lemma PastLargest(a: nat, pe: nat, sum: nat)
    requires pe > 2045 && 2 * a >= ((2 * FRAC) * Pow2(pe)) * Pow2(1375)
    requires sum == (4 * FRAC - 1) * Pow2(2045)
    ensures AtLeast(2 * a, sum * Pow2(1375), INF)
  {
    Pow2Le(2046, pe);
    assert Pow2(2046) == 2 * Pow2(2045);
    hide Pow2;
    BelowTwice(FRAC, Pow2(2045), Pow2(pe), sum);
    MulStrict(sum, (2 * FRAC) * Pow2(pe), Pow2(1375));
  }

  lemma BelowTwice(f: nat, g: nat, h: nat, sum: nat)
    requires g > 0 && h >= 2 * g && sum == (4 * f - 1) * g
    ensures sum < (2 * f) * h
  {
    Comm(2 * f, h);
    MulMono(2 * g, h, 2 * f);
    assert (2 * g) * (2 * f) == (4 * f) * g;
    MulStrict(4 * f - 1, 4 * f, g);
  }
}
