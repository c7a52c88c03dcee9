/**
  math.sqrt: the bit-by-bit square root and its final rounding.
 */
module Sqrt {
  import opened Words
  import opened Float64

  const NAN: u64 := 0x7FF8_0000_0000_0001

  // The square of the exact root of x, in the square of the unit 2^-1074.
  function SquaredRoot(x: nat): nat { Val(x) * Pow2(1074) }

  /** r is strictly closer to the exact root of x than any other pattern c.  With
      s the exact root, |Val(r) - s| < |Val(c) - s| says that s is on r's side of
      the midpoint (Val(r) + Val(c)) / 2, which is a comparison of squares. */
  ghost predicate NearestRoot(r: nat, x: nat) {
    r < INF &&
    forall c: nat :: c <= INF && c != r ==> OnSideOf(r, c, SquaredRoot(x))
  }

  predicate OnSideOf(r: nat, c: nat, s2: nat) {
    if r < c then 4 * s2 < (Val(r) + Val(c)) * (Val(r) + Val(c))
    else (Val(r) + Val(c)) * (Val(r) + Val(c)) < 4 * s2
  }

  /** NearestRoot in the words of the real numbers. */
  lemma NearestRootIsNearest(r: nat, c: nat, x: nat, s: real)
    requires NearestRoot(r, x) && c <= INF && c != r
    requires s >= 0.0 && s * s == SquaredRoot(x) as real
    ensures RealAbs(Val(r) as real - s) < RealAbs(Val(c) as real - s)
  {
    var a, b, q := Val(r), Val(c), SquaredRoot(x);
    assert OnSideOf(r, c, q);
    if r < c {
      ValMonotone(r, c);
      RealMidpoint(a, b, q, s);
    } else {
      ValMonotone(c, r);
      RealMidpoint(b, a, q, s);
    }
  }

  // s against the midpoint of a and b, by squares.
  lemma RealMidpoint(a: nat, b: nat, q: nat, s: real)
    requires s >= 0.0 && s * s == q as real && a < b
    ensures 4 * q < (a + b) * (a + b) ==> 2.0 * s < a as real + b as real
    ensures (a + b) * (a + b) < 4 * q ==> a as real + b as real < 2.0 * s
  {
    var m := (a + b) as real;
    ToReal(a + b);
    assert (2.0 * s) * (2.0 * s) == 4.0 * (s * s);
    if 4 * q < (a + b) * (a + b) { RootLess(2.0 * s, m); }
    if (a + b) * (a + b) < 4 * q { RootLess(m, 2.0 * s); }
  }

  lemma ToReal(n: nat)
    ensures (n * n) as real == n as real * n as real
  {
  }

  function RealAbs(x: real): real { if x < 0.0 then -x else x }

  lemma RootLess(a: real, b: real)
    requires a >= 0.0 && b >= 0.0 && a * a < b * b
    ensures a < b
  {
    RealMulMono(a, b, a);
    RealMulMono(a, b, b);
  }

  lemma RealMulMono(a: real, b: real, c: real)
    requires c >= 0.0
    ensures a >= b ==> a * c >= b * c
  {
  }

  // ---- The loop that normalises a subnormal ----

  /** Shifts ix until bit 52 is set, counting the shifts down from 0. */
  method Normalize(x: u64) returns (ix: u64, exp: int)
    requires 0 < x < FRAC
    ensures FRAC <= ix < 2 * FRAC
    ensures -52 <= exp <= 0 && ix == x * Pow2(-exp)
  {
    hide Shl64;
    ix, exp := x, 0;
    assert x * Pow2(0) == x;
    while ix / FRAC % 2 == 0
      invariant exp <= 0 && 0 < ix < 2 * FRAC
      invariant ix == x * Pow2(-exp)
      decreases 2 * FRAC - ix
    {
      ShiftByOne(ix);
      ShiftOnce(x, -exp);
      ix := Shl64(ix, 1);
      exp := exp - 1;
    }
    ShiftBound(x, -exp);
  }

  lemma ShiftOnce(x: nat, k: nat)
    ensures x * Pow2(k + 1) == 2 * (x * Pow2(k))
  {
  }

  lemma ShiftBound(x: nat, k: nat)
    requires x > 0 && x * Pow2(k) < 2 * FRAC
    ensures k <= 52
  {
    MulMono(1, x, Pow2(k));
    Pow2Values();
    hide Pow2;
    if k > 52 { Pow2Le(53, k); }
  }

  // ---- The digit loop ----

  // r = 2^(k-1), the bit tried next; 0 when all bits are done.
  function BitAt(k: nat): nat { if k == 0 then 0 else Pow2(k - 1) }

  // All but the last k bits of the root of y are in q, and ix * 2^k is twice the
  // remainder.
  ghost predicate Digits(y: nat, q: nat, ix: nat, k: nat) {
    && q * q <= y < (q + Pow2(k)) * (q + Pow2(k))
    && ix * Pow2(k) == 2 * (y - q * q)
  }

  /** q is the floor of the root of x * 2^53, and ix is twice the remainder. */
  method Root(x: u64) returns (q: u64, ix: u64)
    requires 2 * FRAC <= x < 8 * FRAC
    ensures Digits(x * (2 * FRAC), q, ix, 0)
  {
    hide Digits;
    ghost var y := x * (2 * FRAC);
    ghost var k: nat := 54;
    DigitsStart(x);
    ix, q := x, 0;
    var s: u64 := 0;
    var r: u64 := 2 * FRAC;
    while r != 0
      invariant k <= 54 && r == BitAt(k) && s == 2 * q
      invariant q + Pow2(k) <= 4 * FRAC
      invariant Digits(y, q, ix, k)
      decreases k
    {
      s, q, ix, r := Bit(s, q, ix, r, y, k);
      k := k - 1;
    }
  }

  // One round of the loop: the bit r is tried.
  method Bit(s0: u64, q0: u64, ix0: u64, r0: u64, ghost y: nat, ghost k: nat)
    returns (s: u64, q: u64, ix: u64, r: u64)
    requires 1 <= k <= 54 && r0 == BitAt(k) > 0 && s0 == 2 * q0 && q0 + Pow2(k) <= 4 * FRAC && Digits(y, q0, ix0, k)
    ensures r == BitAt(k - 1) && s == 2 * q && q + Pow2(k - 1) <= 4 * FRAC && Digits(y, q, ix, k - 1)
  {
    DigitStep(y, q0, ix0, k);
    assert BitAt(k) == Pow2(k - 1) && Pow2(k) == 2 * Pow2(k - 1) && BitAt(k - 1) == Pow2(k - 1) / 2;
    hide Digits, Shl64, Shr64, Pow2, BitAt;
    s, q, ix := s0, q0, ix0;
    var t := s + r0;
    if t <= ix {
      s := t + r0;
      ix := ix - t;
      q := q + r0;
    }
    ShiftByOne(ix);
    ShiftByOne(r0);
    ix := Shl64(ix, 1);
    r := Shr64(r0, 1);
  }

  lemma DigitsStart(x: nat)
    requires x < 8 * FRAC
    ensures Pow2(53) == 2 * FRAC && Pow2(54) == 4 * FRAC
    ensures Digits(x * (2 * FRAC), 0, x, 54)
  {
    Pow2Values();
  }

  /** One digit: the test t <= ix decides (q+r)^2 <= y, either outcome keeps the
      remainder in ix, and ix stays far below 2^64. */
  lemma DigitStep(y: nat, q: nat, ix: nat, k: nat)
    requires k > 0 && Digits(y, q, ix, k)
    ensures var r := Pow2(k - 1);
      && ix < 4 * (q + r)
      && (if 2 * q + r <= ix then Digits(y, q + r, 2 * (ix - (2 * q + r)), k - 1)
          else Digits(y, q, 2 * ix, k - 1))
  {
    var r := Pow2(k - 1);
    Remainders(y, q, ix, r);
    if 2 * q + r <= ix {
      Double(ix - (2 * q + r), r);
      assert (q + r) + r == q + Pow2(k);
    } else {
      Double(ix, r);
    }
  }

  lemma Double(a: int, r: int)
    ensures (2 * a) * r == 2 * (a * r) == a * (2 * r)
  {
  }

  // The step in terms of the products of q, r and ix.
  lemma Remainders(y: nat, q: nat, ix: nat, r: nat)
    requires r > 0 && q * q <= y < (q + 2 * r) * (q + 2 * r)
    requires ix * (2 * r) == 2 * (y - q * q)
    ensures 2 * q + r <= ix <==> (q + r) * (q + r) <= y
    ensures (ix - (2 * q + r)) * r == y - (q + r) * (q + r)
    ensures ix * r == y - q * q
    ensures ix < 4 * (q + r)
  {
    Products(q, r, ix);
    LinearStep(y, q * q, q * r, r * r, ix * r, (2 * q + r) * r, (4 * (q + r)) * r,
               (q + r) * (q + r), (q + 2 * r) * (q + 2 * r));
    CompareProducts(ix, 2 * q + r, r);
    CompareProducts(4 * (q + r), ix, r);
    CompareProducts(ix, 4 * (q + r), r);
  }

  lemma CompareProducts(a: int, b: int, r: nat)
    requires r > 0
    ensures b <= a <==> b * r <= a * r
    ensures a < b <==> a * r < b * r
  {
    if b <= a { MulMono(b, a, r); } else { MulStrict(a, b, r); }
  }

  lemma Products(q: int, r: int, ix: int)
    ensures (q + r) * (q + r) == q * q + 2 * (q * r) + r * r
    ensures (q + 2 * r) * (q + 2 * r) == q * q + 4 * (q * r) + 4 * (r * r)
    ensures (2 * q + r) * r == 2 * (q * r) + r * r
    ensures (4 * (q + r)) * r == 4 * (q * r) + 4 * (r * r)
    ensures ix * (2 * r) == 2 * (ix * r)
    ensures (ix - (2 * q + r)) * r == ix * r - (2 * q + r) * r
  {
    Expand(q, r);
    Expand(q, 2 * r);
    Double(q, r);
    Dist(2 * q, r, r);
    Double(ix, r);
    Dist(ix, -(2 * q + r), r);
    Dist(q, r, r);
  }

  lemma LinearStep(y: int, qq: int, qr: int, rr: int, i: int, u: int, v: int, s1: int, s2: int)
    requires u == 2 * qr + rr && v == 4 * qr + 4 * rr
    requires s1 == qq + 2 * qr + rr && s2 == qq + 4 * qr + 4 * rr
    requires i == y - qq && qq <= y < s2
    ensures (u <= i <==> s1 <= y) && i < v && i - u == y - s1
  {
  }

  lemma Expand(a: int, b: int)
    ensures (a + b) * (a + b) == a * a + 2 * (a * b) + b * b
  {
  }

  // ---- Rounding ----

  // The significand after the final rounding step of the source.
  function Rounded(q: nat, ix: nat): nat { (if ix != 0 then q + q % 2 else q) / 2 }

  // m is strictly nearest to half the root of y.
  ghost predicate HalfRoot(m: nat, y: nat) {
    (2 * m - 1) * (2 * m - 1) < y < (2 * m + 1) * (2 * m + 1)
  }

  /** The rounded significand is nearest to half the root: no tie occurs, and the
      rounding does not carry to 2^53. */
  lemma RoundedSignificand(x: nat, q: nat, ix: nat)
    requires 2 * FRAC <= x <= 8 * FRAC - 4
    requires Digits(x * (2 * FRAC), q, ix, 0)
    ensures FRAC <= Rounded(q, ix) < 2 * FRAC
    ensures HalfRoot(Rounded(q, ix), x * (2 * FRAC))
  {
    RootRange(x, x * (2 * FRAC), q, FRAC);
    RoundedHalf(x * (2 * FRAC), q, ix);
  }

  lemma RootRange(x: nat, y: nat, q: nat, f: nat)
    requires f > 0 && 2 * f <= x <= 8 * f - 4 && y == x * (2 * f)
    requires q * q <= y < (q + 1) * (q + 1)
    ensures 2 * f <= q < 4 * f - 1
  {
    MulMono(2 * f, x, 2 * f);
    MulMono(x, 8 * f - 4, 2 * f);
    assert (4 * f - 1) * (4 * f - 1) == 16 * (f * f) - 8 * f + 1;
    assert (8 * f - 4) * (2 * f) == 16 * (f * f) - 8 * f;
    if q < 2 * f { Square(q + 1, 2 * f); }
    if q >= 4 * f - 1 {
      Square(4 * f - 1, q);
    }
  }

  lemma RoundedHalf(y: nat, q: nat, ix: nat)
    requires q > 0 && y % 2 == 0 && Digits(y, q, ix, 0)
    ensures HalfRoot(Rounded(q, ix), y)
  {
    var s := q * q;
    Expand(q, 1); Expand(q, -1); Expand(q, 2);
    if q % 2 == 0 {
      assert 2 * Rounded(q, ix) == q;
    } else {
      if ix == 0 { OddSquare(q); }
      assert 2 * Rounded(q, ix) == q + 1;
    }
  }

  lemma Square(a: nat, b: nat)
    requires a <= b
    ensures a * a <= b * b
  {
    MulMono(a, b, a);
    MulMono(a, b, b);
  }

  lemma OddSquare(q: nat)
    requires q % 2 == 1
    ensures q * q % 2 == 1
  {
    var h := q / 2;
    assert q * q == 2 * (2 * (h * h) + 2 * h) + 1;
  }

  /** A significand nearest to half the root, put at the right exponent, is the
      float nearest the root. */
  lemma PlacedIsNearest(x: nat, m: nat, y: nat, e: nat)
    requires FRAC <= m < 2 * FRAC && e >= 1
    requires e * FRAC + m < INF
    requires y >= 4 * (FRAC * FRAC) && HalfRoot(m, y)
    requires SquaredRoot(x) == ScaledSquare(y, e - 1)
    ensures NearestRoot(e * FRAC + m, x)
  {
    hide Val, Pow2, HalfRoot, ScaledSquare, SquaredRoot;
    var r, q := e * FRAC + m, SquaredRoot(x);
    UpperNeighbour(x, m, y, e);
    LowerNeighbour(x, m, y, e);
    forall c: nat | c <= INF && c != r ensures OnSideOf(r, c, q) {
      if r < c {
        if r + 1 < c { ValMonotone(r + 1, c); }
        Square(Val(r) + Val(r + 1), Val(r) + Val(c));
      } else {
        if c < r - 1 { ValMonotone(c, r - 1); }
        Square(Val(r) + Val(c), Val(r) + Val(r - 1));
      }
    }
  }

  lemma UpperNeighbour(x: nat, m: nat, y: nat, e: nat)
    requires FRAC <= m < 2 * FRAC && e >= 1 && HalfRoot(m, y)
    requires SquaredRoot(x) == ScaledSquare(y, e - 1)
    ensures OnSideOf(e * FRAC + m, e * FRAC + m + 1, SquaredRoot(x))
  {
    hide Val, HalfRoot, ScaledSquare, SquaredRoot;
    var r, g := e * FRAC + m, Pow2(e - 1);
    assert Pow2(e) == 2 * g;
    hide Pow2;
    ValCompose(e, m);
    ValStep(r); GapCompose(e, m);
    SumScale(m, g, m * (2 * g), m * (2 * g) + 2 * g);
    Compare(x, m, y, e, 2 * (2 * m + 1));
  }

  lemma SumScale(m: nat, g: nat, a: nat, b: nat)
    requires a == m * (2 * g) && b == a + 2 * g
    ensures a + b == (2 * (2 * m + 1)) * g
  {
  }

  lemma LowerNeighbour(x: nat, m: nat, y: nat, e: nat)
    requires FRAC <= m < 2 * FRAC && e >= 1
    requires y >= 4 * (FRAC * FRAC) && HalfRoot(m, y)
    requires SquaredRoot(x) == ScaledSquare(y, e - 1)
    ensures OnSideOf(e * FRAC + m, e * FRAC + m - 1, SquaredRoot(x))
  {
    hide Val, HalfRoot, ScaledSquare, SquaredRoot;
    var r, g := e * FRAC + m, Pow2(e - 1);
    assert Pow2(e) == 2 * g;
    hide Pow2;
    ValCompose(e, m);
    ValStep(r - 1);
    if m > FRAC {
      GapCompose(e, m - 1);
      SumScaleDown(m, g, m * (2 * g), m * (2 * g) - 2 * g);
      Compare(x, m, y, e, 2 * (2 * m - 1));
    } else {
      assert r - 1 == (e - 1) * FRAC + (2 * FRAC - 1);
      GapCompose(e - 1, 2 * FRAC - 1);
      SumHalfDown(m, g, m * (2 * g), m * (2 * g) - g);
      HalfStep(FRAC, y);
      Compare(x, m, y, e, 4 * m - 1);
    }
  }

  // The three midpoints against the exact root.
  lemma Compare(x: nat, m: nat, y: nat, e: nat, w: nat)
    requires m > 0 && e >= 1 && HalfRoot(m, y)
    requires SquaredRoot(x) == ScaledSquare(y, e - 1)
    requires w == 2 * (2 * m + 1) || w == 2 * (2 * m - 1) || w * w < 4 * y
    ensures var t, q := w * Pow2(e - 1), SquaredRoot(x);
      if w == 2 * (2 * m + 1) then 4 * q < t * t else t * t < 4 * q
  {
    hide SquaredRoot, Pow2;
    if w == 2 * (2 * m + 1) {
      Quadruple(2 * m + 1);
      assert 4 * y < w * w;
    } else if w == 2 * (2 * m - 1) {
      Quadruple(2 * m - 1);
      assert w * w < 4 * y;
    }
    hide HalfRoot;
    SquareScale(y, w, Pow2(e - 1));
  }

  lemma Quadruple(a: int)
    ensures (2 * a) * (2 * a) == 4 * (a * a)
  {
  }

  lemma HalfStep(f: nat, y: nat)
    requires f > 0 && y >= 4 * (f * f)
    ensures (4 * f - 1) * (4 * f - 1) < 4 * y
  {
    assert (4 * f - 1) * (4 * f - 1) == 16 * (f * f) - 8 * f + 1;
  }

  lemma SumScaleDown(m: nat, g: nat, a: nat, b: int)
    requires a == m * (2 * g) && b == a - 2 * g
    ensures a + b == (2 * (2 * m - 1)) * g
  {
  }

  lemma SumHalfDown(m: nat, g: nat, a: nat, b: int)
    requires a == m * (2 * g) && b == a - g
    ensures a + b == (4 * m - 1) * g
  {
  }

  // Comparing squares is scale free.
  lemma SquareScale(y: nat, w: nat, g: nat)
    requires g > 0
    ensures 4 * y < w * w ==> 4 * (y * (g * g)) < (w * g) * (w * g)
    ensures w * w < 4 * y ==> (w * g) * (w * g) < 4 * (y * (g * g))
  {
    assert (w * g) * (w * g) == (w * w) * (g * g);
    assert g * g > 0;
    if 4 * y < w * w { MulStrict(4 * y, w * w, g * g); }
    if w * w < 4 * y { MulStrict(w * w, 4 * y, g * g); }
  }

  // ---- The whole routine ----

  // y times the square of 2^h.
  function ScaledSquare(y: nat, h: nat): nat { y * (Pow2(h) * Pow2(h)) }

  /** Un-biasing, doubling for an odd exponent and halving scale the square of the
      root by an even power of two. */
  lemma Radicand(x: nat, mant: nat, e: int, ix: nat)
    requires -52 <= e <= 2046
    requires Val(x) * Pow2(100) == mant * Pow2(99 + e)
    requires ix == (if (e - BIAS) % 2 == 1 then 4 * mant else 2 * mant)
    ensures (e - BIAS) / 2 + 1021 >= 0
    ensures SquaredRoot(x) == ScaledSquare(ix * (2 * FRAC), (e - BIAS) / 2 + 1021)
  {
    hide Val, Pow2;
    var h := (e - BIAS) / 2 + 1021;
    Pow2Values();
    if (e - BIAS) % 2 == 1 {
      PowerSplit(Val(x), mant, e, 1, h, 4, 2 * FRAC);
    } else {
      PowerSplit(Val(x), mant, e, 0, h, 2, 2 * FRAC);
    }
  }

  lemma PowerSplit(v: nat, mant: nat, e: int, odd: nat, h: nat, f: nat, w: nat)
    requires e >= -52 && 2 * h + odd == e + 1019
    requires f == Pow2(1 + odd) && w == Pow2(53)
    requires v * Pow2(100) == mant * Pow2(99 + e)
    ensures v * Pow2(1074) == ((f * mant) * w) * (Pow2(h) * Pow2(h))
  {
    hide *;
    Pow2Add(h, h);
    Pow2Add(1 + odd, 53);
    Pow2Add(1 + odd + 53, h + h);
    Pow2Add(99 + e, 1074);
    Pow2Add(1 + odd + 53 + (h + h), 100);
    assert 99 + e + 1074 == 1 + odd + 53 + (h + h) + 100;
    Comm(f, mant);
    Rescale(v, Pow2(1074), Pow2(100), mant, Pow2(99 + e), f, w, Pow2(h + h));
  }

  lemma Rescale(v: nat, t: nat, p: nat, mant: nat, u: nat, a: nat, b: nat, c: nat)
    requires p > 0 && v * p == mant * u && u * t == ((a * b) * c) * p
    ensures v * t == ((mant * a) * b) * c
  {
    Assoc(v, t, p); Comm(t, p); Assoc(v, p, t);
    Assoc(mant, u, t);
    assert (v * t) * p == mant * (((a * b) * c) * p);
    Assoc(mant, (a * b) * c, p);
    Cancel(v * t, mant * ((a * b) * c), p);
    Assoc(mant, a * b, c); Assoc(mant, a, b);
  }

  /** The significand with its implicit bit, and the unbiased exponent. */
  method Unpack(x: u64) returns (ix: u64, exp: int)
    requires 0 < x < INF
    ensures FRAC <= ix < 2 * FRAC && -52 <= exp + BIAS <= 2046
    ensures Val(x) * Pow2(100) == ix * Pow2(99 + exp + BIAS)
  {
    hide Val, Pow2, BitAndNot, BitOr;
    ix, exp := x, ExpField(x);
    if exp == 0 {
      ix, exp := Normalize(x);
      exp := exp + 1;
      NormalizedValue(x, ix, exp);
    } else {
      NormalValue(x);
    }
    exp := exp - BIAS;
    MantissaBits(ix);
    ix := BitAndNot(ix, INF);
    ix := BitOr(ix, FRAC);
  }

  /** The computation on a positive finite x: the result is the pattern strictly
      nearest to the exact root. */
  method RootOfPositive(x: u64) returns (r: u64)
    requires 0 < x < INF
    ensures NearestRoot(r, x)
  {
    hide Val, Pow2, NearestRoot, SquaredRoot, ScaledSquare, Digits, HalfRoot, Shl64, Shr64;
    var ix, exp := Unpack(x);
    ghost var mant, e := ix, exp + BIAS;
    if exp % 2 == 1 { ShiftByOne(ix); ix := Shl64(ix, 1); }
    exp := exp / 2;
    ShiftByOne(ix);
    ix := Shl64(ix, 1);
    ghost var radicand: nat := ix;
    Radicand(x, mant, e, radicand);
    var q: u64;
    q, ix := Root(ix);
    RoundedSignificand(radicand, q, ix);
    ghost var m := Rounded(q, ix);
    if ix != 0 { q := q + q % 2; }
    ShiftByOne(q);
    r := Shr64(q, 1) + (exp - 1 + BIAS) * FRAC;
    RadicandLarge(radicand);
    PlacedIsNearest(x, m, radicand * (2 * FRAC), exp - 1 + BIAS);
  }

  /** sqrt, for every bit pattern. */
  method Sqrt(x: u64) returns (r: u64)
    ensures Magnitude(x) == 0 || IsNaN(x) || x == INF ==> r == x
    ensures Negative(x) && 0 < Magnitude(x) <= INF ==> r == NAN
    ensures 0 < x < INF ==> NearestRoot(r, x)
  {
    if Magnitude(x) == 0 || IsNaN(x) || x == INF { return x; }
    if Negative(x) { return NAN; }
    r := RootOfPositive(x);
  }

  lemma RadicandLarge(x: nat)
    requires x >= 2 * FRAC
    ensures x * (2 * FRAC) >= 4 * (FRAC * FRAC)
  {
  }

  lemma NormalizedValue(x: nat, ix: nat, exp: int)
    requires 0 < x < FRAC && FRAC <= ix < 2 * FRAC
    requires -51 <= exp <= 1 && ix == x * Pow2(1 - exp)
    ensures Val(x) * Pow2(100) == (FRAC + ix % FRAC) * Pow2(99 + exp)
  {
    hide Pow2;
    ShiftMore(x, 1 - exp, 99 + exp);
  }

  lemma NormalValue(x: nat)
    requires FRAC <= x < INF
    ensures var e := x / FRAC;
      && ExpField(x) == e && 1 <= e <= 2046
      && Val(x) * Pow2(100) == (FRAC + x % FRAC) * Pow2(99 + e)
  {
    hide Pow2;
    var e, m := x / FRAC, FRAC + x % FRAC;
    assert Val(x) == m * Pow2(e - 1);
    ShiftMore(m, e - 1, 100);
  }
}
