/**
  trigReduce: Payne-Hanek reduction by Pi/4 up to the octant and the fraction.  The
  tabulated 4/Pi is taken as given; everything is exact integer arithmetic.
 */
module Trig {
  import opened Words
  import opened Float64

  const WWW: nat := 0x1_0000_0000_0000_0000_0000_0000_0000_0000_0000_0000_0000_0000

  const OCTANT: nat := 0x2000_0000_0000_0000_0000_0000_0000_0000   // 2^125

  // Pi/4 as a float64.
  const PI4_BITS: nat := 0x3FE9_21FB_5444_2D18

  const M_PI4: seq<u64> := [
    0x0000000000000001, 0x45f306dc9c882a53, 0xf84eafa3ea69bb81, 0xb6c52b3278872083,
    0xfca2c757bd778ac3, 0x6e48dc74849ba5c0, 0x0c925dd413a32439, 0xfc3bd63962534e7d,
    0xd1046bea5d768909, 0xd338e04d68befc82, 0x7323ac7306a673e9, 0x3908bf177bf25076,
    0x3ff12fffbc0b301f, 0xde5e2316b414da3e, 0xda6cfd9e4f96136e, 0x9e8c7ecd3cbfd45a,
    0xea4f758fd7cbe2f6, 0x7a0e73ef14a525d4, 0xd7f6bf623f1aba10, 0xac06608df8f6d757
  ]

  // The number whose base-2^64 digits are given, most significant first.
  function Table(words: seq<u64>): nat {
    if words == [] then 0 else Table(words[..|words| - 1]) * W + words[|words| - 1]
  }

  // ---------------------------------------------------------------- the algorithm

  // x = Significand(b) * 2^Exponent(b)
  function Significand(b: u64): nat { BitOr(BitAndNot(b, MASK * FRAC), FRAC) }

  function Exponent(b: u64): int { ExpField(b) - BIAS - SHIFT }

  // One digit of the table, shifted left by bits.
  function Digit(words: seq<u64>, i: nat, bits: nat): u64
    requires i + 1 < |words| && bits < 64
  {
    Or64(Shl64(words[i], bits), Shr64(words[i + 1], 64 - bits))
  }

  // The upper two words of the product, without what overflows them.
  function ProductWords(z0: u64, z1: u64, z2: u64, ix: u64): (u64, u64) {
    var z2hi := Mul64(z2, ix).0;
    var (z1hi, z1lo) := Mul64(z1, ix);
    var z0lo := z0 * ix % W;
    var (lo, c) := Add64(z1lo, z2hi, 0);
    (Add64(z0lo, z1hi, c).0, lo)
  }

  predicate Reducible(b: u64) { PI4_BITS <= b < INF }

  // hi and lo, before the octant is split off.
  function ReducedWords(b: u64): (u64, u64)
    requires Reducible(b)
  {
    IndicesInRange(b);
    var digit, bits := (Exponent(b) + 61) / 64, (Exponent(b) + 61) % 64;
    ProductWords(Digit(M_PI4, digit, bits), Digit(M_PI4, digit + 1, bits), Digit(M_PI4, digit + 2, bits), Significand(b))
  }

  function Octant(b: u64): nat
    requires Reducible(b)
  {
    Shr64(ReducedWords(b).0, 61)
  }

  // The 52 bits below the leading one of the fraction, as the code assembles them.
  function Mantissa(hi: u64, lo: u64): u64 {
    var f := Fraction(hi, lo);
    var lz := LeadingZeros64(f);
    Shr64(Or64(Shl64(f, lz + 1), Shr64(lo, CountSub(64, lz + 1))), 64 - SHIFT)
  }

  function Fraction(hi: u64, lo: u64): u64 { Or64(Shl64(hi, 3), Shr64(lo, 61)) }

  // ---------------------------------------------------------------- operands

  lemma FieldsOf(b: u64)
    requires Reducible(b)
    ensures ExpField(b) == b / FRAC && 1022 <= ExpField(b) <= 2046
    ensures Significand(b) == FRAC + FracField(b) && Significand(b) < 2 * FRAC
  {
    hide BitAndNot, BitOr;
    MantissaBits(b);
    assert MASK * FRAC == INF;
  }

  /** Every table index is in range, for every operand from Pi/4 up. */
  lemma IndicesInRange(b: u64)
    requires Reducible(b)
    ensures -53 <= Exponent(b) <= 971
    ensures 0 <= (Exponent(b) + 61) / 64 <= 16 && |M_PI4| == 20
    ensures Significand(b) < 0x20_0000_0000_0000
  {
    FieldsOf(b);
  }

  // ---------------------------------------------------------------- the window

  // One word cut in two: the low part moves up, the high part moves down.
  lemma WordCut(m: u64, bits: nat)
    requires bits < 64
    ensures Pow2(bits) * Pow2(64 - bits) == W
    ensures Shl64(m, bits) == (m % Pow2(64 - bits)) * Pow2(bits)
    ensures Shr64(m, 64 - bits) == m / Pow2(64 - bits) < Pow2(bits)
    ensures m * Pow2(bits) == (m / Pow2(64 - bits)) * W + (m % Pow2(64 - bits)) * Pow2(bits)
  {
    Pow2Values();
    Pow2Add(bits, 64 - bits);
    hide Pow2;
    CutAt(m, Pow2(bits), Pow2(64 - bits));
  }

  lemma DigitValue(words: seq<u64>, i: nat, bits: nat)
    requires i + 1 < |words| && bits < 64
    ensures Digit(words, i, bits) == (words[i] % Pow2(64 - bits)) * Pow2(bits) + words[i + 1] / Pow2(64 - bits)
  {
    WordCut(words[i], bits);
    WordCut(words[i + 1], bits);
    OrIsPlus(words[i] % Pow2(64 - bits), bits, words[i + 1] / Pow2(64 - bits));
  }

  function Join3(a: int, b: int, c: int): int { (a * W + b) * W + c }

  function Join4(a: int, b: int, c: int, d: int): int { Join3(a, b, c) * W + d }

  lemma JoinTimes(a: nat, b: nat, c: nat, d: nat, q: nat)
    ensures (Join3(a, b, c) + d) * q == Join3(a * q, b * q, c * q) + d * q
  {
    Dist(a * W, b, q);
    Dist((a * W + b) * W, c + d, q);
    Dist(c, d, q);
    assert (a * W) * q == (a * q) * W;
    assert ((a * W + b) * W) * q == ((a * W + b) * q) * W;
  }

  // Three shifted digits are a window of the four words they come from.
  lemma WindowOfFour(words: seq<u64>, i: nat, bits: nat)
    requires i + 3 < |words| && bits < 64
    ensures
      var q := Pow2(64 - bits);
      Join4(words[i], words[i + 1], words[i + 2], words[i + 3]) / q
      == words[i] / q * WWW + Join3(Digit(words, i, bits), Digit(words, i + 1, bits), Digit(words, i + 2, bits))
  {
    hide Digit, Pow2, Shl64, Shr64, Join3, Join4;
    WordCut(words[i], bits);
    DigitValue(words, i, bits);
    DigitValue(words, i + 1, bits);
    DigitValue(words, i + 2, bits);
    FourCut(words[i], words[i + 1], words[i + 2], words[i + 3], Pow2(bits), Pow2(64 - bits));
  }

  lemma FourCut(m0: u64, m1: u64, m2: u64, m3: u64, p: nat, q: nat)
    requires p * q == W && p > 0 && q > 0
    ensures Join4(m0, m1, m2, m3) / q
      == m0 / q * WWW + Join3(m0 % q * p + m1 / q, m1 % q * p + m2 / q, m2 % q * p + m3 / q)
  {
    CutAt(m0, p, q);
    CutAt(m1, p, q);
    CutAt(m2, p, q);
    var a0, a1, a2 := m0 * p, m1 * p, m2 * p;
    var c0, c1, c2 := m0 % q * p, m1 % q * p, m2 % q * p;
    Scale(m0, p, q);
    Scale(m1, p, q);
    Scale(m2, p, q);
    JoinTimes(a0, a1, a2, m3 / q, q);
    var y := Join3(a0, a1, a2) + m3 / q;
    assert y == m0 / q * WWW + Join3(c0 + m1 / q, c1 + m2 / q, c2 + m3 / q);
    Lowest(m0, m1, m2, m3, a0 * q, a1 * q, a2 * q, y * q, q);
    DivModUnique(Join4(m0, m1, m2, m3), q, y, m3 % q);
  }

  lemma Lowest(m0: nat, m1: nat, m2: nat, m3: nat, b0: nat, b1: nat, b2: nat, y: nat, q: nat)
    requires q > 0 && b0 == m0 * W && b1 == m1 * W && b2 == m2 * W
    requires y == Join3(b0, b1, b2) + m3 / q * q
    ensures Join4(m0, m1, m2, m3) == y + m3 % q
  {
  }

  lemma Scale(m: nat, p: nat, q: nat)
    requires p * q == W
    ensures (m * p) * q == m * W
  {
    Assoc(m, p, q);
  }

  lemma {:induction false} TableSplit(a: seq<u64>, b: seq<u64>)
    ensures Table(a + b) == Table(a) * Pow2(64 * |b|) + Table(b)
    ensures Table(b) < Pow2(64 * |b|)
    decreases |b|
  {
    if b == [] {
      assert a + b == a;
    } else {
      var n := |b| - 1;
      var b', r := b[..n], Pow2(64 * n);
      TableSplit(a, b');
      assert (a + b)[..|a + b| - 1] == a + b';
      Pow2Values();
      Pow2Add(64 * n, 64);
      hide Pow2;
      assert Table(a + b) == (Table(a) * r + Table(b')) * W + b[n];
      Assoc(Table(a), r, W);
    }
  }

  lemma TableOfFour(m: seq<u64>)
    requires |m| == 4
    ensures Table(m) == Join4(m[0], m[1], m[2], m[3])
  {
    assert Table(m[..0]) == 0;
    assert m[..1][..0] == m[..0] && m[..2][..1] == m[..1] && m[..3][..2] == m[..2];
    assert Table(m[..1]) == m[0];
    assert Table(m[..2]) == m[0] * W + m[1];
    assert Table(m[..3]) == Join3(m[0], m[1], m[2]);
  }

  // What a digit and a bit offset leave below the window.
  function Below(words: seq<u64>, i: nat, bits: nat): (d: nat)
    requires i + 4 <= |words| && bits < 64
    ensures d > 0
  {
    Pow2(64 * (|words| - i - 4) + (64 - bits))
  }

  /** The three digits are the 192 bits of the table from the given offset on. */
  lemma WindowOfTable(words: seq<u64>, i: nat, bits: nat)
    requires i + 4 <= |words| && bits < 64
    ensures Table(words) / Below(words, i, bits) % WWW
      == Join3(Digit(words, i, bits), Digit(words, i + 1, bits), Digit(words, i + 2, bits))
  {
    hide Pow2, Digit, Join4, Join3, Table;
    var top, four, low := words[..i], words[i..i + 4], words[i + 4..];
    assert words == (top + four) + low;
    assert four[0] == words[i] && four[1] == words[i + 1] && four[2] == words[i + 2] && four[3] == words[i + 3];
    TableSplit(top + four, low);
    TableSplit(top, four);
    TableOfFour(four);
    WindowOfFour(words, i, bits);
    WordCut(0, bits);
    Pow2Add(64 * |low|, 64 - bits);
    FourWords();
    JoinBound(Digit(words, i, bits), Digit(words, i + 1, bits), Digit(words, i + 2, bits));
    var z := Join3(Digit(words, i, bits), Digit(words, i + 1, bits), Digit(words, i + 2, bits));
    assert Table(words) == (Table(top) * (WWW * W) + Table(four)) * Pow2(64 * |low|) + Table(low);
    assert Below(words, i, bits) == Pow2(64 * |low|) * Pow2(64 - bits);
    CutWindow(Table(words), Below(words, i, bits), Table(top), Table(four), Table(low),
              Pow2(bits), Pow2(64 - bits), Pow2(64 * |low|), Div(words[i], Pow2(64 - bits)), z);
  }

  lemma JoinBound(a: u64, b: u64, c: u64)
    ensures 0 <= Join3(a, b, c) < WWW
  {
  }

  lemma FourWords()
    ensures Pow2(256) == WWW * W
  {
    Pow2Values();
    Pow2Add(64, 64);
    Pow2Add(128, 64);
    Pow2Add(192, 64);
  }

  lemma CutWindow(n: nat, d: nat, t: nat, a: nat, l: nat, p: nat, q: nat, r: nat, h: nat, z: nat)
    requires n == (t * (WWW * W) + a) * r + l && d == r * q
    requires p > 0 && q > 0 && r > 0 && p * q == W && l < r
    requires a / q == h * WWW + z && z < WWW
    ensures n / d % WWW == z
  {
    var x := t * (WWW * W) + a;
    Scale(t, p, q);
    var y := (t * p + h) * WWW + z;
    assert x == y * q + a % q by {
      assert a == (h * WWW + z) * q + a % q;
      assert (t * p) * WWW * q == t * (WWW * W);
      Dist((t * p) * WWW, h * WWW + z, q);
    }
    var rem := (a % q) * r + l;
    assert x * r + l == y * (r * q) + rem by {
      Dist(y * q, a % q, r);
      Assoc(y, q, r);
      Comm(q, r);
    }
    assert rem < r * q by {
      MulMono(a % q + 1, q, r);
      Dist(a % q, 1, r);
      Comm(q, r);
    }
    DivModUnique(x * r + l, r * q, y, rem);
    DivModUnique(y, WWW, t * p + h, z);
  }

  // ---------------------------------------------------------------- the product

  // floor(z * ix / 2^64) modulo 2^128
  function Middle(z: int, ix: nat): int { z * ix / W % WW }

  /** hi:lo is the product of window and significand, less its lowest word, modulo 2^128. */
  lemma ProductValue(z0: u64, z1: u64, z2: u64, ix: u64)
    ensures
      var (hi, lo) := ProductWords(z0, z1, z2, ix);
      hi * W + lo == Middle(Join3(z0, z1, z2), ix)
  {
    hide Mul64, Add64, Join3;
    var (z2hi, z2lo) := Mul64(z2, ix);
    var (z1hi, z1lo) := Mul64(z1, ix);
    var (lo, c) := Add64(z1lo, z2hi, 0);
    var (hi, c') := Add64(z0 * ix % W, z1hi, c);
    JoinProduct(z0, z1, z2, ix);
    MiddleWords(Join3(z0, z1, z2) * ix, z0 * ix, z1hi, z1lo, z2hi, z2lo, lo, c, hi, c');
  }

  lemma JoinProduct(z0: u64, z1: u64, z2: u64, ix: u64)
    ensures Join3(z0, z1, z2) * ix == (z0 * ix * W + z1 * ix) * W + z2 * ix
  {
    JoinTimes(z0, z1, z2, 0, ix);
  }

  lemma MiddleWords(x: int, p0: nat, z1hi: u64, z1lo: u64, z2hi: u64, z2lo: u64, lo: u64, c: nat, hi: u64, c': nat)
    requires x == (p0 * W + (z1hi * W + z1lo)) * W + (z2hi * W + z2lo)
    requires lo + c * W == z1lo + z2hi && hi + c' * W == p0 % W + z1hi + c
    ensures hi * W + lo == x / W % WW
  {
    var n := (p0 + z1hi) * W + z1lo + z2hi;
    DivModUnique(x, W, n, z2lo);
    assert p0 == p0 / W * W + p0 % W;
    DivModUnique(n, WW, p0 / W + c', hi * W + lo);
  }

  // ---------------------------------------------------------------- the theorem

  // hi:lo, in units of 2^-125, falls short of x * (tabulated 4/Pi), up to a multiple q of
  // 8, by less than 1 + 2^-11 units.  unit is 2^-125 in units of the table's last bit.
  predicate Approximates(product: nat, v: nat, q: nat, unit: nat) { FallsShort(product, v + q * WW, unit) }

  predicate FallsShort(product: nat, n: nat, unit: nat) {
    n * unit <= product && (product - n * unit) * 2048 < unit * 2049
  }

  ghost predicate IsApproximate(product: nat, v: nat, unit: nat) {
    exists q: nat :: Approximates(product, v, q, unit)
  }

  // x * (4/Pi), in units of the last bits of the significand and of the table.
  function Product(b: u64): nat { Table(M_PI4) * Significand(b) }

  function Unit(b: u64): (u: nat)
    requires Reducible(b)
    ensures u > 0
  {
    IndicesInRange(b);
    Pow2((1091 - Exponent(b)) as nat)
  }

  lemma Shortfall(m: nat, e: nat, ix: nat, z: nat, v: nat)
    requires e > 0 && ix < 0x20_0000_0000_0000
    requires m / e % WWW == z && Middle(z, ix) == v
    ensures IsApproximate(m * ix, v, W * e)
  {
    hide IsApproximate, Middle;
    var zf := Div(m, e);
    MiddleOfAll(zf, ix);
    ShortfallOf(m, e, zf, m % e, ix, v);
  }

  lemma MiddleOfAll(zf: nat, ix: nat)
    ensures Middle(zf, ix) == Middle(zf % WWW, ix)
  {
    WindowProduct(zf, ix);
  }

  lemma ShortfallOf(m: nat, e: nat, zf: nat, r0: nat, ix: nat, v: nat)
    requires r0 < e && ix < 0x20_0000_0000_0000 && m == zf * e + r0 && Middle(zf, ix) == v
    ensures IsApproximate(m * ix, v, W * e)
  {
    hide IsApproximate;
    var n, r1 := zf * ix / W, zf * ix % W;
    Recompose(m, e, zf, r0, ix, n, r1);
    SmallRest(e, ix, r0, r1);
    Introduce(m * ix, v, n, W * e, r1 * e + r0 * ix);
  }

  lemma Introduce(product: nat, v: nat, n: nat, unit: nat, rest: nat)
    requires n % WW == v && product == n * unit + rest && rest * 2048 < unit * 2049
    ensures IsApproximate(product, v, unit)
  {
    assert v + n / WW * WW == n;
    assert Approximates(product, v, n / WW, unit);
  }

  // Bits above the window do not reach hi:lo.
  lemma WindowProduct(zf: nat, ix: nat)
    ensures zf * ix / W % WW == zf % WWW * ix / W % WW
  {
    var qz, z := zf / WWW, zf % WWW;
    var y := z * ix;
    assert zf * ix == (qz * ix) * WWW + y by {
      Dist(qz * WWW, z, ix);
      assert (qz * WWW) * ix == (qz * ix) * WWW;
    }
    var t := qz * ix;
    DivModUnique(t * WWW + y, W, t * WW + y / W, y % W);
    DivModUnique(t * WW + y / W, WW, t + y / W / WW, y / W % WW);
  }

  lemma Recompose(m: nat, e: nat, zf: nat, r0: nat, ix: nat, n: nat, r1: nat)
    requires m == zf * e + r0 && zf * ix == n * W + r1
    ensures m * ix == n * (W * e) + (r1 * e + r0 * ix)
  {
    Dist(zf * e, r0, ix);
    Assoc(zf, e, ix);
    Comm(e, ix);
    Assoc(zf, ix, e);
    Dist(n * W, r1, e);
    Assoc(n, W, e);
  }

  lemma SmallRest(e: nat, ix: nat, r0: nat, r1: nat)
    requires r0 < e && r1 < W && ix < 0x20_0000_0000_0000
    ensures (r1 * e + r0 * ix) * 2048 < (W * e) * 2049
  {
    MulMono(r1 + 1, W, e);
    Dist(r1, 1, e);
    MulMono(r0, e, ix);
    MulMono(ix * 2048, W, e);
    Comm(e, ix);
    Assoc(ix, 2048, e);
    Comm(2048, e);
    Assoc(ix, e, 2048);
  }

  /**
    For every float64 from Pi/4 up, hi:lo is floor(Z * ix / 2^64) modulo 2^128 for the
    192-bit window Z of the table, and falls short of x * (4/Pi) modulo 8 by less than
    2^-125 + 2^-136.
   */
  lemma ReductionIsAccurate(b: u64)
    requires Reducible(b)
    ensures
      var (hi, lo) := ReducedWords(b);
      && hi * W + lo == Middle(Table(M_PI4) / Pow2((1027 - Exponent(b)) as nat) % WWW, Significand(b))
      && IsApproximate(Product(b), hi * W + lo, Unit(b))
  {
    hide Pow2, Table, Digit, ProductWords, Significand, IsApproximate, Middle;
    IndicesInRange(b);
    var s := Exponent(b) + 61;
    WindowTimes(M_PI4, s / 64, s % 64, Significand(b));
    BelowIs(s);
  }

  lemma BelowIs(s: nat)
    requires s < 1088
    ensures Below(M_PI4, s / 64, s % 64) == Pow2(1088 - s) && W * Pow2(1088 - s) == Pow2(1152 - s)
  {
    hide Pow2;
    assert 64 * (20 - s / 64 - 4) + (64 - s % 64) == 1088 - s;
    Pow2Values();
    Pow2Add(64, 1088 - s);
  }

  // The same for any table of twenty words, and any offset and factor.
  lemma WindowTimes(words: seq<u64>, i: nat, bits: nat, ix: u64)
    requires |words| == 20 && i <= 16 && bits < 64 && ix < 0x20_0000_0000_0000
    ensures
      var (hi, lo) := ProductWords(Digit(words, i, bits), Digit(words, i + 1, bits), Digit(words, i + 2, bits), ix);
      && hi * W + lo == Middle(Table(words) / Below(words, i, bits) % WWW, ix)
      && IsApproximate(Table(words) * ix, hi * W + lo, W * Below(words, i, bits))
  {
    hide Table, Digit, ProductWords, Join3, IsApproximate, Middle, Below;
    WindowOfTable(words, i, bits);
    var z0, z1, z2 := Digit(words, i, bits), Digit(words, i + 1, bits), Digit(words, i + 2, bits);
    ProductValue(z0, z1, z2, ix);
    JoinBound(z0, z1, z2);
    var (hi, lo) := ProductWords(z0, z1, z2, ix);
    Shortfall(Table(words), Below(words, i, bits), ix, Join3(z0, z1, z2), hi * W + lo);
  }

  lemma OctantFromUnits(product: nat, v: nat, q: nat, unit: nat)
    requires unit > 0 && Approximates(product, v, q, unit) && v < WW
    requires v % OCTANT != OCTANT - 1
    ensures product / (unit * OCTANT) % 8 == v / OCTANT
  {
    hide FallsShort;
    OctantOfUnits(product, v + q * WW, v / OCTANT + q * 8, v % OCTANT, unit);
  }

  lemma OctantOfUnits(product: nat, n: nat, k: nat, r: nat, unit: nat)
    requires unit > 0 && FallsShort(product, n, unit) && n == k * OCTANT + r && r + 2 <= OCTANT
    ensures product / (unit * OCTANT) == k
  {
    Octants(k, r, unit);
    Remains(product, n * unit, k, unit * OCTANT, r * unit, unit);
  }

  lemma Remains(product: nat, units: nat, k: nat, m: nat, b: nat, unit: nat)
    requires units <= product && (product - units) * 2048 < unit * 2049
    requires units == k * m + b && b + 2 * unit <= m
    ensures product / m == k
  {
    DivModUnique(product, m, k, b + (product - units));
  }

  lemma Octants(k: nat, r: nat, unit: nat)
    requires r + 2 <= OCTANT
    ensures (k * OCTANT + r) * unit == k * (unit * OCTANT) + r * unit
    ensures r * unit + 2 * unit <= unit * OCTANT
  {
    Dist(k * OCTANT, r, unit);
    Assoc(k, OCTANT, unit);
    Comm(OCTANT, unit);
    MulMono(r + 2, OCTANT, unit);
    Dist(r, 2, unit);
  }

  /** The octant is that of x * (4/Pi), unless the 125 bits below it are all ones. */
  lemma OctantIsExact(b: u64)
    requires Reducible(b)
    ensures
      var (hi, lo) := ReducedWords(b);
      (hi * W + lo) % OCTANT != OCTANT - 1 ==>
        Octant(b) == Product(b) / (Unit(b) * OCTANT) % 8
  {
    hide Product, Unit, Approximates, ReducedWords, Shr64, IsApproximate, Pow2, Middle;
    ReductionIsAccurate(b);
    var (hi, lo) := ReducedWords(b);
    TopBits(hi, lo);
    OctantOf(Product(b), hi * W + lo, Unit(b));
  }

  lemma OctantOf(product: nat, v: nat, unit: nat)
    requires unit > 0 && IsApproximate(product, v, unit) && v < WW
    ensures v % OCTANT != OCTANT - 1 ==> product / (unit * OCTANT) % 8 == v / OCTANT
  {
    hide Approximates;
    var q: nat :| Approximates(product, v, q, unit);
    if v % OCTANT != OCTANT - 1 {
      OctantFromUnits(product, v, q, unit);
    }
  }

  lemma TopBits(hi: u64, lo: u64)
    ensures Shr64(hi, 61) == (hi * W + lo) / OCTANT
  {
    Pow2Values();
    assert Pow2(61) == 0x2000_0000_0000_0000 by { Pow2Add(61, 1); }
    hide Pow2;
  }

  // ---------------------------------------------------------------- the fraction

  const LOW61: nat := 0x2000_0000_0000_0000   // 2^61

  // The 52 bits below the leading one of the 125-bit fraction, where lz bits precede it.
  function ExactMantissa(hi: u64, lo: u64, lz: nat): nat {
    (hi * W + lo) % OCTANT * Pow2(lz + 1) % OCTANT / (LOW61 * 4096)
  }

  lemma PowersNearWord()
    ensures Pow2(3) == 8 && Pow2(12) == 4096 && Pow2(61) == LOW61
  {
    Pow2Values();
    Pow2Add(61, 1);
  }

  lemma FractionValue(hi: u64, lo: u64)
    ensures (hi * W + lo) % OCTANT == Fraction(hi, lo) * LOW61 + lo % LOW61
    ensures Shl64(lo, 3) == lo % LOW61 * 8
  {
    hide Pow2, BitOr, Shl64, Shr64;
    PowersNearWord();
    WordCut(hi, 3);
    WordCut(lo, 3);
    OrIsPlus(hi % LOW61, 3, lo / LOW61);
  }

  lemma DivDiv(x: nat, a: nat, b: nat)
    requires a > 0 && b > 0
    ensures x / a / b == x / (a * b)
  {
    var q, r := x / a / b, x / a % b;
    assert x == q * (a * b) + (r * a + x % a) by {
      Dist(q * b, r, a);
      Assoc(q, b, a);
      Comm(b, a);
    }
    assert r * a + x % a < a * b by {
      MulMono(r + 1, b, a);
      Dist(r, 1, a);
      Comm(b, a);
    }
    DivModUnique(x, a * b, q, r * a + x % a);
  }

  lemma DivPlus(g: nat, c: nat, t: nat)
    requires c > 0
    ensures (g * c + t) / c == g + t / c
  {
    Dist(g, t / c, c);
    DivModUnique(g * c + t, c, g + t / c, t % c);
  }

  // What the code puts below the leading bits of the fraction, and what belongs there.
  lemma LowBitsOf(f: u64, lo: u64, k: nat)
    requires 1 <= k <= 64 && f < Pow2(65 - k) && Pow2(64 - k) <= f
    ensures
      var p := Pow2(k);
      var g := f % Pow2(64 - k);
      var l := lo % LOW61;
      && Shl64(f, k) == g * p % W
      && g * p + p <= W
      && Shr64(lo, 64 - k) == lo / Pow2(64 - k) < p
      && (f * LOW61 + l) * p % OCTANT == g * p * LOW61 + l * p
  {
    hide Pow2, Shl64, Shr64;
    Pow2Values();
    Pow2Add(k, 64 - k);
    var p, q := Pow2(k), Pow2(64 - k);
    var g, l := f % q, lo % LOW61;
    ShiftValues(f, lo, k);
    assert f / q == 1 by {
      Pow2Add(64 - k, 1);
      DivModUnique(f, q, 1, f - q);
    }
    assert g * p + p <= W by {
      MulMono(g + 1, q, p);
      Dist(g, 1, p);
      Comm(q, p);
    }
    LeadingDropped(f, g, l, p, q);
  }

  lemma ShiftValues(f: u64, lo: u64, k: nat)
    requires 1 <= k <= 64
    ensures Shl64(f, k) == f % Pow2(64 - k) * Pow2(k) % W
    ensures Shr64(lo, 64 - k) == lo / Pow2(64 - k) < Pow2(k)
  {
    hide Pow2;
    Pow2Values();
    if k < 64 {
      WordCut(f, k);
      WordCut(lo, k);
      var r := f % Pow2(64 - k) * Pow2(k);
      assert r < W;
    } else {
      assert Pow2(0) == 1 by { Pow2Add(0, 64); Cancel(Pow2(0), 1, W); }
      assert f % Pow2(0) == 0;
    }
  }

  lemma LeadingDropped(f: nat, g: nat, l: nat, p: nat, q: nat)
    requires p > 0 && f == q + g && p * q == W && g * p + p <= W && l < LOW61
    ensures (f * LOW61 + l) * p % OCTANT == g * p * LOW61 + l * p
  {
    var gp, lp, fp := g * p, l * p, f * p;
    assert fp == W + gp by {
      Dist(q, g, p);
      Comm(p, q);
    }
    assert (f * LOW61 + l) * p == fp * LOW61 + lp by {
      Dist(f * LOW61, l, p);
      ScaleUp(f, p);
    }
    assert lp < p * LOW61 by {
      MulStrict(l, LOW61, p);
      Comm(LOW61, p);
    }
    LeadingOne((f * LOW61 + l) * p, fp, gp, lp, p);
  }

  lemma ScaleUp(f: nat, p: nat)
    ensures f * LOW61 * p == f * p * LOW61
  {
    Assoc(f, LOW61, p);
    Comm(LOW61, p);
    Assoc(f, p, LOW61);
  }

  lemma LeadingOne(x: nat, fp: nat, gp: nat, lp: nat, p: nat)
    requires x == fp * LOW61 + lp && fp == W + gp && gp + p <= W && lp < p * LOW61
    ensures x % OCTANT == gp * LOW61 + lp
  {
    DivModUnique(x, OCTANT, 1, gp * LOW61 + lp);
  }

  // With at most twelve bits to fill, none survives the final shift.
  lemma FewLowBits(g: nat, p: nat, t: nat, c: nat)
    requires p > 0 && c > 0 && t < p
    ensures (g * p + t) / (p * c) == g / c
  {
    DivPlus(g, p, t);
    assert t / p == 0 by { DivModUnique(t, p, 0, t); }
    DivDiv(g * p + t, p, c);
  }

  // With more, those above the last twelve do.
  lemma ManyLowBits(g: nat, c: nat, t: nat, u: nat)
    ensures (g * (c * 4096) + t) / 4096 == (g * (c * 4096) + u) / 4096 <==> t / 4096 == u / 4096
  {
    Assoc(g, c, 4096);
    DivPlus(g * c, 4096, t);
    DivPlus(g * c, 4096, u);
  }

  lemma ShrTwelve(x: u64)
    ensures Shr64(x, 12) == x / 4096
  {
    PowersNearWord();
  }

  // How the low bits look after the final shift.
  lemma ShiftedLowBits(lo: u64, k: nat)
    requires 13 <= k <= 64
    ensures Shr64(lo, 76 - k) == Refill(lo, k) / 4096
    ensures Shr64(Shl64(lo, 3), 76 - k) == Remaining(lo, k) / 4096
  {
    hide Pow2, Shl64;
    PowersNearWord();
    Pow2Add(64 - k, 12);
    DivDiv(lo, Pow2(64 - k), 4096);
    FractionValue(0, lo);
    var l, c, d := lo % LOW61, Pow2(k - 3), Pow2(76 - k);
    Pow2Add(k - 3, 3);
    Pow2Add(k - 3, 76 - k);
    Pow2Add(61, 12);
    DivDiv(l * Pow2(k), LOW61, 4096);
    assert l * Pow2(k) == (l * 8) * c by {
      Comm(c, 8);
      Assoc(l, 8, c);
    }
    DivDiv((l * 8) * c, c, d);
    DivPlus(l * 8, c, 0);
  }

  // What is left of the fraction, what the code puts below it, and what belongs there.
  function Leading(f: nat, k: nat): nat
    requires k <= 64
  {
    f % Pow2(64 - k)
  }

  function Refill(lo: nat, k: nat): nat
    requires k <= 64
  {
    Div(lo, Pow2(64 - k))
  }

  function Remaining(lo: nat, k: nat): nat { lo % LOW61 * Pow2(k) / LOW61 }

  function Filled(g: nat, k: nat, t: nat): nat { (g * Pow2(k) + t) / 4096 }

  lemma CompareLowBits(g: nat, k: nat, t: nat, u: nat)
    requires t < Pow2(k) && u < Pow2(k)
    ensures Filled(g, k, t) == Filled(g, k, u) <==> k <= 12 || t / 4096 == u / 4096
  {
    hide Pow2;
    PowersNearWord();
    if k <= 12 {
      Pow2Add(k, 12 - k);
      FewLowBits(g, Pow2(k), t, Pow2(12 - k));
      FewLowBits(g, Pow2(k), u, Pow2(12 - k));
    } else {
      Pow2Add(k - 12, 12);
      ManyLowBits(g, Pow2(k - 12), t, u);
    }
  }

  lemma CodeMantissa(hi: u64, lo: u64, k: nat)
    requires k == LeadingZeros64(Fraction(hi, lo)) + 1 <= 64
    requires Fraction(hi, lo) < Pow2(65 - k) && Pow2(64 - k) <= Fraction(hi, lo)
    ensures Refill(lo, k) < Pow2(k)
    ensures Mantissa(hi, lo) == Filled(Leading(Fraction(hi, lo), k), k, Refill(lo, k))
  {
    hide Pow2, Shl64, Shr64, BitOr, Fraction, LeadingZeros64;
    var f := Fraction(hi, lo);
    LowBitsOf(f, lo, k);
    var g, t := f % Pow2(64 - k), lo / Pow2(64 - k);
    OrIsPlus(g, k, t);
    assert Shl64(f, k) == g * Pow2(k);
    ShrTwelve(g * Pow2(k) + t);
  }

  lemma TrueMantissa(hi: u64, lo: u64, k: nat)
    requires 1 <= k <= 64
    requires Fraction(hi, lo) < Pow2(65 - k) && Pow2(64 - k) <= Fraction(hi, lo)
    ensures Remaining(lo, k) < Pow2(k)
    ensures ExactMantissa(hi, lo, k - 1) == Filled(Leading(Fraction(hi, lo), k), k, Remaining(lo, k))
  {
    hide Pow2, Fraction, Shl64, Shr64;
    FractionValue(hi, lo);
    TopOfFraction(Fraction(hi, lo), lo, k);
    Assemble(Leading(Fraction(hi, lo), k) * Pow2(k), lo % LOW61, Pow2(k));
  }

  lemma TopOfFraction(f: u64, lo: u64, k: nat)
    requires 1 <= k <= 64 && f < Pow2(65 - k) && Pow2(64 - k) <= f
    ensures (f * LOW61 + lo % LOW61) * Pow2(k) % OCTANT == Leading(f, k) * Pow2(k) * LOW61 + lo % LOW61 * Pow2(k)
  {
    hide Pow2, Shl64, Shr64;
    LowBitsOf(f, lo, k);
  }

  lemma Assemble(gp: nat, l: nat, p: nat)
    requires l < LOW61 && p > 0
    ensures (gp * LOW61 + l * p) / (LOW61 * 4096) == (gp + l * p / LOW61) / 4096
    ensures l * p / LOW61 < p
  {
    DivDiv(gp * LOW61 + l * p, LOW61, 4096);
    DivPlus(gp, LOW61, l * p);
    MulStrict(l, LOW61, p);
    Comm(LOW61, p);
    Quotient(l * p, p);
  }

  lemma Quotient(x: nat, p: nat)
    requires x < p * LOW61
    ensures x / LOW61 < p
  {
  }

  /**
    The code refills the fraction from lo as it stood before its top three bits moved
    into hi.  The 52 bits it keeps are those of the fraction exactly when fewer than
    twelve leading zeros were shifted out, or those bits of lo repeat three places down.
   */
  lemma MantissaIsExact(hi: u64, lo: u64)
    requires Fraction(hi, lo) > 0
    ensures
      var lz := LeadingZeros64(Fraction(hi, lo));
      Mantissa(hi, lo) == ExactMantissa(hi, lo, lz)
      <==> lz < 12 || Shr64(lo, 75 - lz) == Shr64(Shl64(lo, 3), 75 - lz)
  {
    hide Pow2, Shl64, Shr64, Fraction, Mantissa, ExactMantissa, Leading, Refill, Remaining, Filled;
    var lz := LeadingZeros64(Fraction(hi, lo));
    hide LeadingZeros64;
    var k := lz + 1;
    CodeMantissa(hi, lo, k);
    TrueMantissa(hi, lo, k);
    CompareLowBits(Leading(Fraction(hi, lo), k), k, Refill(lo, k), Remaining(lo, k));
    if k > 12 {
      ShiftedLowBits(lo, k);
    }
  }

  // 536880612.0
  const WITNESS: nat := 0x41C0_0012_F200_0000

  lemma WitnessDigits()
    ensures Digit(M_PI4, 0, 38) == 0x51_7CC1_B727
    ensures Digit(M_PI4, 1, 38) == 0x220A_94FE_13AB_E8FA
    ensures Digit(M_PI4, 2, 38) == 0x9A6E_E06D_B14A_CC9E
  {
    hide Digit;
    DigitAt38(M_PI4, 0);
    DigitAt38(M_PI4, 1);
    DigitAt38(M_PI4, 2);
  }

  lemma DigitAt38(words: seq<u64>, i: nat)
    requires i + 1 < |words|
    ensures Digit(words, i, 38) == words[i] % 0x400_0000 * 0x40_0000_0000 + words[i + 1] / 0x400_0000
  {
    hide Digit;
    assert Pow2(26) == 0x400_0000 by { Pow2Values(); Pow2Add(10, 10); Pow2Add(20, 6); }
    assert Pow2(38) == 0x40_0000_0000 by { Pow2Add(26, 12); }
    hide Pow2;
    DigitValue(words, i, 38);
  }

  lemma WitnessWords()
    ensures Reducible(WITNESS)
    ensures ReducedWords(WITNESS) == (0x4000_208C_B2CD_B574, 0x2058_8AC9_C8A3_AC8A)
  {
    hide Digit, ProductWords, Significand;
    FieldsOf(WITNESS);
    WitnessDigits();
    var ix := Significand(WITNESS);
    assert ix == 0x10_0012_F200_0000;
    ProductValue(0x51_7CC1_B727, 0x220A_94FE_13AB_E8FA, 0x9A6E_E06D_B14A_CC9E, ix);
    var (hi, lo) := ProductWords(0x51_7CC1_B727, 0x220A_94FE_13AB_E8FA, 0x9A6E_E06D_B14A_CC9E, ix);
    assert hi * W + lo == 0x4000_208C_B2CD_B574 * W + 0x2058_8AC9_C8A3_AC8A;
  }

  /** For x = 536880612, the low bits of the fraction are not those of the product. */
  lemma MantissaCanBeWrong()
    ensures Reducible(WITNESS)
    ensures
      var (hi, lo) := ReducedWords(WITNESS);
      Mantissa(hi, lo) != ExactMantissa(hi, lo, LeadingZeros64(Fraction(hi, lo)))
  {
    hide ReducedWords, Mantissa, ExactMantissa, Fraction, Pow2, Shl64;
    WitnessWords();
    var hi: u64, lo: u64 := 0x4000_208C_B2CD_B574, 0x2058_8AC9_C8A3_AC8A;
    FractionValue(hi, lo);
    assert Fraction(hi, lo) == 0x1_0465_966D_ABA1;
    ZerosOf(0x1_0465_966D_ABA1);
    MantissaIsExact(hi, lo);
    assert Pow2(60) == 0x1000_0000_0000_0000 by { Pow2Values(); Pow2Add(60, 2); }
    assert Shr64(lo, 60) == 2;
    assert Shr64(Shl64(lo, 3), 60) == 0;
  }

  lemma ZerosOf(f: u64)
    requires f == 0x1_0465_966D_ABA1
    ensures LeadingZeros64(f) == 15
  {
    var n := LeadingZeros64(f);
    hide LeadingZeros64;
    Pow2Values();
    assert Pow2(48) == 0x1_0000_0000_0000 by { Pow2Add(48, 4); }
    assert Pow2(49) == 0x2_0000_0000_0000 by { Pow2Add(48, 1); }
    if n < 15 { Pow2Le(49, 63 - n); }
    if n > 15 { Pow2Le(64 - n, 48); }
  }
}
