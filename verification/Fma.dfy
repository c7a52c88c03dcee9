/**
  math.FMA: x*y+z with one rounding.
 */
module Fma {
  import opened Words
  import opened Float64
  import opened TwoWords
  import opened Rounding

  // ---- split ----

  // Sign, biased exponent and significand; a subnormal is normalised.
  function SplitBits(b: u64): (nat, int, u64) {
    var sign := Shr64(b, 63);
    var exp := ExpField(b);
    var mantissa := FracField(b);
    if exp == 0 then
      var shift := NormalShift(mantissa);
      (sign, 1 - shift, Shl64(mantissa, shift))
    else
      (sign, exp, Or64(mantissa, FRAC))
  }

  function NormalShift(f: u64): nat
    requires f < FRAC
  {
    Pow2Values();
    LenBound(f, 52);
    LeadingZeros64(f) - 11
  }

  /** The parts of a finite non-zero pattern denote its value. */
  lemma SplitValue(b: u64)
    requires Finite(b) && Magnitude(b) != 0
    ensures var (s, e, m) := SplitBits(b);
      && s == (if Negative(b) then 1 else 0)
      && FRAC <= m < 2 * FRAC && -51 <= e <= 2046
      && Val(Magnitude(b)) * Pow2(100) == m * Pow2(99 + e)
  {
    hide Pow2, Shl64, Shr64, Or64, NormalShift, Val;
    FieldsOfMagnitude(b);
    if Magnitude(b) < FRAC {
      SubnormalSplit(Magnitude(b));
      ValBelow(Magnitude(b));
    } else {
      NormalSplit(Magnitude(b));
    }
  }

  lemma ValBelow(x: nat)
    requires x < FRAC
    ensures Val(x) == x
  {
    ValSmall(x);
  }

  lemma NormalSplit(x: nat)
    requires FRAC <= x < INF
    ensures var m := FRAC + x % FRAC;
      && Or64(x % FRAC, FRAC) == m
      && Val(x) * Pow2(100) == m * Pow2(99 + x / FRAC)
  {
    Pow2Values();
    hide Pow2, BitOr;
    OrIsPlus(1, 52, x % FRAC);
    ShiftMore(FRAC + x % FRAC, x / FRAC - 1, 100);
  }

  lemma FieldsOfMagnitude(b: u64)
    requires Finite(b)
    ensures ExpField(b) == Magnitude(b) / FRAC && FracField(b) == Magnitude(b) % FRAC
    ensures Magnitude(b) / FRAC <= 2046
    ensures Shr64(b, 63) == (if Negative(b) then 1 else 0)
  {
    Pow2Values();
    hide Pow2;
  }

  lemma SubnormalSplit(f: nat)
    requires 0 < f < FRAC
    ensures var k := NormalShift(f);
      && 1 <= k <= 52 && Shl64(f, k) == f * Pow2(k) && FRAC <= f * Pow2(k) < 2 * FRAC
      && f * Pow2(100) == Shl64(f, k) * Pow2(100 - k)
  {
    hide Pow2, LeadingZeros64, Shl64;
    Pow2Values();
    SubnormalZeros(f);
    var z := LeadingZeros64(f);
    var k := z - 11;
    Pow2Add(63 - z, k);
    Pow2Add(64 - z, k);
    MulMono(Pow2(63 - z), f, Pow2(k));
    MulStrict(f, Pow2(64 - z), Pow2(k));
    ShiftedWord(f, k);
    ShiftMore(f, k, 100 - k);
  }

  lemma SubnormalZeros(f: u64)
    requires 0 < f < FRAC
    ensures 12 <= LeadingZeros64(f) <= 63
    ensures Pow2(63 - LeadingZeros64(f)) <= f < Pow2(64 - LeadingZeros64(f))
  {
    Pow2Values();
    LenBound(f, 52);
  }

  // ---- Normalised two-word operands ----

  const SCALE: nat := 1300

  // A significand with its leading bit at position 126, at a feasible exponent.
  ghost predicate Operand(e: int, u1: u64, u2: u64) {
    && -1125 <= e <= 3070
    && 0x4000_0000_0000_0000 <= u1 < 0x8000_0000_0000_0000
    && u2 % 4 == 0
  }

  // The operand's magnitude, in units of 2^(-1149-1300).
  ghost function Scaled(e: int, u1: u64, u2: u64): nat
    requires e >= -1300
  {
    Two(u1, u2) * Pow2(e + SCALE)
  }

  const FRAC2: nat := 0x100_0000_0000_0000_0000_0000_0000  // 2^104

  function Bit62Zero(u: u64): nat { Shr64(Not64(u), 62) % 2 }

  /** The addend as an operand. */
  lemma AddendOperand(v: nat, e: int, m: u64)
    requires FRAC <= m < 2 * FRAC && -51 <= e <= 2046
    requires v * Pow2(100) == m * Pow2(99 + e)
    ensures Operand(e, Shl64(m, 10), 0)
    ensures Scaled(e, Shl64(m, 10), 0) == v * Pow2(1375)
  {
    hide Pow2, Shl64, Two, Scaled;
    AddendWords(m);
    ScaledIs(e, Shl64(m, 10), 0);
    AddendScale(v, e, m);
  }

  lemma AddendScale(v: nat, e: int, m: nat)
    requires -51 <= e && v * Pow2(100) == m * Pow2(99 + e)
    ensures m * Pow2(74) * Pow2(e + SCALE) == v * Pow2(1375)
  {
    hide Pow2;
    ShiftMore(m, 99 + e, 1275);
    ShiftMore(v, 100, 1275);
    ShiftMore(m, 74, e + SCALE);
  }

  lemma AddendWords(m: u64)
    requires FRAC <= m < 2 * FRAC
    ensures Shl64(m, 10) == 1024 * m
    ensures Two(Shl64(m, 10), 0) == m * Pow2(74)
  {
    Pow2Values();
    Pow2Add(64, 10);
    hide Pow2;
    assert Shl64(m, 10) == 1024 * m;
    hide Shl64;
    assert m * (W * 1024) == (1024 * m) * W;
  }

  /** The product, normalised by the conditional shift, as an operand. */
  lemma ProductOperand(vx: nat, xe: int, xm: u64, vy: nat, ye: int, ym: u64)
    requires FRAC <= xm < 2 * FRAC && -51 <= xe <= 2046 && vx * Pow2(100) == xm * Pow2(99 + xe)
    requires FRAC <= ym < 2 * FRAC && -51 <= ye <= 2046 && vy * Pow2(100) == ym * Pow2(99 + ye)
    ensures var (h, l) := Mul64(Shl64(xm, 10), Shl64(ym, 11));
      var s := Bit62Zero(h);
      var (p1, p2) := Shl(h, l, s);
      var pe := xe + ye - BIAS + 1 - s;
      && s <= 1
      && Operand(pe, p1, p2)
      && Scaled(pe, p1, p2) == (vx * vy) * Pow2(301)
  {
    hide Pow2, Shl, Mul64, Scaled, Shl64;
    ProductWords(xm, ym);
    var (h, l) := Mul64(Shl64(xm, 10), Shl64(ym, 11));
    ProductNormal(h, l, xm * ym);
    var s := Bit62Zero(h);
    var (p1, p2) := Shl(h, l, s);
    var pe := xe + ye - BIAS + 1 - s;
    ProductScale(vx, xe, xm, vy, ye, ym, s);
    ShiftMore(xm * ym, 21 + s, pe + SCALE);
    ScaledIs(pe, p1, p2);
  }

  lemma ScaledIs(e: int, u1: u64, u2: u64)
    requires e >= -1300
    ensures Scaled(e, u1, u2) == Two(u1, u2) * Pow2(e + SCALE)
  {
  }

  lemma ProductWords(xm: u64, ym: u64)
    requires FRAC <= xm < 2 * FRAC && FRAC <= ym < 2 * FRAC
    ensures TwoOf(Mul64(Shl64(xm, 10), Shl64(ym, 11))) == 0x20_0000 * (xm * ym)
    ensures FRAC2 <= xm * ym < 4 * FRAC2
  {
    Pow2Values();
    assert Pow2(11) == 2048;
    hide Pow2, Mul64;
    assert Shl64(xm, 10) == 1024 * xm && Shl64(ym, 11) == 2048 * ym;
    assert (1024 * xm) * (2048 * ym) == 0x20_0000 * (xm * ym);
    assert FRAC * FRAC == FRAC2;
    MulMono(FRAC, xm, FRAC);
    MulMono(FRAC, ym, xm); Comm(xm, ym); Comm(FRAC, xm);
    MulStrict(xm, 2 * FRAC, ym);
    Comm(2 * FRAC, ym);
    MulStrict(ym, 2 * FRAC, 2 * FRAC);
  }

  lemma ProductNormal(h: u64, l: u64, q: nat)
    requires Two(h, l) == 0x20_0000 * q && FRAC2 <= q < 4 * FRAC2
    ensures var s := Bit62Zero(h);
      var (p1, p2) := Shl(h, l, s);
      && s <= 1
      && Two(p1, p2) == q * Pow2(21 + s)
      && 0x4000_0000_0000_0000 <= p1 < 0x8000_0000_0000_0000 && p2 % 4 == 0
  {
    ProductTop(h, l, q);
    hide Two, Bit62Zero, Shl, Pow2;
    if h < 0x4000_0000_0000_0000 {
      ProductShifted(h, l, q);
    } else {
      ShlZero(h, l);
    }
    ProductFactor();
    Comm(q, 0x20_0000); Comm(q, 0x40_0000);
  }

  lemma ProductFactor()
    ensures Pow2(21) == 0x20_0000 && Pow2(22) == 0x40_0000
  {
    Pow2Values();
    Pow2Add(10, 10); Pow2Add(20, 1); Pow2Add(20, 2);
  }

  lemma ProductShifted(h: u64, l: u64, q: nat)
    requires Two(h, l) == 0x20_0000 * q && FRAC2 <= q < 2 * FRAC2
    requires 2 * Two(h, l) < WW
    ensures var (p1, p2) := Shl(h, l, 1);
      && Two(p1, p2) == 0x40_0000 * q
      && 0x4000_0000_0000_0000 <= p1 < 0x8000_0000_0000_0000 && p2 % 4 == 0
  {
    hide Two, Shl;
    DoubleWords(h, l);
    var x := 2 * Two(h, l);
    assert x == 0x40_0000 * q;
    NormalWords(Shl(h, l, 1).0, Shl(h, l, 1).1, x);
  }

  lemma DoubleWords(h: u64, l: u64)
    requires 2 * Two(h, l) < WW
    ensures TwoOf(Shl(h, l, 1)) == 2 * Two(h, l)
  {
    hide Two, Shl;
    assert Pow2(1) == 2;
    Comm(2, Two(h, l));
    ShlExact(h, l, 1);
  }

  lemma ProductTop(h: u64, l: u64, q: nat)
    requires Two(h, l) == 0x20_0000 * q && FRAC2 <= q < 4 * FRAC2
    ensures 0x2000_0000_0000_0000 <= h < 0x8000_0000_0000_0000 && l % 4 == 0
    ensures Bit62Zero(h) == if h < 0x4000_0000_0000_0000 then 1 else 0
    ensures h < 0x4000_0000_0000_0000 ==> q < 2 * FRAC2
    ensures 2 * Two(h, l) < WW
  {
    Pow2Values();
    hide Pow2;
    assert h * 0x1_0000_0000_0000_0000 + l == 0x20_0000 * q;
  }

  lemma NormalWords(p1: u64, p2: u64, x: nat)
    requires Two(p1, p2) == x && x % 4 == 0
    requires 0x20_0000 * (2 * FRAC2) <= x < 0x20_0000 * (4 * FRAC2)
    ensures 0x4000_0000_0000_0000 <= p1 < 0x8000_0000_0000_0000 && p2 % 4 == 0
  {
    assert p1 * 0x1_0000_0000_0000_0000 + p2 == x;
  }

  lemma ProductScale(vx: nat, xe: int, xm: nat, vy: nat, ye: int, ym: nat, s: nat)
    requires s <= 1 && xe >= -51 && ye >= -51
    requires vx * Pow2(100) == xm * Pow2(99 + xe)
    requires vy * Pow2(100) == ym * Pow2(99 + ye)
    ensures (vx * vy) * Pow2(301) == (xm * ym) * Pow2(21 + s + (xe + ye - 1022 - s + SCALE))
  {
    hide Pow2;
    Pow2Add(100, 100);
    Pow2Add(99 + xe, 99 + ye);
    Cross(vx, Pow2(100), vy, Pow2(100));
    Cross(xm, Pow2(99 + xe), ym, Pow2(99 + ye));
    ShiftMore(vx * vy, 200, 101);
    ShiftMore(xm * ym, 198 + xe + ye, 101);
  }

  lemma Cross(a: nat, p: nat, b: nat, q: nat)
    ensures (a * p) * (b * q) == (a * b) * (p * q)
  {
    Assoc(a, p, b * q); Assoc(p, b, q); Comm(p, b); Assoc(b, p, q); Assoc(a, b, p * q);
  }

  // ---- Alignment ----

  ghost predicate Ordered(pe: int, p: nat, ze: int, z: nat) {
    pe > ze || (pe == ze && p >= z)
  }

  lemma OperandValue(e: int, u1: u64, u2: u64)
    requires Operand(e, u1, u2)
    ensures Pow2(126) <= Two(u1, u2) < Pow2(127) && Two(u1, u2) % 4 == 0
    ensures -1125 <= e <= 3070
  {
    Pow2Values();
    Pow2Add(62, 64); Pow2Add(63, 64);
    hide Pow2;
    assert u1 * 0x1_0000_0000_0000_0000 + u2 == Two(u1, u2);
  }

  /** The alignment as integers: z shifted right by pe - ze with a sticky bit. */
  lemma AlignedSticky(pe: int, p: nat, ze: int, z: nat)
    requires pe >= ze >= -1300 && p % 2 == 0
    ensures var t := StickyShr(z, pe - ze);
      var a, b := p * Pow2(pe + SCALE), z * Pow2(ze + SCALE);
      Sticky(p + t, a + b, Pow2(pe + SCALE)) && Sticky(p - t, a - b, Pow2(pe + SCALE))
  {
    hide Pow2, Sticky, StickyShr;
    var n, e := pe - ze, ze + SCALE;
    var t := StickyShr(z, n);
    StickySelf(z, n);
    StickyAdd(p, t, z, Pow2(n));
    StickyScale(p + t, p * Pow2(n) + z, Pow2(n), Pow2(e));
    StickyScale(p - t, p * Pow2(n) - z, Pow2(n), Pow2(e));
    Pow2Add(n, e);
    ShiftMore(p, n, e);
    Dist(p * Pow2(n), z, Pow2(e));
    Dist(p * Pow2(n), 0 - z, Pow2(e));
    NegMul(z, Pow2(e));
    assert n + e == pe + SCALE;
  }

  lemma StickySelf(z: nat, n: nat)
    ensures Sticky(StickyShr(z, n), z, Pow2(n))
  {
    assert Sticky(z, z, 1);
    hide StickyShr, Sticky, Pow2;
    StickyShift(z, z, 1, n);
    assert 1 * Pow2(n) == Pow2(n);
  }

  lemma AlignedExact(z: nat, n: nat)
    requires z % 4 == 0 && n <= 2
    ensures StickyShr(z, n) * Pow2(n) == z
  {
    assert Pow2(0) == 1 && Pow2(1) == 2 && Pow2(2) == 4;
    hide *;
    var q := if n == 0 then z else if n == 1 then z / 2 else z / 4;
    ExactQuotient(z, n, q);
  }

  lemma ExactQuotient(z: nat, n: nat, q: nat)
    requires z == q * Pow2(n)
    ensures StickyShr(z, n) == q
  {
    hide Pow2;
    DivModUnique(z, Pow2(n), q, 0);
  }

  lemma AlignedBound(z: nat, n: nat, k: nat)
    requires z < Pow2(k) && 1 <= n <= k
    ensures StickyShr(z, n) <= Pow2(k - n)
  {
    hide *;
    var t, b := StickyParts(z, n);
    MakeOddLe(t);
    Pow2Add(k - n, n);
    if t >= Pow2(k - n) { MulMono(Pow2(k - n), t, Pow2(n)); }
  }

  lemma MakeOddLe(t: nat)
    ensures t <= MakeOdd(t) <= t + 1
  {
  }

  lemma AlignedZero(z: nat, n: nat)
    requires z < Pow2(127) && n >= 127
    ensures StickyShr(z, n) <= 1
  {
    Pow2Le(127, n);
    hide Pow2;
    SmallMod(z, Pow2(n));
    DivModUnique(z, Pow2(n), 0, z);
  }

  /** The aligned addend against the leading operand. */
  lemma AlignedSize(pe: int, p: nat, ze: int, z: nat)
    requires Pow2(126) <= p < Pow2(127) && z < Pow2(127) && Ordered(pe, p, ze, z)
    ensures var t := StickyShr(z, pe - ze);
      && t < Pow2(127) && t <= p
      && (pe - ze >= 2 ==> t <= Pow2(125))
  {
    var n := pe - ze;
    Pow2Lt(126, 127);
    if n == 0 {
      AlignedExact0(z);
    } else if n < 127 {
      AlignedBound(z, n, 127);
      Pow2Le(127 - n, 126);
      if n >= 2 { Pow2Le(127 - n, 125); }
    } else {
      AlignedZero(z, n);
      Pow2Le(0, 125);
      Pow2Le(0, 126);
    }
    hide *;
  }

  lemma AlignedExact0(z: nat)
    ensures StickyShr(z, 0) == z
  {
    assert Pow2(0) == 1;
  }

  // ---- The sum and the difference, normalised to bit 62 ----

  /** Same signs: one conditional extra shift. */
  lemma SumNormal(s1: u64, s2: u64, pe: int, a: nat)
    requires pe >= -1300
    requires Pow2(126) <= Two(s1, s2) && Sticky(Two(s1, s2), a, Pow2(pe + SCALE))
    ensures var top := HighBit(s1);
      var m := ShrCompress(s1, s2, 64 + top).1;
      && top + HighBit(Not64(s1)) == 1
      && 1024 * FRAC <= m < 2048 * FRAC
      && Represents(m, pe - (1 - top), a)
  {
    hide Pow2, Sticky, Two, HighBit, Not64, ShrCompress, StickyShr, Represents;
    var x, top := Two(s1, s2), HighBit(s1);
    TopBit(s1, s2);
    ShrCompressValue(s1, s2, 64 + top);
    StickyShift(x, a, Pow2(pe + SCALE), 64 + top);
    Pow2Add(pe + SCALE, 64 + top);
    StickyWindow(x, 64 + top);
    var r := ShrCompress(s1, s2, 64 + top);
    LowWord(r.0, r.1);
    assert pe + SCALE + (64 + top) == pe - (1 - top) + UNIT;
    RepresentsIs(r.1, pe - (1 - top), a);
  }

  lemma RepresentsIs(m: nat, pe: int, a: nat)
    requires pe + UNIT >= 0 && Sticky(m, a, Pow2(pe + UNIT))
    ensures Represents(m, pe, a)
  {
  }

  function HighBit(u: u64): (b: nat)
    ensures b <= 1
  {
    Pow2Values();
    Shr64(u, 63)
  }

  lemma TopBit(s1: u64, s2: u64)
    requires Pow2(126) <= Two(s1, s2)
    ensures var top := HighBit(s1);
      && top + HighBit(Not64(s1)) == 1
      && Pow2(126 + top) <= Two(s1, s2) < Pow2(127 + top)
  {
    Pow2Values();
    Pow2Add(63, 64); Pow2Add(64, 64);
    hide Pow2;
    assert s1 * 0x1_0000_0000_0000_0000 + s2 == Two(s1, s2);
  }

  lemma LowWord(u1: u64, u2: u64)
    requires Two(u1, u2) < W
    ensures u1 == 0 && Two(u1, u2) == u2
  {
  }

  // A value with its leading bit at 62 + k has it at 62 after a sticky shift by k.
  lemma StickyWindow(x: nat, k: nat)
    requires Pow2(62 + k) <= x < Pow2(63 + k)
    ensures 1024 * FRAC <= StickyShr(x, k) < 2048 * FRAC
  {
    Pow2Values();
    hide *;
    var t, b := StickyParts(x, k);
    Pow2Add(62, k); Pow2Add(63, k);
    if t < Pow2(62) { MulMono(t + 1, Pow2(62), Pow2(k)); Dist(t, 1, Pow2(k)); }
    if t >= Pow2(63) { MulMono(Pow2(63), t, Pow2(k)); }
    WindowOdd(t);
  }

  lemma WindowOdd(t: nat)
    requires 0x4000_0000_0000_0000 <= t < 0x8000_0000_0000_0000
    ensures 1024 * FRAC <= t < 2048 * FRAC && 1024 * FRAC <= MakeOdd(t) < 2048 * FRAC
  {
  }

  /** Opposite signs: shift out the leading zeros.  Either the difference is exact,
      or it lost at most one leading bit. */
  lemma DiffNormal(s1: u64, s2: u64, pe: int, a: nat)
    requires -1125 <= pe
    requires 0 < Two(s1, s2) < Pow2(127) && Sticky(Two(s1, s2), a, Pow2(pe + SCALE))
    requires Two(s1, s2) * Pow2(pe + SCALE) == a || Two(s1, s2) >= Pow2(125)
    ensures var nz := Lz(s1, s2);
      && 1 <= nz < 128
      && (var (m1, m2) := Shl(s1, s2, nz - 1);
          var m := Or64(m1, NonZero(m2));
          && 1024 * FRAC <= m < 2048 * FRAC
          && Represents(m, pe - nz, a))
  {
    hide Pow2, Sticky, Two, ShrCompress, StickyShr, Represents, Lz, Shl, Or64;
    var x, nz := Two(s1, s2), Lz(s1, s2);
    DiffShift(s1, s2);
    var (m1, m2) := Shl(s1, s2, nz - 1);
    ShrCompressValue(m1, m2, 64);
    CompressIs(m1, m2);
    StickyWindow(x * Pow2(nz - 1), 64);
    var m := Or64(m1, NonZero(m2));
    if x * Pow2(pe + SCALE) == a {
      DiffExact(x, pe, a, nz - 1);
    } else {
      DiffInexact(x, pe, a, nz - 1);
    }
    RepresentsIs(m, pe - nz, a);
  }

  lemma CompressIs(m1: u64, m2: u64)
    ensures TwoOf(ShrCompress(m1, m2, 64)) == Or64(m1, NonZero(m2))
  {
  }

  lemma DiffShift(s1: u64, s2: u64)
    requires 0 < Two(s1, s2) < Pow2(127)
    ensures var nz := Lz(s1, s2); var j: int := nz - 1;
      && 1 <= nz < 128
      && TwoOf(Shl(s1, s2, j)) == Two(s1, s2) * Pow2(j)
      && Pow2(126) <= Two(s1, s2) * Pow2(j) < Pow2(127)
      && (Two(s1, s2) >= Pow2(125) ==> nz <= 2)
  {
    hide Pow2, Two, Lz, Shl;
    var x, nz := Two(s1, s2), Lz(s1, s2);
    LzValue(s1, s2);
    var j := nz - 1;
    Pow2Add(127 - nz, j); Pow2Add(128 - nz, j);
    MulMono(Pow2(127 - nz), x, Pow2(j));
    MulStrict(x, Pow2(128 - nz), Pow2(j));
    WordsPower();
    Pow2Lt(127, 128);
    if nz > 2 { Pow2Le(128 - nz, 125); }
    ShlExact(s1, s2, j);
  }

  lemma WordsPower()
    ensures Pow2(128) == WW
  {
    Pow2Values();
    Pow2Add(64, 64);
  }

  lemma DiffExact(x: nat, pe: int, a: nat, j: nat)
    requires -1125 <= pe && j <= 126 && x * Pow2(pe + SCALE) == a
    ensures Sticky(StickyShr(x * Pow2(j), 64), a, Pow2(pe - (j + 1) + UNIT))
  {
    hide Pow2, StickyShr;
    ShiftMore(x, j, pe + SCALE - j);
    StickyShift(x * Pow2(j), a, Pow2(pe + SCALE - j), 64);
    Pow2Add(pe + SCALE - j, 64);
    assert pe + SCALE - j + 64 == pe - (j + 1) + UNIT;
  }

  lemma DiffInexact(x: nat, pe: int, a: nat, j: nat)
    requires -1125 <= pe && j <= 1 && Sticky(x, a, Pow2(pe + SCALE))
    ensures Sticky(StickyShr(x * Pow2(j), 64), a, Pow2(pe - (j + 1) + UNIT))
  {
    hide Pow2, StickyShr, Sticky;
    StickyShift(x, a, Pow2(pe + SCALE), 64 - j);
    Pow2Add(pe + SCALE, 64 - j);
    assert pe + SCALE + (64 - j) == pe - (j + 1) + UNIT;
    StickyUndo(x, j);
  }

  // Shifting left by j and sticky right by 64 is sticky right by 64 - j.
  lemma StickyUndo(x: nat, j: nat)
    requires j <= 1
    ensures StickyShr(x * Pow2(j), 64) == StickyShr(x, 64 - j)
  {
    assert Pow2(0) == 1 && Pow2(1) == 2 && Pow2(64) == 2 * Pow2(63);
    hide Pow2;
    if j == 1 {
      DoubleBoth(x, Pow2(63));
    }
  }

  lemma DoubleBoth(x: nat, p: nat)
    requires p > 0
    ensures x * 2 / (2 * p) == x / p && x * 2 % (2 * p) == 2 * (x % p)
  {
    var q, r := Parts(x, p);
    assert q * (2 * p) == 2 * (q * p);
    DivModUnique(2 * x, 2 * p, q, 2 * r);
  }

  // ---- Rounding and packing ----

  // Overflow, gradual underflow, round to even, pack.
  function Pack(sign: nat, pe: int, m: u64): u64
    requires sign <= 1 && 1024 * FRAC <= m < 2048 * FRAC
  {
    if pe > 1022 + BIAS || (pe == 1022 + BIAS && Shr64(m + 512, 63) == 1) then
      sign * SIGN + INF
    else
      var m1 := if pe < 0 then Or64(Shr64(m, -pe), NonZero(LowBits(m, -pe))) else m;
      PackFits(pe, m, m1);
      var r := RoundTen(m1);
      var e := if pe < 0 || r == 0 then 0 else pe;
      sign * SIGN + e * FRAC + r
  }

  lemma PackFits(pe: int, m: u64, m1: u64)
    requires 1024 * FRAC <= m < 2048 * FRAC
    requires pe <= 1022 + BIAS && !(pe == 1022 + BIAS && Shr64(m + 512, 63) == 1)
    requires m1 == if pe < 0 then Or64(Shr64(m, -pe), NonZero(LowBits(m, -pe))) else m
    ensures m1 + 512 < W
    ensures pe < 0 ==> RoundTen(m1) <= FRAC
    ensures pe >= 0 ==> FRAC <= RoundTen(m1) <= 2 * FRAC && pe * FRAC + RoundTen(m1) < INF
  {
    if pe < 0 { PackShift(m, -pe); }
    hide Or64, Shr64, LowBits, RoundTen;
    RoundTenValue(m1);
    if pe == 1022 + BIAS { TopOfRange(m); }
  }

  lemma TopOfRange(m: u64)
    requires m < 2048 * FRAC && Shr64(m + 512, 63) != 1
    ensures m + 512 < 2048 * FRAC
  {
    Pow2Values();
    hide Pow2;
  }

  // The gradual-underflow shift is the sticky shift, for every count.
  lemma PackShift(m: u64, n: nat)
    requires 1024 * FRAC <= m < 2048 * FRAC && n >= 1
    ensures Or64(Shr64(m, n), NonZero(LowBits(m, n))) == StickyShr(m, n)
    ensures StickyShr(m, n) <= 1024 * FRAC
  {
    Pow2Values();
    if n < 64 {
      OrBit(0, Shr64(m, n), LowBits(m, n));
      AlignedBound(m, n, 63);
      Pow2Le(63 - n, 62);
    } else {
      OrBit(0, 0, m);
      Pow2Le(64, n);
      hide Pow2;
      SmallMod(m, Pow2(n));
      DivModUnique(m, Pow2(n), 0, m);
    }
  }

  /** Rounding and packing give the nearest float of the represented magnitude. */
  lemma PackNearest(sign: nat, pe: int, m: u64, a: nat)
    requires sign <= 1 && 1024 * FRAC <= m < 2048 * FRAC && Represents(m, pe, a)
    ensures Negative(Pack(sign, pe, m)) == (sign == 1)
    ensures NearestEven(Magnitude(Pack(sign, pe, m)), a, Pow2(1375))
  {
    hide Pow2, Represents, NearestEven, RoundTen, Or64, Shr64, LowBits, StickyShr;
    if pe > 1022 + BIAS || (pe == 1022 + BIAS && Shr64(m + 512, 63) == 1) {
      if pe == 1022 + BIAS { TopCarry(m); }
      OverflowNearest(m, pe, a);
    } else if pe >= 0 {
      PackFits(pe, m, m);
      NormalNearest(m, pe, a);
    } else {
      PackShift(m, -pe);
      var m1 := Or64(Shr64(m, -pe), NonZero(LowBits(m, -pe)));
      PackFits(pe, m, m1);
      UnderflowShift(m, pe, a);
      SubnormalNearest(m1, a);
    }
  }

  lemma TopCarry(m: u64)
    requires m + 512 < W && Shr64(m + 512, 63) == 1
    ensures m >= 2048 * FRAC - 512
  {
    Pow2Values();
    hide Pow2;
  }

  lemma UnderflowShift(m: nat, pe: int, a: nat)
    requires pe < 0 && Represents(m, pe, a)
    ensures Represents(StickyShr(m, -pe), 0, a)
  {
    hide Pow2, StickyShr, Sticky;
    StickyShift(m, a, Pow2(pe + UNIT), -pe);
    Pow2Add(pe + UNIT, -pe);
  }

  // ---- The two-word sum and difference ----

  lemma AddWords(p1: u64, p2: u64, z1: u64, z2: u64)
    requires Two(p1, p2) + Two(z1, z2) < WW
    ensures var (lo, c) := Add64(p2, z2, 0);
      Two(Add64(p1, z1, c).0, lo) == Two(p1, p2) + Two(z1, z2)
  {
    var (lo, c) := Add64(p2, z2, 0);
    var (hi, d) := Add64(p1, z1, c);
    assert hi + d * W == p1 + z1 + c && lo + c * W == p2 + z2;
  }

  lemma SubWords(p1: u64, p2: u64, z1: u64, z2: u64)
    requires Two(p1, p2) >= Two(z1, z2)
    ensures var (lo, c) := Sub64(p2, z2, 0);
      Two(Sub64(p1, z1, c).0, lo) == Two(p1, p2) - Two(z1, z2)
  {
    var (lo, c) := Sub64(p2, z2, 0);
    var (hi, d) := Sub64(p1, z1, c);
    assert hi - d * W == p1 - z1 - c && lo - c * W == p2 - z2;
  }

  // ---- Signs and the exact result ----

  function Signed(s: nat, v: nat): int { if s == 1 then -(v as int) else v }

  // x*y + z exactly, in units of 2^-2148.
  ghost function Exact(x: u64, y: u64, z: u64): int {
    SignedVal(x) * SignedVal(y) + SignedVal(z) * Pow2(1074)
  }

  /** r is x*y + z rounded once, to nearest with ties to even; an exact zero is +0. */
  ghost predicate Fused(x: u64, y: u64, z: u64, r: u64) {
    var n := Exact(x, y, z);
    if n == 0 then r == 0
    else Negative(r) == (n < 0) && NearestEven(Magnitude(r), Abs(n), Pow2(1074))
  }

  lemma ExactScaled(x: u64, y: u64, z: u64, ps: nat, zs: nat, a: nat, b: nat)
    requires ps == (if Negative(x) == Negative(y) then 0 else 1)
    requires zs == (if Negative(z) then 1 else 0)
    requires a == (Val(Magnitude(x)) * Val(Magnitude(y))) * Pow2(301)
    requires b == Val(Magnitude(z)) * Pow2(1375)
    ensures Exact(x, y, z) * Pow2(301) == Signed(ps, a) + Signed(zs, b)
  {
    hide Pow2, Val;
    var vx: int, vy: int, vz: int := Val(Magnitude(x)), Val(Magnitude(y)), Val(Magnitude(z));
    var k := Pow2(301);
    SignProduct(vx, vy);
    Dist(SignedVal(x) * SignedVal(y), SignedVal(z) * Pow2(1074), k);
    NegMul(vx * vy, k);
    ShiftMore(vz, 1074, 301);
    ShiftMore(-vz, 1074, 301);
    NegMul(vz, Pow2(1375));
  }

  lemma SignProduct(x: int, y: int)
    ensures (-x) * y == -(x * y) && x * (-y) == -(x * y) && (-x) * (-y) == x * y
  {
  }

  lemma FusedNonzero(x: u64, y: u64, z: u64, ps: nat, zs: nat, a: nat, b: nat, r: u64)
    requires ps <= 1 && zs <= 1
    requires Exact(x, y, z) * Pow2(301) == Signed(ps, a) + Signed(zs, b)
    requires if ps == zs then a + b > 0 else a > b
    requires Negative(r) == (ps == 1)
    requires NearestEven(Magnitude(r), if ps == zs then a + b else a - b, Pow2(1375))
    ensures Fused(x, y, z, r)
  {
    hide Pow2, NearestEven, Exact;
    var n, k := Exact(x, y, z), Pow2(301);
    if n >= 0 { MulMono(0, n, k); } else { MulStrict(n, 0, k); }
    NegMul(n, k);
    assert Abs(n) * k == if ps == zs then a + b else a - b;
    Pow2Add(1074, 301);
    NearestEvenScale(Magnitude(r), Abs(n), Pow2(1074), k);
  }

  lemma FusedZero(x: u64, y: u64, z: u64, ps: nat, zs: nat, a: nat)
    requires ps <= 1 && zs <= 1 && ps != zs
    requires Exact(x, y, z) * Pow2(301) == Signed(ps, a) + Signed(zs, a)
    ensures Fused(x, y, z, 0)
  {
    hide Pow2, NearestEven, Exact;
    Cancel(Exact(x, y, z), 0, Pow2(301));
  }

  /** The comparison of exponents and high words orders the magnitudes. */
  lemma OrderedScaled(pe: int, p: nat, ze: int, z: nat)
    requires -1300 <= ze && Ordered(pe, p, ze, z)
    requires Pow2(126) <= p && z < Pow2(127)
    ensures p * Pow2(pe + SCALE) >= z * Pow2(ze + SCALE)
    ensures p * Pow2(pe + SCALE) == z * Pow2(ze + SCALE) ==> pe == ze && p == z
  {
    hide Pow2;
    if pe == ze {
      if p > z { MulStrict(z, p, Pow2(ze + SCALE)); }
    } else {
      HigherExponent(p, z, pe - ze, Pow2(ze + SCALE));
      ShiftMore(p, pe - ze, ze + SCALE);
    }
  }

  lemma HigherExponent(p: nat, z: nat, n: nat, g: nat)
    requires n >= 1 && Pow2(126) <= p && z < Pow2(127) && g > 0
    ensures z * g < p * Pow2(n) * g
  {
    Pow2Le(1, n);
    assert Pow2(1) == 2 && Pow2(127) == 2 * Pow2(126);
    hide Pow2;
    Comm(p, Pow2(n));
    MulMono(2, Pow2(n), p);
    MulStrict(z, p * Pow2(n), g);
  }

  lemma SameWords(p1: u64, p2: u64, z1: u64, z2: u64)
    ensures Two(p1, p2) == Two(z1, z2) <==> p1 == z1 && p2 == z2
    ensures p1 > z1 ==> Two(p1, p2) > Two(z1, z2)
  {
  }

  // ---- The addition of two operands, and the whole routine ----

  /** Adding the aligned significands, then rounding. */
  method SumRounded(ps: nat, pe0: int, pm1: u64, pm2: u64, zm1: u64, zm2: u64, ghost n: nat)
    returns (r: u64)
    requires ps <= 1 && pe0 >= -1125
    requires Two(pm1, pm2) + Two(zm1, zm2) < WW && Pow2(126) <= Two(pm1, pm2)
    requires Sticky(Two(pm1, pm2) + Two(zm1, zm2), n, Pow2(pe0 + SCALE))
    ensures Negative(r) == (ps == 1) && NearestEven(Magnitude(r), n, Pow2(1375))
  {
    hide Pow2, Two, Sticky, Represents, NearestEven, ShrCompress, Pack, HighBit, Not64, Add64;
    AddWords(pm1, pm2, zm1, zm2);
    var (p2, c) := Add64(pm2, zm2, 0);
    var p1 := Add64(pm1, zm1, c).0;
    SumNormal(p1, p2, pe0, n);
    var pe := pe0 - HighBit(Not64(p1));
    var m := ShrCompress(p1, p2, 64 + HighBit(p1)).1;
    PackNearest(ps, pe, m, n);
    r := Pack(ps, pe, m);
  }

  /** Subtracting the aligned significands, then rounding. */
  method DiffRounded(ps: nat, pe0: int, pm1: u64, pm2: u64, zm1: u64, zm2: u64, ghost n: nat)
    returns (r: u64)
    requires ps <= 1 && pe0 >= -1125
    requires 0 < Two(pm1, pm2) - Two(zm1, zm2) < Pow2(127)
    requires Sticky(Two(pm1, pm2) - Two(zm1, zm2), n, Pow2(pe0 + SCALE))
    requires (Two(pm1, pm2) - Two(zm1, zm2)) * Pow2(pe0 + SCALE) == n
             || Two(pm1, pm2) - Two(zm1, zm2) >= Pow2(125)
    ensures Negative(r) == (ps == 1) && NearestEven(Magnitude(r), n, Pow2(1375))
  {
    hide Pow2, Two, Sticky, Represents, NearestEven, Shl, Lz, Or64, Pack, Sub64;
    SubWords(pm1, pm2, zm1, zm2);
    var (p2, c) := Sub64(pm2, zm2, 0);
    var p1 := Sub64(pm1, zm1, c).0;
    DiffNormal(p1, p2, pe0, n);
    var nz := Lz(p1, p2);
    var pe := pe0 - nz;
    var (h, l) := Shl(p1, p2, nz - 1);
    var m := Or64(h, NonZero(l));
    PackNearest(ps, pe, m, n);
    r := Pack(ps, pe, m);
  }

  /** The sum for operands in order: the exact cancellation, the alignment,
      the sum or difference, rounded. */
  method AddOrdered(ps: nat, pe: int, p1: u64, p2: u64, zs: nat, ze: int, z1: u64, z2: u64)
    returns (zero: bool, r: u64)
    requires ps <= 1 && zs <= 1 && Operand(pe, p1, p2) && Operand(ze, z1, z2)
    requires Ordered(pe, Two(p1, p2), ze, Two(z1, z2))
    ensures var h, l := Scaled(pe, p1, p2), Scaled(ze, z1, z2);
      && h >= l
      && zero == (ps != zs && h == l)
      && (zero ==> r == 0)
      && (!zero ==> Negative(r) == (ps == 1)
                    && NearestEven(Magnitude(r), if ps == zs then h + l else h - l, Pow2(1375)))
  {
    hide Pow2, Two, Sticky, NearestEven, ShrCompress, StickyShr, Negative, Magnitude, Scaled, Operand;
    ghost var p, z := Two(p1, p2), Two(z1, z2);
    OperandValue(pe, p1, p2); OperandValue(ze, z1, z2);
    ghost var a, b := Scaled(pe, p1, p2), Scaled(ze, z1, z2);
    ScaledIs(pe, p1, p2); ScaledIs(ze, z1, z2);
    OrderedScaled(pe, p, ze, z);
    SameWords(p1, p2, z1, z2);
    zero, r := false, 0;
    if ps != zs && pe == ze && p1 == z1 && p2 == z2 {
      zero := true;
      return;
    }
    AlignedSticky(pe, p, ze, z);
    AlignedSize(pe, p, ze, z);
    ShrCompressValue(z1, z2, pe - ze);
    var (a1, a2) := ShrCompress(z1, z2, pe - ze);
    if ps == zs {
      SumFits(p, Two(a1, a2));
      r := SumRounded(ps, pe, p1, p2, a1, a2, a + b);
    } else {
      DiffFacts(pe, p, ze, z);
      r := DiffRounded(ps, pe, p1, p2, a1, a2, a - b);
    }
  }

  /** The sum of two operands, rounded, after ordering them by
      magnitude. */
  method AddRounded(ps: nat, pe: int, pm1: u64, pm2: u64, zs: nat, ze: int, zm1: u64, zm2: u64)
    returns (zero: bool, r: u64)
    requires ps <= 1 && zs <= 1
    requires Operand(pe, pm1, pm2) && Operand(ze, zm1, zm2) && zm2 == 0
    ensures var a, b := Scaled(pe, pm1, pm2), Scaled(ze, zm1, zm2);
      var (hs, h, ls, l) := if a >= b then (ps, a, zs, b) else (zs, b, ps, a);
      && zero == (ps != zs && a == b)
      && (zero ==> r == 0)
      && (!zero && h != l ==> Negative(r) == (hs == 1))
      && (!zero && h == l ==> Negative(r) == (ps == 1))
      && (!zero ==> NearestEven(Magnitude(r), if ps == zs then h + l else h - l, Pow2(1375)))
  {
    hide Pow2, Two, NearestEven, Negative, Magnitude, Operand, Scaled;
    SameWords(pm1, pm2, zm1, zm2); SameWords(zm1, zm2, pm1, pm2);
    if pm1 >= zm1 { LowWordOrder(pm1, pm2, zm1); }
    if pe < ze || (pe == ze && pm1 < zm1) {
      zero, r := AddOrdered(zs, ze, zm1, zm2, ps, pe, pm1, pm2);
    } else {
      zero, r := AddOrdered(ps, pe, pm1, pm2, zs, ze, zm1, zm2);
    }
  }

  lemma LowWordOrder(p1: u64, p2: u64, z1: u64)
    requires p1 >= z1
    ensures Two(p1, p2) >= Two(z1, 0)
  {
    MulMono(z1, p1, W);
  }

  lemma SumFits(p: nat, t: nat)
    requires p < Pow2(127) && t < Pow2(127)
    ensures p + t < WW
  {
    WordsPower();
    assert Pow2(128) == 2 * Pow2(127);
  }

  lemma DiffFacts(pe: int, p: nat, ze: int, z: nat)
    requires ze >= -1300 && Pow2(126) <= p < Pow2(127) && z < Pow2(127) && z % 4 == 0
    requires Ordered(pe, p, ze, z)
    requires p * Pow2(pe + SCALE) != z * Pow2(ze + SCALE)
    ensures var t := StickyShr(z, pe - ze);
      var a, b := p * Pow2(pe + SCALE), z * Pow2(ze + SCALE);
      && t < p
      && ((p - t) * Pow2(pe + SCALE) == a - b || p - t >= Pow2(125))
  {
    hide StickyShr, Pow2;
    AlignedSize(pe, p, ze, z);
    if pe - ze <= 2 {
      DiffIsExact(pe, p, ze, z);
    } else {
      HalfPower();
    }
  }

  lemma HalfPower()
    ensures Pow2(126) == 2 * Pow2(125)
  {
  }

  lemma DiffIsExact(pe: int, p: nat, ze: int, z: nat)
    requires -1300 <= ze <= pe <= ze + 2 && z % 4 == 0
    ensures (p - StickyShr(z, pe - ze)) * Pow2(pe + SCALE) == p * Pow2(pe + SCALE) - z * Pow2(ze + SCALE)
  {
    hide StickyShr, Pow2;
    var n := pe - ze;
    var t := StickyShr(z, n);
    AlignedExact(z, n);
    Pow2Add(n, ze + SCALE);
    Assoc(t, Pow2(n), Pow2(ze + SCALE));
    Dist(p, -(t as int), Pow2(pe + SCALE));
    NegMul(t, Pow2(pe + SCALE));
  }

  /** FMA on finite non-zero operands: x*y + z, rounded once. */
  method FiniteFMA(x: u64, y: u64, z: u64) returns (r: u64)
    requires Finite(x) && Finite(y) && Finite(z)
    requires Magnitude(x) != 0 && Magnitude(y) != 0 && Magnitude(z) != 0
    ensures Fused(x, y, z, r)
  {
    hide Pow2, Val, NearestEven, Shl64, Mul64, Shl, SplitBits, Bit62Zero, Scaled, Fused, Exact, Operand;
    SplitValue(x); SplitValue(y); SplitValue(z);
    var (xs, xe, xm) := SplitBits(x);
    var (ys, ye, ym) := SplitBits(y);
    var (zs, ze, zm) := SplitBits(z);
    ghost var vx, vy, vz := Val(Magnitude(x)), Val(Magnitude(y)), Val(Magnitude(z));
    ProductOperand(vx, xe, xm, vy, ye, ym);
    AddendOperand(vz, ze, zm);
    var pe := xe + ye - BIAS + 1;
    var (pm1, pm2) := Mul64(Shl64(xm, 10), Shl64(ym, 11));
    var zm1: u64 := Shl64(zm, 10);
    var zm2: u64 := 0;
    var ps := if xs == ys then 0 else 1;
    var is62zero := Bit62Zero(pm1);
    var shifted := Shl(pm1, pm2, is62zero);
    pm1, pm2 := shifted.0, shifted.1;
    pe := pe - is62zero;
    ghost var a, b := Scaled(pe, pm1, pm2), Scaled(ze, zm1, zm2);
    ExactScaled(x, y, z, ps, zs, a, b);
    OperandPositive(pe, pm1, pm2);
    var zero: bool;
    zero, r := AddRounded(ps, pe, pm1, pm2, zs, ze, zm1, zm2);
    if zero {
      FusedZero(x, y, z, ps, zs, a);
    } else if a >= b {
      FusedNonzero(x, y, z, ps, zs, a, b, r);
    } else {
      FusedNonzero(x, y, z, zs, ps, b, a, r);
    }
  }

  lemma OperandPositive(e: int, u1: u64, u2: u64)
    requires Operand(e, u1, u2)
    ensures Scaled(e, u1, u2) > 0
  {
    hide Pow2;
    MulStrict(0, Two(u1, u2), Pow2(e + SCALE));
  }

  /** FMA.  Operands that are zero, infinite or NaN go to the hardware expression
      x*y + z, which is a parameter here; a non-finite z alone is returned. */
  method FMA(hardware: (u64, u64, u64) -> u64, x: u64, y: u64, z: u64) returns (r: u64)
    ensures var special := Magnitude(x) == 0 || Magnitude(y) == 0 || Magnitude(z) == 0
                           || !Finite(x) || !Finite(y);
      && (special ==> r == hardware(x, y, z))
      && (!special && !Finite(z) ==> r == z)
      && (!special && Finite(z) ==> Fused(x, y, z, r))
  {
    if Magnitude(x) == 0 || Magnitude(y) == 0 || Magnitude(z) == 0 || !Finite(x) || !Finite(y) {
      return hardware(x, y, z);
    }
    if !Finite(z) { return z; }
    r := FiniteFMA(x, y, z);
  }

  /** The fused result is unique, so FMA computes the function IEEE 754 defines. */
  lemma FusedUnique(x: u64, y: u64, z: u64, r: u64, q: u64)
    requires Fused(x, y, z, r) && Fused(x, y, z, q)
    ensures r == q
  {
    hide NearestEven, Exact, Pow2;
    var n := Exact(x, y, z);
    if n != 0 { NearestEvenUnique(Magnitude(r), Magnitude(q), Abs(n), Pow2(1074)); }
  }
}
