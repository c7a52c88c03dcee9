/**
  The two-word shifts of math.FMA, against arithmetic on the 128-bit value.
 */
module TwoWords {
  import opened Words

  function Zero(x: nat): nat { if x == 0 then 1 else 0 }
  function NonZero(x: nat): nat { if x != 0 then 1 else 0 }

  function Shl(u1: u64, u2: u64, n: nat): (u64, u64)
    requires n < W
  {
    (Or64(Or64(Shl64(u1, n), Shr64(u2, CountSub(64, n))), Shl64(u2, CountSub(n, 64))),
     Shl64(u2, n))
  }

  function Shr(u1: u64, u2: u64, n: nat): (u64, u64)
    requires n < W
  {
    (Shr64(u1, n),
     Or64(Or64(Shr64(u2, n), Shl64(u1, CountSub(64, n))), Shr64(u1, CountSub(n, 64))))
  }

  function ShrCompress(u1: u64, u2: u64, n: nat): (u64, u64)
    requires n < W
  {
    if n == 0 then (u1, u2)
    else if n == 64 then (0, Or64(u1, NonZero(u2)))
    else if n >= 128 then (0, NonZero(Or64(u1, u2)))
    else if n < 64 then
      var (r1, r2) := Shr(u1, u2, n);
      (r1, Or64(r2, NonZero(LowBits(u2, n))))
    else
      var (r1, r2) := Shr(u1, u2, n);
      (r1, Or64(r2, NonZero(Or64(LowBits(u1, n - 64), u2))))
  }

  function Lz(u1: u64, u2: u64): nat {
    var l := LeadingZeros64(u1);
    if l == 64 then l + LeadingZeros64(u2) else l
  }

  // The value of two words.
  function Two(u1: u64, u2: u64): nat { u1 * W + u2 }
  function TwoOf(r: (u64, u64)): nat { Two(r.0, r.1) }

  function MakeOdd(x: nat): nat { if x % 2 == 0 then x + 1 else x }

  /** Floor shift whose lowest bit also records whether anything was lost. */
  function StickyShr(u: nat, n: nat): nat {
    var q := Div(u, Pow2(n));
    if u % Pow2(n) == 0 then q else MakeOdd(q)
  }

  // ---- shl ----

  /** shl multiplies by 2^n modulo 2^128, for every count. */
  lemma ShlValue(u1: u64, u2: u64, n: nat)
    requires n < W
    ensures TwoOf(Shl(u1, u2, n)) == Two(u1, u2) * Pow2(n) % WW
  {
    hide Shl, Pow2;
    if n == 0 {
      ShlZero(u1, u2);
      PowZero();
      TwoBound(u1, u2);
      SmallMod(Two(u1, u2), WW);
    } else if n < 64 {
      WordSplit(n);
      ShlSmallWords(u1, u2, n);
      ShlRecompose(u1, u2, Pow2(n), Pow2(64 - n));
    } else if n < 128 {
      WordPower(n);
      WordSplit(n - 64);
      ShlLargeWords(u1, u2, n);
      ShlLargeRecompose(u1, u2, Pow2(n - 64), Pow2(128 - n));
    } else {
      ShlNothing(u1, u2, n);
      PastTwoWords(n);
      ManyWords(Two(u1, u2), Pow2(n - 128));
    }
  }

  /** While nothing is shifted out it multiplies. */
  lemma ShlExact(u1: u64, u2: u64, n: nat)
    requires n < W && Two(u1, u2) * Pow2(n) < WW
    ensures TwoOf(Shl(u1, u2, n)) == Two(u1, u2) * Pow2(n)
  {
    hide Shl, Pow2;
    ShlValue(u1, u2, n);
    SmallMod(Two(u1, u2) * Pow2(n), WW);
  }

  lemma PowZero()
    ensures Pow2(0) == 1
  {
  }

  lemma ShlZero(u1: u64, u2: u64)
    ensures Shl(u1, u2, 0) == (u1, u2)
  {
    assert Shl64(u1, 0) == u1 && Shl64(u2, 0) == u2;
  }

  lemma ShlSmallWords(u1: u64, u2: u64, n: nat)
    requires 0 < n < 64
    ensures
      var p, c := Pow2(n), Pow2(64 - n);
      Shl(u1, u2, n).0 == u1 % c * p + u2 / c && Shl(u1, u2, n).1 == u2 % c * p
  {
    var p, c := Pow2(n), Pow2(64 - n);
    WordSplit(n);
    CutAt(u1, p, c);
    CutAt(u2, p, c);
    ZeroShift(u2, CountSub(n, 64));
    assert Shl64(u1, n) == u1 % c * p && Shl64(u2, n) == u2 % c * p;
    assert Shr64(u2, CountSub(64, n)) == u2 / c;
    OrIsPlus(u1 % c, n, u2 / c);
    assert BitOr(u1 % c * p + u2 / c, 0) == u1 % c * p + u2 / c;
    hide Pow2, BitOr, Shl64;
  }

  lemma SmallMod(x: nat, w: nat)
    requires x < w
    ensures x % w == x
  {
    DivModUnique(x, w, 0, x);
  }

  lemma WordSplit(n: nat)
    requires n <= 64
    ensures Pow2(n) * Pow2(64 - n) == W
  {
    Pow2Values();
    Pow2Add(n, 64 - n);
  }

  lemma ShlRecompose(u1: u64, u2: u64, p: nat, c: nat)
    requires p * c == W && p > 0 && c > 0
    ensures (u1 % c * p + u2 / c) * W + u2 % c * p == Two(u1, u2) * p % WW
  {
    CutAt(u1, p, c);
    CutAt(u2, p, c);
    TwoTimes(u1, u2, p);
    ModTwoWords(Two(u1, u2) * p, u1 / c, u1 % c * p, u2 / c, u2 % c * p, p);
  }

  lemma TwoTimes(u1: u64, u2: u64, p: nat)
    ensures Two(u1, u2) * p == u1 * p * W + u2 * p
  {
    Dist(u1 * W, u2, p);
    Assoc(u1, W, p);
    Comm(W, p);
    Assoc(u1, p, W);
  }

  lemma ModTwoWords(x: nat, h: nat, b: nat, a: nat, d: nat, p: nat)
    requires x == (h * W + b) * W + (a * W + d) && a < p && b + p <= W && d < W
    ensures x % WW == (b + a) * W + d
  {
    DivModUnique(x, WW, h, (b + a) * W + d);
  }

  lemma ShlLargeWords(u1: u64, u2: u64, n: nat)
    requires 64 <= n < 128
    ensures Shl(u1, u2, n) == (u2 % Pow2(128 - n) * Pow2(n - 64), 0)
  {
    var p, c := Pow2(n - 64), Pow2(128 - n);
    WordSplit(n - 64);
    CutAt(u2, p, c);
    ZeroShift(u1, n);
    ZeroShift(u2, n);
    ZeroShift(u2, CountSub(64, n));
    OrSelf(u2);
    var x := u2 % c * p;
    assert Shl64(u2, n - 64) == x;
    hide Pow2, Shl64, Shr64;
    assert BitOr(0, 0) == 0 && BitOr(0, x) == x && BitOr(0, u2) == u2;
    hide BitOr;
  }

  lemma ShlLargeRecompose(u1: u64, u2: u64, p: nat, c: nat)
    requires p * c == W && p > 0 && c > 0
    ensures u2 % c * p * W == Two(u1, u2) * (p * W) % WW
  {
    CutAt(u2, p, c);
    var a, d := u2 / c, u2 % c * p;
    var y := Two(u1, u2) * p;
    TwoTimes(u1, u2, p);
    assert y == u1 * p * W + (a * W + d);
    Assoc(Two(u1, u2), p, W);
    DivModUnique(y * W, WW, u1 * p + a, d * W);
  }

  lemma ShlNothing(u1: u64, u2: u64, n: nat)
    requires 128 <= n < W
    ensures Shl(u1, u2, n) == (0, 0)
  {
    ZeroShift(u1, n);
    ZeroShift(u2, n);
    ZeroShift(u2, CountSub(64, n));
    ZeroShift(u2, CountSub(n, 64));
  }

  lemma PastTwoWords(n: nat)
    requires n >= 128
    ensures Pow2(n) == Pow2(n - 128) * WW
  {
    Pow2Values();
    Pow2Add(64, 64);
    Pow2Add(n - 128, 128);
  }

  lemma ManyWords(x: nat, p: nat)
    ensures x * (p * WW) % WW == 0
  {
    Assoc(x, p, WW);
    DivModUnique(x * p * WW, WW, x * p, 0);
  }

  lemma WordPower(n: nat)
    requires n >= 64
    ensures Pow2(n) == Pow2(n - 64) * W
  {
    Pow2Values();
    Pow2Add(n - 64, 64);
  }

  lemma ShiftedWord(u: u64, k: nat)
    requires k < 64 && u * Pow2(k) < W
    ensures Shl64(u, k) == u * Pow2(k)
  {
    hide Pow2;
    SmallMod(u * Pow2(k), W);
  }

  lemma ZeroShift(u: u64, n: nat)
    ensures Shl64(0, n) == 0 && Shr64(0, n) == 0
    ensures Shr64(u, 0) == u && Shl64(u, 0) == u
    ensures n >= 64 ==> Shl64(u, n) == 0 && Shr64(u, n) == 0
  {
  }

  // ---- shr ----

  /** shr is the floor quotient by 2^n, for every count. */
  lemma ShrValue(u1: u64, u2: u64, n: nat)
    requires n < W
    ensures TwoOf(Shr(u1, u2, n)) == Two(u1, u2) / Pow2(n)
  {
    hide Shr, Pow2;
    if n == 0 {
      ShrZero(u1, u2);
      PowZero();
    } else if n < 64 {
      ShrSmall(u1, u2, n);
    } else if n == 64 {
      ShrWord(u1, u2);
      Pow2Values();
      DivModUnique(Two(u1, u2), W, u1, u2);
    } else if n < 128 {
      ShrLarge(u1, u2, n);
    } else {
      ShrNothing(u1, u2, n);
      PastTwoWords(n);
      TwoBound(u1, u2);
      MulMono(1, Pow2(n - 128), WW);
      DivModUnique(Two(u1, u2), Pow2(n), 0, Two(u1, u2));
    }
  }

  lemma ShrZero(u1: u64, u2: u64)
    ensures Shr(u1, u2, 0) == (u1, u2)
  {
    ZeroShift(u1, 64);
    ZeroShift(u2, 0);
    ZeroShift(u1, CountSub(0, 64));
    assert BitOr(u2, 0) == u2;
  }

  lemma ShrWord(u1: u64, u2: u64)
    ensures Shr(u1, u2, 64) == (0, u1)
  {
    ZeroShift(u1, 64);
    ZeroShift(u2, 64);
    OrSelf(u1);
    assert BitOr(0, u1) == u1;
  }

  lemma ShrNothing(u1: u64, u2: u64, n: nat)
    requires 128 <= n < W
    ensures Shr(u1, u2, n) == (0, 0)
  {
    ZeroShift(u1, n);
    ZeroShift(u2, n);
    ZeroShift(u1, CountSub(64, n));
    ZeroShift(u1, CountSub(n, 64));
  }

  lemma ShrSmall(u1: u64, u2: u64, n: nat)
    requires 0 < n < 64
    ensures TwoOf(Shr(u1, u2, n)) == Two(u1, u2) / Pow2(n)
    ensures Two(u1, u2) % Pow2(n) == u2 % Pow2(n)
  {
    WordSplit(n);
    ShrSmallWords(u1, u2, n);
    hide Pow2, Shr;
    ShrRecompose(u1, u2, Pow2(n), Pow2(64 - n));
  }

  lemma ShrSmallWords(u1: u64, u2: u64, n: nat)
    requires 0 < n < 64
    ensures var p := Pow2(n);
      && Shr(u1, u2, n).0 == u1 / p
      && Shr(u1, u2, n).1 == (u1 % p) * Pow2(64 - n) + u2 / p
  {
    var p, c := Pow2(n), Pow2(64 - n);
    WordSplit(n);
    CutAt(u1, c, p);
    CutAt(u2, c, p);
    ZeroShift(u1, CountSub(n, 64));
    assert Shr64(u2, n) == u2 / p;
    assert Shl64(u1, CountSub(64, n)) == (u1 % p) * c;
    OrIsPlus(u1 % p, 64 - n, u2 / p);
    assert BitOr((u1 % p) * c + u2 / p, 0) == (u1 % p) * c + u2 / p;
    hide Pow2, BitOr, Shl64;
  }

  lemma ShrRecompose(u1: u64, u2: u64, p: nat, c: nat)
    requires p * c == W && p > 0
    ensures Two(u1, u2) / p == (u1 / p) * W + ((u1 % p) * c + u2 / p)
    ensures Two(u1, u2) % p == u2 % p
  {
    var a, b := Parts(u1, p);
    var d, r := Parts(u2, p);
    hide *;
    ShrAlgebra(a, b, d, r, p, c, W);
    TwoIs(u1, u2);
    DivModUnique(Two(u1, u2), p, a * W + (b * c + d), r);
  }

  lemma TwoIs(u1: u64, u2: u64)
    ensures Two(u1, u2) == u1 * W + u2
  {
  }

  lemma Parts(x: nat, d: nat) returns (q: nat, r: nat)
    requires d > 0
    ensures x == q * d + r && r < d && q == x / d && r == x % d
  {
    q, r := Div(x, d), x % d;
  }

  lemma ShrAlgebra(a: nat, b: nat, d: nat, r: nat, p: nat, c: nat, w: nat)
    requires p * c == w
    ensures (a * p + b) * w + (d * p + r) == (a * w + (b * c + d)) * p + r
  {
    Dist(a * p, b, w);
    Assoc(a, p, w); Comm(p, w); Assoc(a, w, p);
    Comm(p, c); Assoc(b, c, p);
    Dist(a * w, b * c + d, p);
    Dist(b * c, d, p);
  }

  lemma ShrLarge(u1: u64, u2: u64, n: nat)
    requires 64 < n < 128
    ensures TwoOf(Shr(u1, u2, n)) == Two(u1, u2) / Pow2(n)
    ensures Two(u1, u2) % Pow2(n) == (u1 % Pow2(n - 64)) * W + u2
  {
    hide Pow2, Shr;
    WordPower(n);
    ShrLargeWords(u1, u2, n);
    WordQuotient(u1, u2, Pow2(n - 64));
  }

  lemma WordQuotient(u1: u64, u2: u64, p: nat)
    requires p > 0
    ensures Two(u1, u2) / (p * W) == u1 / p
    ensures Two(u1, u2) % (p * W) == (u1 % p) * W + u2
  {
    var a, b := Parts(u1, p);
    RestFits(b, p, u2);
    TwoIs(u1, u2);
    hide *;
    Dist(a * p, b, W);
    Assoc(a, p, W);
    DivModUnique(Two(u1, u2), p * W, a, b * W + u2);
  }

  lemma ShrLargeWords(u1: u64, u2: u64, n: nat)
    requires 64 < n < 128
    ensures Shr(u1, u2, n).0 == 0 && Shr(u1, u2, n).1 == u1 / Pow2(n - 64)
  {
    ZeroShift(u1, n);
    ZeroShift(u2, n);
    ZeroShift(u1, CountSub(64, n));
    assert Shr64(u1, CountSub(n, 64)) == u1 / Pow2(n - 64);
    hide Pow2, Shl64, Shr64;
  }

  lemma RestFits(b: nat, p: nat, u: u64)
    requires b < p
    ensures b * W + u < p * W
  {
    MulMono(b + 1, p, W);
  }

  // ---- shrcompress ----

  /** shrcompress is the sticky shift of the 128-bit value, for every count. */
  lemma ShrCompressValue(u1: u64, u2: u64, n: nat)
    requires n < W
    ensures TwoOf(ShrCompress(u1, u2, n)) == StickyShr(Two(u1, u2), n)
  {
    if n == 0 {
      assert Pow2(0) == 1;
    } else if n == 64 {
      CompressWord(u1, u2);
    } else if n >= 128 {
      CompressAll(u1, u2, n);
    } else if n < 64 {
      ShrSmall(u1, u2, n);
      var (r1, r2) := Shr(u1, u2, n);
      assert LowBits(u2, n) == u2 % Pow2(n);
      OrBit(r1, r2, u2 % Pow2(n));
    } else {
      ShrLarge(u1, u2, n);
      var (r1, r2) := Shr(u1, u2, n);
      assert LowBits(u1, n - 64) == u1 % Pow2(n - 64);
      OrZero(u1 % Pow2(n - 64), u2);
      BothZero(u1 % Pow2(n - 64), u2);
      OrBit(r1, r2, Or64(LowBits(u1, n - 64), u2));
    }
  }

  lemma BothZero(a: nat, u: u64)
    ensures a * W + u == 0 <==> a == 0 && u == 0
  {
  }

  // Setting the lowest bit when x is not zero.
  lemma OrBit(r1: u64, r2: u64, x: nat)
    ensures Two(r1, Or64(r2, NonZero(x))) == (if x == 0 then Two(r1, r2) else MakeOdd(Two(r1, r2)))
  {
    OrOne(r2);
    assert BitOr(r2, 0) == r2;
    TwoParity(r1, r2);
    hide BitOr;
  }

  lemma TwoParity(r1: u64, r2: u64)
    ensures Two(r1, r2) % 2 == r2 % 2
  {
    var h := r1 * 0x8000_0000_0000_0000;
    assert Two(r1, r2) == 2 * (h + r2 / 2) + r2 % 2;
    DivModUnique(Two(r1, r2), 2, h + r2 / 2, r2 % 2);
  }

  lemma CompressWord(u1: u64, u2: u64)
    ensures TwoOf(ShrCompress(u1, u2, 64)) == StickyShr(Two(u1, u2), 64)
  {
    Pow2Values();
    DivModUnique(Two(u1, u2), W, u1, u2);
    OrBit(0, u1, u2);
  }

  lemma CompressAll(u1: u64, u2: u64, n: nat)
    requires 128 <= n < W
    ensures TwoOf(ShrCompress(u1, u2, n)) == StickyShr(Two(u1, u2), n)
  {
    OrZero(u1, u2);
    BothZero(u1, u2);
    TwoBound(u1, u2);
    Pow2Le(128, n);
    hide Pow2;
    SmallMod(Two(u1, u2), Pow2(n));
    DivModUnique(Two(u1, u2), Pow2(n), 0, Two(u1, u2));
  }

  lemma TwoBound(u1: u64, u2: u64)
    ensures Two(u1, u2) < WW == Pow2(128)
  {
    Pow2Values();
    Pow2Add(64, 64);
    hide Pow2;
    MulMono(u1, W - 1, W);
  }

  // ---- lz ----

  /** The leading-zero count normalises the value to bit 127. */
  lemma LzValue(u1: u64, u2: u64)
    requires Two(u1, u2) > 0
    ensures Lz(u1, u2) < 128
    ensures Pow2(127 - Lz(u1, u2)) <= Two(u1, u2) < Pow2(128 - Lz(u1, u2))
  {
    var l := LeadingZeros64(u1);
    if l < 64 {
      assert Len(0) == 0;
      hide LeadingZeros64, Pow2;
      WordPower(127 - l);
      WordPower(128 - l);
      MulMono(Pow2(63 - l), u1, W);
      RestFits(u1, Pow2(64 - l), u2);
    } else {
      HighZero(u1);
      hide LeadingZeros64, Pow2;
      assert Two(u1, u2) == u2;
    }
  }

  lemma HighZero(u: u64)
    requires LeadingZeros64(u) == 64
    ensures u == 0
  {
  }
}
