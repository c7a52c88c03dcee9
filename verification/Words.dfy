/**
  Machine words of math/bits and of Go's shift and bit operators, on natural
  numbers with the wrap-around written out.  A uint64 is a natural number below
  2^64; a shift count of 64 or more yields 0, as the Go language defines.
 */
module Words {

  const W: nat := 0x1_0000_0000_0000_0000

  const WW: nat := 0x1_0000_0000_0000_0000_0000_0000_0000_0000

  type u64 = x: nat | x < 0x1_0000_0000_0000_0000

  function Pow2(n: nat): (p: nat)
    ensures p >= 1
  {
    if n == 0 then 1 else 2 * Pow2(n - 1)
  }

  function Shl64(x: u64, n: nat): u64 {
    if n >= 64 then 0 else (x * Pow2(n)) % W
  }

  function Shr64(x: u64, n: nat): u64 {
    if n >= 64 then 0 else Div(x, Pow2(n))
  }

  function Div(x: nat, d: nat): (q: nat)
    requires d >= 1
    ensures q <= x && q == x / d
  {
    DivLe(x, d);
    x / d
  }

  // The shift count a - b, computed in a 64-bit uint.
  function CountSub(a: nat, b: nat): nat
    requires a < W && b < W
  {
    if a >= b then a - b else W + a - b
  }

  function BitOr(a: nat, b: nat): nat
    decreases a + b
  {
    if a == 0 then b
    else if b == 0 then a
    else 2 * BitOr(a / 2, b / 2) + (if a % 2 == 1 || b % 2 == 1 then 1 else 0)
  }

  function Or64(a: u64, b: u64): u64 {
    Pow2Values();
    OrBound(a, b, 64);
    BitOr(a, b)
  }

  function BitXor(a: nat, b: nat): nat
    decreases a + b
  {
    if a == 0 then b
    else if b == 0 then a
    else 2 * BitXor(a / 2, b / 2) + (if a % 2 != b % 2 then 1 else 0)
  }

  // a &^ b
  function BitAndNot(a: nat, b: nat): nat {
    if a == 0 || b == 0 then a
    else 2 * BitAndNot(a / 2, b / 2) + (if a % 2 == 1 && b % 2 == 0 then 1 else 0)
  }

  function Not64(x: u64): u64 { W - 1 - x }

  // x & (1<<n - 1); the mask is all ones once n reaches 64.
  function LowBits(x: u64, n: nat): u64 {
    if n >= 64 then x else ModLe(x, Pow2(n)); x % Pow2(n)
  }

  // bits.Len64
  function Len(x: nat): (n: nat)
    ensures x < Pow2(n)
    ensures x > 0 ==> n > 0 && Pow2(n - 1) <= x
  {
    if x == 0 then 0 else 1 + Len(x / 2)
  }

  function LeadingZeros64(x: u64): (n: nat)
    ensures n <= 64
    ensures x < Pow2(64 - n)
    ensures x > 0 ==> n < 64 && Pow2(63 - n) <= x
  {
    Pow2Values();
    LenBound(x, 64);
    64 - Len(x)
  }

  // bits.Mul64, bits.Add64, bits.Sub64
  function Mul64(x: u64, y: u64): (r: (u64, u64))
    ensures r.0 * W + r.1 == x * y
  {
    ProductFits(x, y);
    Split(x * y)
  }

  // The two words of a product.
  function Split(p: nat): (r: (u64, u64))
    requires p < WW
    ensures r.0 * W + r.1 == p
  {
    (p / 0x1_0000_0000_0000_0000, p % 0x1_0000_0000_0000_0000)
  }

  function Add64(x: u64, y: u64, carry: nat): (r: (u64, nat))
    requires carry <= 1
    ensures r.0 + r.1 * W == x + y + carry && r.1 <= 1
  {
    ((x + y + carry) % W, (x + y + carry) / W)
  }

  function Sub64(x: u64, y: u64, borrow: nat): (r: (u64, nat))
    requires borrow <= 1
    ensures r.0 - r.1 * W == x - y - borrow && r.1 <= 1
  {
    if x >= y + borrow then (x - y - borrow, 0) else (W + x - y - borrow, 1)
  }

  // ---- Arithmetic used by the proofs ----

  lemma DivLe(x: nat, d: nat)
    requires d >= 1
    ensures x / d <= x
  {
    MulMono(1, d, x / d);
    assert x == d * (x / d) + x % d;
  }

  lemma ModLe(x: nat, d: nat)
    requires d >= 1
    ensures x % d <= x && x % d < d
  {
    MulMono(0, d, x / d);
    assert x == d * (x / d) + x % d;
  }

  lemma ProductFits(x: u64, y: u64)
    ensures x * y < WW
  {
    var w := W;
    assert w * w == WW;
    ProductBound(x, y, w);
  }

  lemma ProductBound(x: nat, y: nat, w: nat)
    requires x < w && y < w
    ensures x * y < w * w
  {
    MulMono(x, w, y);
    MulStrict(y, w, w);
  }

  lemma MulMono(a: int, b: int, c: nat)
    requires a <= b
    ensures a * c <= b * c
  {
  }

  lemma MulStrict(a: int, b: int, c: nat)
    requires a < b && c > 0
    ensures a * c < b * c
  {
  }

  lemma Dist(a: int, b: int, c: int)
    ensures (a + b) * c == a * c + b * c
  {
  }

  lemma Assoc(a: int, b: int, c: int)
    ensures (a * b) * c == a * (b * c)
  {
  }

  lemma Comm(a: int, b: int)
    ensures a * b == b * a
  {
  }

  lemma Cancel(a: int, b: int, p: nat)
    requires p > 0 && a * p == b * p
    ensures a == b
  {
    if a < b { MulStrict(a, b, p); } else if b < a { MulStrict(b, a, p); }
  }

  lemma {:induction false} Pow2Add(a: nat, b: nat)
    ensures Pow2(a + b) == Pow2(a) * Pow2(b)
  {
    if a > 0 {
      Pow2Add(a - 1, b);
      assert Pow2(a + b) == 2 * Pow2(a - 1 + b);
      assert 2 * (Pow2(a - 1) * Pow2(b)) == (2 * Pow2(a - 1)) * Pow2(b);
    }
  }

  lemma Pow2Values()
    ensures Pow2(9) == 512 && Pow2(10) == 1024
    ensures Pow2(52) == 0x10_0000_0000_0000
    ensures Pow2(1) == 2 && Pow2(2) == 4
    ensures Pow2(53) == 0x20_0000_0000_0000 && Pow2(54) == 0x40_0000_0000_0000
    ensures Pow2(62) == 0x4000_0000_0000_0000
    ensures Pow2(63) == 0x8000_0000_0000_0000
    ensures Pow2(64) == W
  {
    assert Pow2(9) == 512 && Pow2(10) == 1024;
    Pow2Add(10, 10); Pow2Add(20, 10); Pow2Add(10, 2); Pow2Add(30, 10); Pow2Add(40, 12);
    Pow2Add(52, 1); Pow2Add(53, 1); Pow2Add(52, 10); Pow2Add(62, 1); Pow2Add(63, 1);
  }

  lemma ShiftMore(m: int, a: nat, b: nat)
    ensures (m * Pow2(a)) * Pow2(b) == m * Pow2(a + b)
  {
    hide Pow2;
    Pow2Add(a, b);
    Assoc(m, Pow2(a), Pow2(b));
  }

  lemma {:induction false} Pow2Le(a: nat, b: nat)
    requires a <= b
    ensures Pow2(a) <= Pow2(b)
  {
    if a < b { Pow2Le(a, b - 1); }
  }

  lemma {:induction false} Pow2Lt(a: nat, b: nat)
    requires a < b
    ensures Pow2(a) < Pow2(b)
  {
    Pow2Le(a, b - 1);
  }

  lemma {:induction false} LenBound(x: nat, k: nat)
    requires x < Pow2(k)
    ensures Len(x) <= k
  {
    if x > 0 { LenBound(x / 2, k - 1); }
  }

  // The quotient and the remainder are the only pair that recomposes x.
  lemma DivModUnique(x: nat, d: nat, q: int, r: int)
    requires d > 0 && x == q * d + r && 0 <= r < d
    ensures x / d == q && x % d == r
  {
    var q', r' := x / d, x % d;
    assert x == q' * d + r';
    if q < q' { MulMono(q + 1, q', d); assert false; }
    if q' < q { MulMono(q' + 1, q, d); assert false; }
  }

  // m * p modulo the word, for p * q == 2^64.
  lemma CutAt(m: u64, p: nat, q: nat)
    requires p * q == W && p > 0 && q > 0
    ensures m / q < p && m * p == (m / q) * W + (m % q) * p && m * p % W == (m % q) * p
    ensures (m % q) * p + p <= W
  {
    var h, l := m / q, m % q;
    assert m * p == h * W + l * p by {
      Dist(h * q, l, p);
      Assoc(h, q, p);
      Comm(q, p);
    }
    assert l * p + p <= W by {
      MulMono(l + 1, q, p);
      Dist(l, 1, p);
      Comm(q, p);
    }
    DivModUnique(m * p, W, h, l * p);
    if h >= p {
      MulMono(p, h, q);
      assert false;
    }
  }

  lemma ShiftByOne(x: u64)
    ensures x < 0x8000_0000_0000_0000 ==> Shl64(x, 1) == 2 * x
    ensures Shr64(x, 1) == x / 2
  {
    assert Pow2(1) == 2;
  }

  // Disjoint bits: or is plus.
  lemma {:induction false} OrIsPlus(q: nat, k: nat, b: nat)
    requires b < Pow2(k)
    ensures BitOr(q * Pow2(k), b) == q * Pow2(k) + b
    ensures BitOr(b, q * Pow2(k)) == q * Pow2(k) + b
  {
    if k == 0 || q == 0 {
      assert q * Pow2(k) == 0 || b == 0;
    } else {
      var a := q * Pow2(k);
      assert a == 2 * (q * Pow2(k - 1));
      OrIsPlus(q, k - 1, b / 2);
      assert a / 2 == q * Pow2(k - 1);
    }
  }

  lemma {:induction false} OrBound(a: nat, b: nat, k: nat)
    requires a < Pow2(k) && b < Pow2(k)
    ensures BitOr(a, b) < Pow2(k)
  {
    if a != 0 && b != 0 { OrBound(a / 2, b / 2, k - 1); }
  }

  lemma {:induction false} OrZero(a: nat, b: nat)
    ensures BitOr(a, b) == 0 <==> a == 0 && b == 0
    decreases a + b
  {
    if a != 0 && b != 0 { OrZero(a / 2, b / 2); }
  }

  lemma {:induction false} OrSelf(a: nat)
    ensures BitOr(a, a) == a
  {
    if a != 0 { OrSelf(a / 2); }
  }

  lemma {:induction false} XorZero(a: nat, b: nat)
    ensures BitXor(a, b) == 0 <==> a == b
    decreases a + b
  {
    if a != 0 && b != 0 { XorZero(a / 2, b / 2); }
  }

  lemma OrOne(a: nat)
    ensures BitOr(a, 1) == (if a % 2 == 1 then a else a + 1)
  {
    if a != 0 { assert BitOr(a / 2, 0) == a / 2; }
  }

  // Clearing j bits above the lowest k leaves the lowest k, when nothing lies above.
  lemma {:induction false} AndNotMask(a: nat, j: nat, k: nat)
    requires a < Pow2(j + k)
    ensures BitAndNot(a, (Pow2(j) - 1) * Pow2(k)) == a % Pow2(k)
    decreases k
  {
    if k == 0 {
      AndNotOnes(a, j);
    } else {
      AndNotMask(a / 2, j, k - 1);
      AndNotShift(a, Pow2(j) - 1, Pow2(k - 1));
    }
  }

  // One more zero at the end of the mask, one more bit kept.
  lemma AndNotShift(a: nat, m: nat, d: nat)
    requires d > 0 && BitAndNot(a / 2, m * d) == a / 2 % d
    ensures BitAndNot(a, m * (2 * d)) == a % (2 * d)
  {
    hide BitAndNot;
    ModDouble(a, d);
    MulMono(0, m, d);
    var p := m * d;
    assert m * (2 * d) == 2 * p by {
      Assoc(m, d, 2);
    }
    AndNotEven(a, p);
  }

  lemma AndNotEven(a: nat, p: nat)
    ensures BitAndNot(a, 2 * p) == 2 * BitAndNot(a / 2, p) + a % 2
  {
  }

  lemma ModDouble(a: nat, d: nat)
    requires d > 0
    ensures a % (2 * d) == 2 * (a / 2 % d) + a % 2
  {
    var q, r := a / 2 / d, a / 2 % d;
    assert a / 2 == q * d + r;
    assert q * (2 * d) == 2 * (q * d);
    DivModUnique(a, 2 * d, q, 2 * r + a % 2);
  }

  lemma {:induction false} AndNotOnes(a: nat, j: nat)
    requires a < Pow2(j)
    ensures BitAndNot(a, Pow2(j) - 1) == 0
  {
    if a > 0 {
      AndNotOnes(a / 2, j - 1);
      assert (Pow2(j) - 1) / 2 == Pow2(j - 1) - 1;
    }
  }

  lemma AndNotOne(a: nat)
    ensures BitAndNot(a, 1) == a - a % 2
  {
  }

}
