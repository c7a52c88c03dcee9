/**
  IEEE 754 binary64 as bit patterns.  The magnitude of a finite pattern is an
  exact natural number in units of 2^-1074, the smallest subnormal; the pattern
  of infinity is given the value 2^1024, one step past the largest finite one,
  which is what makes "nearest, ties to even" agree with the overflow rule of
  IEEE 754-2008 section 4.3.1.
 */
module Float64 {
  import opened Words

  const FRAC: nat := 0x10_0000_0000_0000         // 2^52
  const INF: nat := 0x7FF0_0000_0000_0000        // uvinf
  const SIGN: nat := 0x8000_0000_0000_0000
  const SHIFT: nat := 52
  const MASK: nat := 0x7FF
  const BIAS: nat := 1023

  function ExpField(b: nat): nat { b / FRAC % (MASK + 1) }
  function FracField(b: nat): nat { b % FRAC }
  function Magnitude(b: u64): (m: nat) ensures m < SIGN { b % SIGN }
  predicate Negative(b: u64) { b >= SIGN }
  predicate Finite(b: u64) { Magnitude(b) < INF }
  predicate IsNaN(b: u64) { Magnitude(b) > INF }

  // Value of a magnitude pattern, in units of 2^-1074.
  function Val(b: nat): nat {
    if b / FRAC == 0 then b else (FRAC + b % FRAC) * Pow2(b / FRAC - 1)
  }

  // Signed value of a pattern.
  function SignedVal(b: u64): int {
    var v: int := Val(Magnitude(b));
    if Negative(b) then -v else v
  }

  // The distance to the next larger pattern.
  function Gap(b: nat): (g: nat)
    ensures g >= 1
  {
    if b / FRAC == 0 then 1 else Pow2(b / FRAC - 1)
  }

  function Abs(x: int): nat { if x < 0 then -x else x }

  /** b is the rounding of n/d to nearest, ties to even: no other pattern is
      closer, and an equally close one exists only when b has an even significand. */
  ghost predicate NearestEven(b: nat, n: nat, d: nat) {
    b <= INF &&
    forall c: nat :: c <= INF && c != b ==>
      && Abs(Val(b) * d - n) <= Abs(Val(c) * d - n)
      && (Abs(Val(b) * d - n) == Abs(Val(c) * d - n) ==> b % 2 == 0)
  }

  /** The same seen from the two neighbours: n/d lies between the midpoints. */
  ghost predicate BetweenMidpoints(b: nat, n: nat, d: nat) {
    && b <= INF
    && (b > 0 ==> AtLeast(2 * n, (Val(b - 1) + Val(b)) * d, b))
    && (b < INF ==> AtLeast((Val(b) + Val(b + 1)) * d, 2 * n, b))
  }

  predicate AtLeast(x: int, y: int, b: nat) {
    x > y || (x == y && b % 2 == 0)
  }

  lemma {:induction false} ValStep(b: nat)
    ensures Val(b + 1) == Val(b) + Gap(b)
  {
    var e, f := b / FRAC, b % FRAC;
    assert b == e * FRAC + f;
    if f + 1 < FRAC {
      DivModUnique(b + 1, FRAC, e, f + 1);
      if e > 0 {
        assert (FRAC + f + 1) * Pow2(e - 1) == (FRAC + f) * Pow2(e - 1) + Pow2(e - 1);
      }
    } else {
      DivModUnique(b + 1, FRAC, e + 1, 0);
      if e > 0 {
        assert Pow2(e) == 2 * Pow2(e - 1);
        assert FRAC * (2 * Pow2(e - 1)) == (FRAC + f) * Pow2(e - 1) + Pow2(e - 1);
      }
    }
  }

  /** The order of the patterns is the order of the values. */
  lemma {:induction false} ValMonotone(b: nat, c: nat)
    requires b < c
    ensures Val(b) < Val(c)
  {
    ValStep(c - 1);
    if b < c - 1 { ValMonotone(b, c - 1); }
  }

  /** Being between the two midpoints makes b the nearest among all patterns. */
  lemma MidpointsAreNearest(b: nat, n: nat, d: nat)
    requires d > 0 && BetweenMidpoints(b, n, d)
    ensures NearestEven(b, n, d)
  {
    forall c: nat | c <= INF && c != b
      ensures Abs(Val(b) * d - n) <= Abs(Val(c) * d - n)
      ensures Abs(Val(b) * d - n) == Abs(Val(c) * d - n) ==> b % 2 == 0
    {
      if c < b {
        ValMonotone(c, b);
        if c < b - 1 { ValMonotone(c, b - 1); }
        BelowMidpoint(Val(c), Val(b - 1), Val(b), n, d, b);
      } else {
        ValMonotone(b, c);
        if b + 1 < c { ValMonotone(b + 1, c); }
        AboveMidpoint(Val(b), Val(b + 1), Val(c), n, d, b);
      }
    }
  }

  lemma BelowMidpoint(u: nat, p: nat, v: nat, n: nat, d: nat, b: nat)
    requires u <= p && u < v && d > 0 && AtLeast(2 * n, (p + v) * d, b)
    ensures Abs(v * d - n) <= Abs(u * d - n)
    ensures Abs(v * d - n) == Abs(u * d - n) ==> b % 2 == 0
  {
    MulMono(u, p, d);
    MulStrict(u, v, d);
    assert (p + v) * d == p * d + v * d;
  }

  lemma AboveMidpoint(v: nat, p: nat, u: nat, n: nat, d: nat, b: nat)
    requires p <= u && v < u && d > 0 && AtLeast((v + p) * d, 2 * n, b)
    ensures Abs(v * d - n) <= Abs(u * d - n)
    ensures Abs(v * d - n) == Abs(u * d - n) ==> b % 2 == 0
  {
    MulMono(p, u, d);
    MulStrict(v, u, d);
    assert (v + p) * d == p * d + v * d;
  }

  /** Correct rounding determines the result. */
  lemma NearestEvenUnique(b: nat, c: nat, n: nat, d: nat)
    requires d > 0 && NearestEven(b, n, d) && NearestEven(c, n, d)
    ensures b == c
  {
    if b < c {
      NearestEvenOrder(b, c, n, d);
    } else if c < b {
      NearestEvenOrder(c, b, n, d);
    }
  }

  lemma NearestEvenOrder(b: nat, c: nat, n: nat, d: nat)
    requires d > 0 && NearestEven(b, n, d) && NearestEven(c, n, d)
    ensures b >= c
  {
    if b < c {
      var t := Val(b + 1) * d;
      ValMonotone(b, b + 1);
      MulStrict(Val(b), Val(b + 1), d);
      if b + 1 < c {
        ValMonotone(b + 1, c);
        MulStrict(Val(b + 1), Val(c), d);
      }
    }
  }

  /** Rounding only depends on the quotient. */
  lemma NearestEvenScale(b: nat, n: nat, d: nat, k: nat)
    requires k > 0 && NearestEven(b, n * k, d * k)
    ensures NearestEven(b, n, d)
  {
    forall c: nat | c <= INF && c != b
      ensures Abs(Val(b) * d - n) <= Abs(Val(c) * d - n)
      ensures Abs(Val(b) * d - n) == Abs(Val(c) * d - n) ==> b % 2 == 0
    {
      AbsScale(Val(b), n, d, k);
      AbsScale(Val(c), n, d, k);
      var x, y := Abs(Val(b) * d - n), Abs(Val(c) * d - n);
      if x > y { MulStrict(y, x, k); }
    }
  }

  lemma AbsScale(v: nat, n: nat, d: nat, k: nat)
    ensures Abs(v * (d * k) - n * k) == Abs(v * d - n) * k
  {
    assert v * (d * k) - n * k == (v * d - n) * k;
    if v * d - n < 0 {
      assert (v * d - n) * k <= 0;
      assert -((v * d - n) * k) == (-(v * d - n)) * k;
    } else {
      assert (v * d - n) * k >= 0;
    }
  }

  // The fields of a significand m in [2^52, 2^53) added at exponent e.
  lemma FieldsOf(e: nat, m: nat)
    requires FRAC <= m < 2 * FRAC
    ensures (e * FRAC + m) / FRAC == e + 1 && (e * FRAC + m) % FRAC == m - FRAC
  {
    Dist(e, 1, FRAC);
    DivModUnique(e * FRAC + m, FRAC, e + 1, m - FRAC);
  }

  lemma ValSmall(b: nat)
    requires b <= 2 * FRAC
    ensures Val(b) == b
  {
    assert Pow2(0) == 1 && Pow2(1) == 2;
  }

  // A significand with its leading bit at position 52, shifted by e.
  lemma ValCompose(e: nat, m: nat)
    requires FRAC <= m <= 2 * FRAC
    ensures Val(e * FRAC + m) == m * Pow2(e)
  {
    hide Pow2;
    if m < 2 * FRAC {
      FieldsOf(e, m);
    } else {
      Dist(e, 1, FRAC);
      FieldsOf(e + 1, FRAC);
      PowerDouble(FRAC, e);
    }
  }

  lemma PowerDouble(a: nat, e: nat)
    ensures a * Pow2(e + 1) == (2 * a) * Pow2(e)
  {
  }

  lemma GapCompose(e: nat, m: nat)
    requires FRAC <= m < 2 * FRAC
    ensures Gap(e * FRAC + m) == Pow2(e)
  {
    hide Pow2;
    FieldsOf(e, m);
  }

  // Clearing the exponent field, and setting the implicit bit.
  lemma MantissaBits(ix: u64)
    requires ix < SIGN
    ensures BitAndNot(ix, INF) == ix % FRAC
    ensures BitOr(ix % FRAC, FRAC) == FRAC + ix % FRAC
  {
    Pow2Values();
    assert Pow2(11) == 2048;
    assert INF == (Pow2(11) - 1) * Pow2(52);
    AndNotMask(ix, 11, 52);
    OrIsPlus(1, 52, ix % FRAC);
  }
}
