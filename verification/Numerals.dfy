/**
  What a row of digits denotes.
 */
module Numerals {
  function Power(base: nat, n: nat): nat { if n == 0 then 1 else base * Power(base, n - 1) }

  // Each digit counts for a power of the base.
  function Numeral(base: nat, digits: seq<nat>): nat {
    if digits == [] then 0 else digits[0] * Power(base, |digits| - 1) + Numeral(base, digits[1..])
  }

  lemma NumeralCons(base: nat, d: nat, more: seq<nat>)
    ensures Numeral(base, [d] + more) == d * Power(base, |more|) + Numeral(base, more)
  {
    assert ([d] + more)[1..] == more;
  }

  // One digit more, at the end.
  lemma {:induction false} NumeralSnoc(base: nat, digits: seq<nat>, d: nat)
    ensures Numeral(base, digits + [d]) == Numeral(base, digits) * base + d
  {
    if digits == [] {
      assert [] + [d] == [d];
      NumeralCons(base, d, []);
    } else {
      var e, more := digits[0], digits[1..];
      NumeralSnoc(base, more, d);
      assert digits + [d] == [e] + (more + [d]) && digits == [e] + more;
      NumeralCons(base, e, more + [d]);
      NumeralCons(base, e, more);
      Carry(base, e, Power(base, |more|), Numeral(base, more), d);
    }
  }

  lemma Carry(base: nat, e: nat, p: nat, n: nat, d: nat)
    ensures e * (base * p) + (n * base + d) == (e * p + n) * base + d
  {
  }
}
