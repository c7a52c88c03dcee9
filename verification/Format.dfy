/**
  fmt's integer formatting: digits, zeros, prefixes and sign are written right to left
  into a buffer sized beforehand.
 */
module Format {
  import opened Bytes
  import opened Words
  import opened Numerals

  const ZERO: byte := 48
  const SPACE: byte := 32
  const INTBUF: nat := 68

  predicate Base(base: int) { base in {2, 8, 10, 16} }

  // ldigits and udigits.
  function Digit(d: int, upper: bool): (c: byte)
    requires 0 <= d < 16
    ensures c == ZERO <==> d == 0
  {
    if d < 10 then ZERO + d else if upper then 55 + d else 87 + d
  }

  function Repeat(c: byte, n: int): (s: seq<byte>)
    ensures |s| == if n < 0 then 0 else n
  {
    if n <= 0 then [] else [c] + Repeat(c, n - 1)
  }

  // ---------------------------------------------------------------- the text of an integer

  function Digits(u: nat, base: int, upper: bool): (s: seq<byte>)
    requires Base(base)
    ensures |s| >= 1
  {
    if u < base then [Digit(u, upper)] else Digits(u / base, base, upper) + [Digit(u % base, upper)]
  }

  // At least prec digits.
  function ZeroPadded(s: seq<byte>, prec: int): seq<byte> { Repeat(ZERO, prec - |s|) + s }

  function Sharp(ds: seq<byte>, base: int, upper: bool): seq<byte>
    requires ds != []
  {
    match base
    case 2 => [ZERO, 98]
    case 8 => if ds[0] != ZERO then [ZERO] else []
    case 16 => [ZERO, if upper then 88 else 120]
    case _ => []
  }

  datatype Flags = Flags(widPresent: bool, precPresent: bool, minus: bool, plus: bool, sharp: bool, space: bool, zero: bool,
                         wid: nat, prec: nat)

  function Sign(negative: bool, f: Flags): seq<byte> {
    if negative then [45] else if f.plus then [43] else if f.space then [SPACE] else []
  }

  predicate Negative(u: u64, isSigned: bool) { isSigned && u >= 0x8000_0000_0000_0000 }

  // The number u stands for: two's complement when signed.
  function Number(u: u64, isSigned: bool): int { if Negative(u, isSigned) then u - W else u }

  // -u for a negative int64, in wrapping arithmetic.
  function Magnitude(u: u64, isSigned: bool): u64 { if Negative(u, isSigned) then (W - u) % W else u }

  // The digits asked for, by precision or by zero padding to a width.
  function Wanted(f: Flags, negative: bool): int {
    if f.precPresent then f.prec
    else if f.zero && f.widPresent then (if negative || f.plus || f.space then f.wid - 1 else f.wid)
    else 0
  }

  function DigitText(u: u64, base: int, isSigned: bool, upper: bool, f: Flags): seq<byte>
    requires Base(base)
  {
    ZeroPadded(Digits(Magnitude(u, isSigned), base, upper), Wanted(f, Negative(u, isSigned)))
  }

  function Body(u: u64, base: int, isSigned: bool, verbO: bool, upper: bool, f: Flags): seq<byte>
    requires Base(base)
  {
    var ds := DigitText(u, base, isSigned, upper, f);
    Sign(Negative(u, isSigned), f)
      + ((if verbO then [ZERO, 111] else []) + ((if f.sharp then Sharp(ds, base, upper) else []) + ds))
  }

  // Padded to the width asked for.
  function Justified(b: seq<byte>, f: Flags, c: byte): seq<byte> {
    if !f.widPresent || f.wid == 0 then b
    else if f.minus then b + Repeat(c, f.wid - |b|)
    else Repeat(c, f.wid - |b|) + b
  }

  function Text(u: u64, base: int, isSigned: bool, verbO: bool, upper: bool, f: Flags): seq<byte>
    requires Base(base)
  {
    if f.precPresent && f.prec == 0 && u == 0 then Repeat(SPACE, f.wid)
    else Justified(Body(u, base, isSigned, verbO, upper, f), f, SPACE)
  }

  // ---------------------------------------------------------------- what the text denotes

  function DigitValue(c: byte): int {
    if c >= 97 then c - 87 else if c >= 65 then c - 55 else c - 48
  }

  function Value(s: seq<byte>, base: int): int {
    if s == [] then 0 else Value(s[..|s| - 1], base) * base + DigitValue(s[|s| - 1])
  }

  /** Digits are those of the number, without superfluous zeros. */
  lemma {:induction false} DigitsDenote(u: nat, base: int, upper: bool)
    requires Base(base)
    ensures Value(Digits(u, base, upper), base) == u
    ensures u > 0 ==> Digits(u, base, upper)[0] != ZERO
  {
    var s := Digits(u, base, upper);
    if u < base {
      assert s[..0] == [];
    } else {
      DigitsDenote(u / base, base, upper);
      assert s[..|s| - 1] == Digits(u / base, base, upper);
    }
  }

  lemma {:induction false} ZerosDenote(n: int, s: seq<byte>, base: int)
    ensures Value(Repeat(ZERO, n) + s, base) == Value(s, base)
    decreases |s|, n
  {
    var t := Repeat(ZERO, n) + s;
    if s != [] {
      assert t[..|t| - 1] == Repeat(ZERO, n) + s[..|s| - 1];
      ZerosDenote(n, s[..|s| - 1], base);
    } else if n > 0 {
      RepeatEnds(ZERO, n);
      assert t == Repeat(ZERO, n);
      assert t[..|t| - 1] == Repeat(ZERO, n - 1) + [];
      ZerosDenote(n - 1, [], base);
    }
  }

  lemma {:induction false} RepeatEnds(c: byte, n: int)
    requires n > 0
    ensures Repeat(c, n) == Repeat(c, n - 1) + [c]
  {
    if n > 1 {
      RepeatEnds(c, n - 1);
    }
  }

  // A digit is at least one bit.
  lemma {:induction false} DigitsBound(u: nat, base: int, upper: bool, k: nat)
    requires Base(base) && u < Pow2(k) && k >= 1
    ensures |Digits(u, base, upper)| <= k
  {
    if u >= base {
      assert k >= 2;
      assert u / base <= u / 2;
      DigitsBound(u / base, base, upper, k - 1);
    }
  }

  /**
    The digits written denote the magnitude, number at least as many as asked for, and
    carry leading zeros only to make up that number.
   */
  lemma DigitTextDenotes(u: u64, base: int, isSigned: bool, upper: bool, f: Flags)
    requires Base(base)
    ensures
      var s := DigitText(u, base, isSigned, upper, f);
      var wanted := Wanted(f, Negative(u, isSigned));
      && Value(s, base) == Magnitude(u, isSigned)
      && |s| >= wanted
      && (|s| > wanted && Magnitude(u, isSigned) > 0 ==> s[0] != ZERO)
  {
    var m := Magnitude(u, isSigned);
    var ds := Digits(m, base, upper);
    DigitsDenote(m, base, upper);
    ZerosDenote(Wanted(f, Negative(u, isSigned)) - |ds|, ds, base);
  }

  /** Sign and magnitude give back the signed or unsigned number. */
  lemma MagnitudeDenotes(u: u64, isSigned: bool)
    ensures
      var m: int := Magnitude(u, isSigned);
      Number(u, isSigned) == if Negative(u, isSigned) then -m else m
  {
  }

  // ---------------------------------------------------------------- what the text looks like

  const LOWER: string := "0123456789abcdef"
  const UPPER: string := "0123456789ABCDEF"

  // c is the digit d.
  predicate SpellsDigit(c: byte, d: nat, base: int, upper: bool)
    requires Base(base)
  {
    d < base && c == (if upper then UPPER else LOWER)[d] as int
  }

  predicate Spells(s: seq<byte>, ds: seq<nat>, base: int, upper: bool)
    requires Base(base)
  {
    |s| == |ds| && forall i :: 0 <= i < |s| ==> SpellsDigit(s[i], ds[i], base, upper)
  }

  lemma DigitSpells(d: nat, base: int, upper: bool)
    requires Base(base) && d < base
    ensures SpellsDigit(Digit(d, upper), d, base, upper)
  {
  }

  lemma SpellsBoth(a: seq<byte>, b: seq<byte>, ds: seq<nat>, es: seq<nat>, base: int, upper: bool)
    requires Base(base) && Spells(a, ds, base, upper) && Spells(b, es, base, upper)
    ensures Spells(a + b, ds + es, base, upper)
  {
    hide SpellsDigit;
  }

  lemma SpellsOne(d: nat, base: int, upper: bool)
    requires Base(base) && d < base
    ensures Spells([Digit(d, upper)], [d], base, upper)
  {
    DigitSpells(d, base, upper);
    hide SpellsDigit;
  }

  lemma {:induction false} DigitsSpell(u: nat, base: int, upper: bool) returns (ds: seq<nat>)
    requires Base(base)
    ensures Spells(Digits(u, base, upper), ds, base, upper) && Numeral(base, ds) == u
    ensures ds != [] && (ds[0] == 0 ==> u == 0 && |ds| == 1)
    decreases u
  {
    hide Spells, Digit, Numeral;
    if u < base {
      SpellsOne(u, base, upper);
      ds := [u];
      NumeralSnoc(base, [], u);
      assert [] + [u] == [u] && Numeral(base, []) == 0 by { NumeralNil(base); }
    } else {
      var front := DigitsSpell(u / base, base, upper);
      SpellsOne(u % base, base, upper);
      SpellsBoth(Digits(u / base, base, upper), [Digit(u % base, upper)], front, [u % base], base, upper);
      NumeralSnoc(base, front, u % base);
      ds := front + [u % base];
    }
  }

  lemma NumeralNil(base: nat)
    ensures Numeral(base, []) == 0
  {
  }

  lemma {:induction false} ZerosSpell(n: int, s: seq<byte>, ds: seq<nat>, base: int, upper: bool) returns (all: seq<nat>)
    requires Base(base) && Spells(s, ds, base, upper)
    ensures Spells(Repeat(ZERO, n) + s, all, base, upper) && Numeral(base, all) == Numeral(base, ds)
    ensures n <= 0 ==> all == ds
    decreases n
  {
    hide Spells, Numeral;
    if n <= 0 {
      assert Repeat(ZERO, n) + s == s;
      all := ds;
    } else {
      var rest := ZerosSpell(n - 1, s, ds, base, upper);
      all := [0] + rest;
      NumeralCons(base, 0, rest);
      SpellsOne(0, base, upper);
      SpellsBoth([ZERO], Repeat(ZERO, n - 1) + s, [0], rest, base, upper);
      Reassociate([ZERO], Repeat(ZERO, n - 1), s);
    }
  }

  // The digits written, as a number.
  lemma DigitTextReads(m: nat, base: int, upper: bool, wanted: int) returns (ds: seq<nat>)
    requires Base(base)
    ensures Spells(ZeroPadded(Digits(m, base, upper), wanted), ds, base, upper) && Numeral(base, ds) == m
    ensures |ds| == |ZeroPadded(Digits(m, base, upper), wanted)|
    ensures |ds| >= wanted && |ds| >= 1 && (|ds| > wanted && |ds| > 1 ==> ds[0] != 0)
  {
    hide Numeral, Repeat, Digits;
    var s := Digits(m, base, upper);
    var ds0 := DigitsSpell(m, base, upper);
    ds := ZerosSpell(wanted - |s|, s, ds0, base, upper);
  }

  // The parts of a formatted integer.
  datatype Parts = Parts(left: seq<byte>, sign: seq<byte>, prefix: seq<byte>, digits: seq<byte>, right: seq<byte>)
  {
    function All(): seq<byte> { left + (sign + (prefix + digits)) + right }
  }

  predicate Blank(s: seq<byte>) { forall i :: 0 <= i < |s| ==> s[i] == 32 }

  lemma {:induction false} RepeatBlank(n: int)
    ensures Blank(Repeat(SPACE, n))
  {
    if n > 0 {
      RepeatBlank(n - 1);
    }
  }

  // The prefix that the flags ask for: 0b, 0x or 0X, a leading zero for octal, 0o for %O.
  predicate Prefixed(prefix: seq<byte>, digits: seq<byte>, base: int, verbO: bool, upper: bool, sharp: bool) {
    var o := if verbO then [48, 111] else [];
    if !sharp || base == 10 then prefix == o
    else if base == 2 then prefix == o + [48, 98]
    else if base == 16 then prefix == o + [48, if upper then 88 else 120]
    else prefix == o + if digits != [] && digits[0] == 48 then [] else [48]
  }

  /**
    What FmtInteger writes, read from left to right: spaces, unless the text is to be left
    justified; the sign of the number; the prefix of its base; digits that denote its
    absolute value, as many as asked for and no leading zeros beyond that; and spaces.
   */
  lemma TextReads(u: u64, base: int, isSigned: bool, verbO: bool, upper: bool, f: Flags) returns (p: Parts, ds: seq<nat>)
    requires Base(base) && !(f.precPresent && f.prec == 0 && u == 0)
    ensures p.All() == Text(u, base, isSigned, verbO, upper, f)
    ensures
      var x := if isSigned && u >= 0x8000_0000_0000_0000 then u - 0x1_0000_0000_0000_0000 else u;
      && p.sign == (if x < 0 then [45] else if f.plus then [43] else if f.space then [32] else [])
      && Spells(p.digits, ds, base, upper) && Numeral(base, ds) == (if x < 0 then -x else x)
    ensures Prefixed(p.prefix, p.digits, base, verbO, upper, f.sharp)
    ensures
      var wanted := if f.precPresent then f.prec else if f.zero && f.widPresent then f.wid - |p.sign| else 0;
      |ds| >= wanted && |ds| >= 1 && (|ds| > wanted && |ds| > 1 ==> ds[0] != 0)
    ensures Blank(p.left) && Blank(p.right) && (f.minus ==> p.left == []) && (!f.minus ==> p.right == [])
    ensures
      var core := |p.sign| + |p.prefix| + |p.digits|;
      |p.left| + |p.right| == if f.widPresent && f.wid > core then f.wid - core else 0
  {
    hide Spells, Numeral, Repeat, ZeroPadded, Digits, Sharp, Magnitude, Negative, Sign, Wanted, Prefixed, Justified, Blank;
    SignReads(u, isSigned, f);
    var negative := Negative(u, isSigned);
    ds := DigitTextReads(Magnitude(u, isSigned), base, upper, Wanted(f, negative));
    var text := DigitText(u, base, isSigned, upper, f);
    assert |text| == |ds|;
    hide DigitText;
    var o, sharp := if verbO then [ZERO, 111] else [], if f.sharp then Sharp(text, base, upper) else [];
    var body := Body(u, base, isSigned, verbO, upper, f);
    Reassociate(o, sharp, text);
    PrefixReads(text, base, verbO, upper, f.sharp);
    var left, right := PadReads(body, f);
    p := Parts(left, Sign(negative, f), o + sharp, text, right);
  }

  lemma SignReads(u: u64, isSigned: bool, f: Flags)
    ensures
      var x := if isSigned && u >= 0x8000_0000_0000_0000 then u - 0x1_0000_0000_0000_0000 else u;
      var sign := Sign(Negative(u, isSigned), f);
      && sign == (if x < 0 then [45] else if f.plus then [43] else if f.space then [32] else [])
      && Magnitude(u, isSigned) == (if x < 0 then -x else x)
      && Wanted(f, Negative(u, isSigned)) ==
         if f.precPresent then f.prec else if f.zero && f.widPresent then f.wid - |sign| else 0
  {
  }

  lemma PrefixReads(digits: seq<byte>, base: int, verbO: bool, upper: bool, sharp: bool)
    requires Base(base) && digits != []
    ensures
      var o := if verbO then [ZERO, 111] else [];
      Prefixed(o + (if sharp then Sharp(digits, base, upper) else []), digits, base, verbO, upper, sharp)
  {
    var o: seq<byte> := if verbO then [ZERO, 111] else [];
    assert o + [] == o;
  }

  lemma PadReads(body: seq<byte>, f: Flags) returns (left: seq<byte>, right: seq<byte>)
    ensures Justified(body, f, SPACE) == left + body + right
    ensures Blank(left) && Blank(right) && (f.minus ==> left == []) && (!f.minus ==> right == [])
    ensures |left| + |right| == if f.widPresent && f.wid > |body| then f.wid - |body| else 0
  {
    var n := if f.widPresent then f.wid - |body| else 0;
    var pad := Repeat(SPACE, n);
    RepeatBlank(n);
    hide Repeat;
    left, right := if f.minus then [] else pad, if f.minus then pad else [];
    assert [] + body == body && pad + body + [] == pad + body && [] + body + pad == body + pad;
    if n <= 0 {
      assert pad == [] && body + [] == body;
    }
  }

  /** A precision of zero and the number zero: nothing but spaces. */
  lemma NothingReads(base: int, isSigned: bool, verbO: bool, upper: bool, f: Flags)
    requires Base(base) && f.precPresent && f.prec == 0
    ensures Blank(Text(0, base, isSigned, verbO, upper, f)) && |Text(0, base, isSigned, verbO, upper, f)| == f.wid
  {
    RepeatBlank(f.wid);
  }

  // ---------------------------------------------------------------- the formatter

  class Fmt {
    var buf: seq<byte>
    var widPresent: bool
    var precPresent: bool
    var minus: bool
    var plus: bool
    var sharp: bool
    var space: bool
    var zero: bool
    var wid: nat
    var prec: nat
    const intbuf: array<byte>

    constructor ()
      ensures fresh(intbuf) && intbuf.Length == INTBUF && buf == []
    {
      intbuf := new byte[INTBUF];
      buf := [];
    }

    function Settings(): Flags
      reads this
    {
      Flags(widPresent, precPresent, minus, plus, sharp, space, zero, wid, prec)
    }

    method WritePadding(n: int)
      modifies this`buf
      ensures buf == old(buf) + Repeat(if zero then ZERO else SPACE, n)
    {
      if n <= 0 {
        return;
      }
      var padByte := SPACE;
      if zero {
        padByte := ZERO;
      }
      var padding := Repeat(padByte, n);
      buf := buf + padding;
    }

    // The text is ASCII, so its bytes are its runes.
    method Pad(b: seq<byte>)
      modifies this`buf
      ensures buf == old(buf) + Justified(b, Settings(), if zero then ZERO else SPACE)
    {
      if !widPresent || wid == 0 {
        buf := buf + b;
        return;
      }
      var width := wid - |b|;
      ghost var before, padding := buf, Repeat(if zero then ZERO else SPACE, width);
      if !minus {
        WritePadding(width);
        buf := buf + b;
        Reassociate(before, padding, b);
      } else {
        buf := buf + b;
        WritePadding(width);
        Reassociate(before, b, padding);
      }
    }

    /**
      Appends the text of an integer.  No write falls below the start of the buffer,
      whatever the width, the precision and the flags.
     */
    method FmtInteger(v: u64, base: int, isSigned: bool, verbO: bool, upper: bool)
      requires Base(base) && (verbO ==> base == 8) && intbuf.Length == INTBUF
      modifies this`buf, this`zero, intbuf
      ensures zero == old(zero)
      ensures buf == old(buf) + Text(v, base, isSigned, verbO, upper, old(Settings()))
    {
      hide Body, Repeat, Justified;
      var f := Settings();
      MagnitudeDenotes(v, isSigned);
      var b := Buffer();
      assert b.Length >= 3 + Wanted(f, Negative(v, isSigned));
      if precPresent && prec == 0 && Magnitude(v, isSigned) == 0 {
        var oldZero := zero;
        zero := false;
        WritePadding(wid);
        zero := oldZero;
        return;
      }
      hide Magnitude, Negative, Wanted;
      var i := WriteBody(b, v, base, isSigned, verbO, upper, f);
      PadWithSpaces(b[i..]);
    }

    method Buffer() returns (b: array<byte>)
      requires intbuf.Length == INTBUF
      ensures (b == intbuf || fresh(b)) && b.Length >= INTBUF
      ensures widPresent || precPresent ==> b.Length >= 3 + wid + prec
    {
      b := intbuf;
      if widPresent || precPresent {
        var width := 3 + wid + prec;
        if width > b.Length {
          b := new byte[width];
        }
      }
    }

    method PadWithSpaces(b: seq<byte>)
      modifies this`buf, this`zero
      ensures zero == old(zero) && buf == old(buf) + Justified(b, old(Settings()), SPACE)
    {
      ghost var f := Settings();
      var oldZero := zero;
      zero := false;
      ZeroIsIrrelevant(b, f, Settings());
      Pad(b);
      zero := oldZero;
    }
  }

  // Everything but the padding, at the end of b.
  method WriteBody(b: array<byte>, v: u64, base: int, isSigned: bool, verbO: bool, upper: bool, f: Flags) returns (i: nat)
    requires Base(base) && (verbO ==> base == 8)
    requires b.Length >= INTBUF && b.Length >= 3 + Wanted(f, Negative(v, isSigned))
    modifies b
    ensures i <= b.Length && b[i..] == Body(v, base, isSigned, verbO, upper, f)
  {
    hide Digits, ZeroPadded, Pow2, Repeat, Sharp, Sign;
    BodyFits(v, base, isSigned, verbO, upper, f, b.Length);
    ghost var ds := DigitText(v, base, isSigned, upper, f);
    DigitTextSize(v, base, isSigned, upper, f);
    i := WriteDigits(b, Magnitude(v, isSigned), base, upper);
    i := WriteZeros(b, i, Wanted(f, Negative(v, isSigned)));
    assert b[i..] == ds;
    if f.sharp {
      i := WriteSharp(b, i, base, upper);
    }
    ghost var rest := (if f.sharp then Sharp(ds, base, upper) else []) + ds;
    assert b[i..] == rest;
    if verbO {
      i := PrependTwo(b, i, ZERO, 111);
    }
    assert b[i..] == (if verbO then [ZERO, 111] else []) + rest;
    i := WriteSign(b, i, Negative(v, isSigned), f);
  }

  lemma ZeroIsIrrelevant(b: seq<byte>, f: Flags, g: Flags)
    requires g == f.(zero := g.zero)
    ensures Justified(b, f, SPACE) == Justified(b, g, SPACE)
  {
  }

  /** The buffer always has room for the whole text. */
  lemma BodyFits(v: u64, base: int, isSigned: bool, verbO: bool, upper: bool, f: Flags, size: nat)
    requires Base(base) && (verbO ==> base == 8)
    requires size >= INTBUF && size >= 3 + Wanted(f, Negative(v, isSigned))
    ensures |Body(v, base, isSigned, verbO, upper, f)| <= size
  {
    var negative := Negative(v, isSigned);
    hide Digits, ZeroPadded;
    DigitTextSize(v, base, isSigned, upper, f);
    var ds := DigitText(v, base, isSigned, upper, f);
    hide DigitText;
    assert |Sign(negative, f)| <= 1;
    assert |Sharp(ds, base, upper)| <= 2;
    assert base == 8 && ds[0] == ZERO ==> |Sharp(ds, base, upper)| == 0;
    assert base == 8 ==> |Sharp(ds, base, upper)| <= 1;
  }

  // Digits fit a word's bits, or were asked for and start with a zero.
  lemma DigitTextSize(v: u64, base: int, isSigned: bool, upper: bool, f: Flags)
    requires Base(base)
    ensures
      var ds := DigitText(v, base, isSigned, upper, f);
      && 1 <= |ds|
      && |Digits(Magnitude(v, isSigned), base, upper)| <= 64
      && (|ds| <= 64 || (|ds| == Wanted(f, Negative(v, isSigned)) && ds[0] == ZERO))
  {
    hide Digits, Pow2;
    Pow2Values();
    DigitsBound(Magnitude(v, isSigned), base, upper, 64);
  }

  method WriteDigits(b: array<byte>, v: u64, base: int, upper: bool) returns (i: nat)
    requires Base(base) && |Digits(v, base, upper)| <= b.Length
    modifies b
    ensures i <= b.Length && b[i..] == Digits(v, base, upper)
  {
    i := b.Length;
    var u: nat := v;
    while u >= base
      invariant i <= b.Length && Digits(u, base, upper) + b[i..] == Digits(v, base, upper)
    {
      ghost var done := b[i..];
      var next := u / base;
      ghost var front := Digits(next, base, upper);
      Reassociate(front, [Digit(u % base, upper)], done);
      i := Prepend(b, i, Digit(u % base, upper));
      u := next;
    }
    i := Prepend(b, i, Digit(u, upper));
  }

  method WriteZeros(b: array<byte>, at: nat, prec: int) returns (i: nat)
    requires at <= b.Length && prec <= b.Length
    modifies b
    ensures i <= b.Length && b[i..] == ZeroPadded(old(b[at..]), prec)
  {
    i := at;
    ghost var s := b[at..];
    while i > 0 && prec > b.Length - i
      invariant i <= at && b[i..] == Repeat(ZERO, at - i) + s
      invariant at - i > 0 ==> b.Length - i <= prec
    {
      Reassociate([ZERO], Repeat(ZERO, at - i), s);
      i := Prepend(b, i, ZERO);
    }
  }

  method PrependTwo(b: array<byte>, at: nat, c: byte, d: byte) returns (i: nat)
    requires 2 <= at <= b.Length
    modifies b
    ensures i <= b.Length && b[i..] == [c, d] + old(b[at..])
  {
    ghost var s := b[at..];
    i := Prepend(b, at, d);
    i := Prepend(b, i, c);
    assert [c] + ([d] + s) == [c, d] + s;
  }

  method WriteSharp(b: array<byte>, at: nat, base: int, upper: bool) returns (i: nat)
    requires Base(base) && at < b.Length && |Sharp(b[at..], base, upper)| <= at
    modifies b
    ensures i <= b.Length && b[i..] == Sharp(old(b[at..]), base, upper) + old(b[at..])
  {
    i := at;
    if base == 2 {
      i := PrependTwo(b, i, ZERO, 98);
    } else if base == 8 {
      if b[i] != ZERO {
        i := Prepend(b, i, ZERO);
      }
    } else if base == 16 {
      i := PrependTwo(b, i, ZERO, if upper then 88 else 120);
    }
  }

  method WriteSign(b: array<byte>, at: nat, negative: bool, f: Flags) returns (i: nat)
    requires |Sign(negative, f)| <= at <= b.Length
    modifies b
    ensures i <= b.Length && b[i..] == Sign(negative, f) + old(b[at..])
  {
    i := at;
    if negative {
      i := Prepend(b, i, 45);
    } else if f.plus {
      i := Prepend(b, i, 43);
    } else if f.space {
      i := Prepend(b, i, SPACE);
    }
  }

  // Writes c before position i.
  method Prepend(b: array<byte>, i: nat, c: byte) returns (k: nat)
    requires 0 < i <= b.Length
    modifies b
    ensures k == i - 1 && b[k..] == [c] + old(b[i..])
  {
    k := i - 1;
    b[k] := c;
    assert b[i..] == old(b[i..]);
  }
}
