/**
  What the character references of HTML stand for, independently of how they are read:
  numbers by the value of their digits, names by the entity tables.
 */
module HtmlReference {
  import opened Bytes
  import opened Utf8
  import opened Html
  import opened Numerals

  // ---- Numbers ----

  // c is the digit v, decimal or, in either case, hexadecimal.
  predicate DigitOf(hex: bool, c: byte, v: nat) {
    if hex then v < 16 && HexOf(c, v) else v < 10 && c == "0123456789"[v] as int
  }

  predicate NoDigit(hex: bool, c: byte) {
    && !('0' as int <= c <= '9' as int)
    && (hex ==> !('a' as int <= c <= 'f' as int) && !('A' as int <= c <= 'F' as int))
  }

  predicate Spells(cs: seq<byte>, digits: seq<nat>, hex: bool) {
    |cs| == |digits| && forall i :: 0 <= i < |cs| ==> DigitOf(hex, cs[i], digits[i])
  }

  lemma DigitValue(hex: bool, c: byte, v: nat)
    requires DigitOf(hex, c, v)
    ensures Digit(hex, c) == v
  {
  }

  lemma WrapStep(base: nat, x: int, d: int)
    ensures Wrap32(base * Wrap32(x) + d) == Wrap32(base * x + d)
  {
    var q := (x + 0x8000_0000) / 0x1_0000_0000;
    assert Wrap32(x) == x - q * 0x1_0000_0000;
    WrapMultiple(base * x + d, base * q);
    assert base * (x - q * 0x1_0000_0000) == base * x - base * q * 0x1_0000_0000;
  }

  lemma WrapMultiple(x: int, k: int)
    ensures Wrap32(x - k * 0x1_0000_0000) == Wrap32(x)
  {
  }

  lemma Regroup(base: nat, y: int, v: nat, p: nat, rest: nat)
    ensures (base * y + v) * p + rest == y * (base * p) + (v * p + rest)
  {
  }

  // One digit.
  lemma NumberStep(s: seq<byte>, i: nat, hex: bool, y: int, v: nat)
    requires i < |s| && DigitOf(hex, s[i], v)
    ensures
      var base := if hex then 16 else 10;
      Number(s, i, hex, Wrap32(y)) == Number(s, i + 1, hex, Wrap32(base * y + v))
  {
    DigitValue(hex, s[i], v);
    WrapStep(if hex then 16 else 10, y, v);
    hide Wrap32, Digit;
  }

  // Reading digits from index i on, with y read before.
  lemma {:induction false} NumberReads(s: seq<byte>, i: nat, hex: bool, y: int, digits: seq<nat>)
    requires i + |digits| <= |s| && Spells(s[i..i + |digits|], digits, hex)
    ensures
      var base := if hex then 16 else 10;
      Number(s, i, hex, Wrap32(y)) ==
      Number(s, i + |digits|, hex, Wrap32(y * Power(base, |digits|) + Numeral(base, digits)))
    decreases |digits|
  {
    hide Wrap32, Number, DigitOf, Numeral, Power;
    var base := if hex then 16 else 10;
    if digits == [] {
      NothingRead(base);
    } else {
      var cs, v, more := s[i..i + |digits|], digits[0], digits[1..];
      assert DigitOf(hex, cs[0], v) && cs[0] == s[i];
      assert s[i + 1..i + 1 + |more|] == cs[1..];
      NumberStep(s, i, hex, y, v);
      NumberReads(s, i + 1, hex, base * y + v, more);
      assert digits == [v] + more;
      NumeralCons(base, v, more);
      PowerStep(base, |more|);
      Regroup(base, y, v, Power(base, |more|), Numeral(base, more));
    }
  }

  lemma NothingRead(base: nat)
    ensures Power(base, 0) == 1 && Numeral(base, []) == 0
  {
  }

  lemma PowerStep(base: nat, n: nat)
    ensures Power(base, n + 1) == base * Power(base, n)
  {
  }

  // The characters of Windows-1252 from 0x80 on; those it leaves undefined stay as they are.
  const WINDOWS_1252: seq<int> := [
    0x20AC, 0x0081, 0x201A, 0x0192, 0x201E, 0x2026, 0x2020, 0x2021,
    0x02C6, 0x2030, 0x0160, 0x2039, 0x0152, 0x008D, 0x017D, 0x008F,
    0x0090, 0x2018, 0x2019, 0x201C, 0x201D, 0x2022, 0x2013, 0x2014,
    0x02DC, 0x2122, 0x0161, 0x203A, 0x0153, 0x009D, 0x017E, 0x0178]

  // The text of a number, in UTF-8: itself, except that 0, surrogates and what is beyond
  // Unicode become U+FFFD, and 0x80 to 0x9F stand for the characters of Windows-1252.
  function Image(n: int): seq<byte> {
    if 0x80 <= n <= 0x9F then Encode(WINDOWS_1252[n - 0x80])
    else if n <= 0 || 0xD800 <= n <= 0xDFFF || n > 0x10FFFF then [0xEF, 0xBF, 0xBD]
    else Encode(n)
  }

  lemma ReplacedImage(x: int)
    ensures Encode(Replaced(x)) == Image(x)
  {
  }

  // "&#" or "&#x", the digits, and a semicolon or none.
  function Reference(mark: seq<byte>, cs: seq<byte>, closed: bool): seq<byte> {
    [38, 35] + mark + cs + if closed then [59] else []
  }

  predicate Mark(mark: seq<byte>) { mark == [] || mark == ['x' as int] || mark == ['X' as int] }

  // A reference can do without its semicolon where no other digit follows; a single
  // decimal digit cannot.
  predicate Ends(mark: seq<byte>, cs: seq<byte>, closed: bool, rest: seq<byte>) {
    closed || (|mark| + |cs| >= 2 && (rest != [] ==> rest[0] != 59 && NoDigit(mark != [], rest[0])))
  }

  /** A numeric reference stands for the number it denotes, taken as a 32-bit integer. */
  lemma NumericReference(t: Tables, mark: seq<byte>, cs: seq<byte>, digits: seq<nat>, closed: bool, rest: seq<byte>)
    requires Mark(mark) && cs != [] && Spells(cs, digits, mark != []) && Ends(mark, cs, closed, rest)
    ensures
      var n := Numeral(if mark != [] then 16 else 10, digits);
      Decode(t, Reference(mark, cs, closed) + rest) == Image(Wrap32(n)) + Decode(t, rest)
  {
    var n := Numeral(if mark != [] then 16 else 10, digits);
    var r := Reference(mark, cs, closed);
    NumericReads(mark, cs, digits, closed, rest);
    hide Numeric, Image, Reference, Spells, Decode;
    DecodeStep(t, r + rest);
    assert (r + rest)[|r|..] == rest;
  }

  lemma DecodeStep(t: Tables, s: seq<byte>)
    requires s != [] && s[0] == AMP
    ensures Decode(t, s) == Entity(t, s).0 + Decode(t, s[Entity(t, s).1..])
  {
  }

  lemma NumericReads(mark: seq<byte>, cs: seq<byte>, digits: seq<nat>, closed: bool, rest: seq<byte>)
    requires Mark(mark) && cs != [] && Spells(cs, digits, mark != []) && Ends(mark, cs, closed, rest)
    ensures
      var n := Numeral(if mark != [] then 16 else 10, digits);
      var r := Reference(mark, cs, closed);
      var s := r + rest;
      |s| > 1 && s[0] == AMP && s[1] == HASH && Numeric(s) == (Image(Wrap32(n)), |r|)
  {
    hide Image, Spells, Numeral, Wrap32, Reference, Numeric, Replaced, Number, Ends;
    var n := Numeral(if mark != [] then 16 else 10, digits);
    var hex, from := mark != [], 2 + |mark|;
    var s, end := Reference(mark, cs, closed) + rest, from + |cs|;
    MarkShows(mark, cs, digits, closed, rest);
    NumberReads(s, from, hex, 0, digits);
    WrapZero();
    NumberEnds(s, end, hex, Wrap32(n), closed);
    ReplacedImage(Wrap32(n));
    NumericIs(s, hex, Wrap32(n), if closed then end + 1 else end);
  }

  lemma NumericIs(s: seq<byte>, hex: bool, x: int, end: nat)
    requires |s| > 3 && (hex <==> s[2] == 'x' as int || s[2] == 'X' as int) && end > 3
    requires Number(s, if hex then 3 else 2, hex, 0) == (x, end)
    ensures Numeric(s) == (Encode(Replaced(x)), end)
  {
    hide Number, Replaced;
  }

  lemma WrapZero()
    ensures Wrap32(0) == 0
  {
  }

  lemma MarkShows(mark: seq<byte>, cs: seq<byte>, digits: seq<nat>, closed: bool, rest: seq<byte>)
    requires Mark(mark) && cs != [] && Spells(cs, digits, mark != []) && Ends(mark, cs, closed, rest)
    ensures
      var r := Reference(mark, cs, closed);
      var s, from := r + rest, 2 + |mark|;
      var end := from + |cs|;
      && |digits| == |cs| && end <= |s| && |r| > 3 && s[0] == AMP && s[1] == HASH && s[from..end] == cs && |r| == (if closed then end + 1 else end)
      && (mark != [] <==> s[2] == 'x' as int || s[2] == 'X' as int)
      && (closed ==> s[end] == 59) && (!closed && end < |s| ==> s[end] != 59 && NoDigit(mark != [], s[end]))
  {
    var r := Reference(mark, cs, closed);
    var s := r + rest;
    if mark == [] {
      assert s[2] == cs[0] && DigitOf(false, cs[0], digits[0]);
    }
  }

  lemma NumberEnds(s: seq<byte>, end: nat, hex: bool, x: int, closed: bool)
    requires end <= |s|
    requires closed ==> end < |s| && s[end] == 59
    requires !closed && end < |s| ==> s[end] != 59 && NoDigit(hex, s[end])
    ensures Number(s, end, hex, x) == (x, if closed then end + 1 else end)
  {
  }

  /** A number beyond Unicode stands for U+FFFD, unless it wraps around to a character. */
  lemma BeyondUnicode(n: nat)
    requires n > 0x10FFFF
    ensures
      var m := n % 0x1_0000_0000;
      Image(Wrap32(n)) == [0xEF, 0xBF, 0xBD] <==> m == 0 || 0xD800 <= m <= 0xDFFF || m == 0xFFFD || m > 0x10FFFF
    ensures n < 0x8000_0000 ==> Wrap32(n) == n && Image(n) == [0xEF, 0xBF, 0xBD]
  {
    hide WINDOWS_1252;
    var m, x := n % 0x1_0000_0000, Wrap32(n);
    assert x == if m < 0x8000_0000 then m else m - 0x1_0000_0000;
    hide Wrap32;
    if 0x80 <= x <= 0x9F {
      WindowsIsText(x);
    } else if 0 < x <= 0x10FFFF && x != 0xFFFD && !(0xD800 <= x <= 0xDFFF) {
      NotReplacement(x);
    }
  }

  lemma WindowsIsText(x: int)
    requires 0x80 <= x <= 0x9F
    ensures Image(x) != [0xEF, 0xBF, 0xBD]
  {
    var c := WINDOWS_1252[x - 0x80];
    assert 0 < c < 0x2200;
    hide WINDOWS_1252;
    NotReplacement(c);
  }

  lemma NotReplacement(x: int)
    requires ValidRune(x) && x != 0xFFFD
    ensures Encode(x) != [0xEF, 0xBF, 0xBD]
  {
    RuneOfEncoding(x, []);
    RuneOfEncoding(0xFFFD, []);
    assert Encode(0xFFFD) == [0xEF, 0xBF, 0xBD];
  }

  // "&#x100000041;"
  const TOO_LARGE: seq<byte> := [38, 35, 120, 49, 48, 48, 48, 48, 48, 48, 52, 49, 59]

  /** Nine digits that wrap around: they decode to "A". */
  lemma WrapsAround(t: Tables)
    ensures Decode(t, TOO_LARGE) == [65]
  {
    var cs, digits := [49, 48, 48, 48, 48, 48, 48, 52, 49], [1, 0, 0, 0, 0, 0, 0, 4, 1];
    assert Reference([120], cs, true) + [] == TOO_LARGE;
    assert Spells(cs, digits, true);
    hide Reference, Spells, Decode, Image;
    NumericReference(t, [120], cs, digits, true, []);
    NineDigits();
    hide Numeral;
    ImageOfA(t);
  }

  lemma ImageOfA(t: Tables)
    ensures Image(Wrap32(0x1_0000_0041)) + Decode(t, []) == [65]
  {
    hide WINDOWS_1252;
    assert Wrap32(0x1_0000_0041) == 65;
    assert Image(65) == [65];
  }

  lemma NineDigits()
    ensures Numeral(16, [1, 0, 0, 0, 0, 0, 0, 4, 1]) == 0x1_0000_0041
  {
    assert Power(16, 8) == 0x1_0000_0000 by { PowerOf16(); }
    hide Power;
    NumeralCons(16, 1, [0, 0, 0, 0, 0, 0, 4, 1]);
    NumeralCons(16, 0, [0, 0, 0, 0, 0, 4, 1]);
    NumeralCons(16, 0, [0, 0, 0, 0, 4, 1]);
    NumeralCons(16, 0, [0, 0, 0, 4, 1]);
    NumeralCons(16, 0, [0, 0, 4, 1]);
    NumeralCons(16, 0, [0, 4, 1]);
    NumeralCons(16, 0, [4, 1]);
    NumeralCons(16, 4, [1]);
    NumeralCons(16, 1, []);
    PowerOf16();
  }

  lemma PowerOf16()
    ensures Power(16, 0) == 1 && Power(16, 1) == 16 && Power(16, 8) == 0x1_0000_0000
  {
    assert Power(16, 2) == 256 && Power(16, 4) == 0x1_0000;
  }

  /** A single decimal digit without its semicolon is left as it is. */
  lemma LoneDigitStays(t: Tables, c: byte, rest: seq<byte>)
    requires '0' as int <= c <= '9' as int && (rest != [] ==> rest[0] != 59 && NoDigit(false, rest[0]))
    ensures Decode(t, [38, 35, c] + rest) == [38, 35, c] + Decode(t, rest)
  {
    hide Decode, Entity;
    var s := [38, 35, c] + rest;
    NoNumber(t, c, rest);
    DecodeStep(t, s);
    PlainText(t, s[1..], 2);
    assert s[1..][..2] == [35, c] && s[1..][2..] == rest;
    Reassociate([38], [35, c], Decode(t, rest));
  }

  lemma NoNumber(t: Tables, c: byte, rest: seq<byte>)
    requires '0' as int <= c <= '9' as int && (rest != [] ==> rest[0] != 59 && NoDigit(false, rest[0]))
    ensures Entity(t, [38, 35, c] + rest) == ([38], 1)
  {
    var s := [38, 35, c] + rest;
    assert s[..1] == [38];
    NumberEnds(s, 3, false, Wrap32(c - 48), false);
    assert Number(s, 2, false, 0) == Number(s, 3, false, Wrap32(c - 48));
    hide Number;
  }

  // ---- Names ----

  predicate Letters(name: seq<byte>) {
    forall i :: 0 <= i < |name| ==>
      || ('a' as int <= name[i] <= 'z' as int) || ('A' as int <= name[i] <= 'Z' as int) || ('0' as int <= name[i] <= '9' as int)
  }

  // A name as far as it goes: letters and digits, and the semicolon that follows them, or
  // no more of them.
  predicate WholeName(key: seq<byte>, rest: seq<byte>) {
    key != [] &&
    if key[|key| - 1] == 59 then Letters(key[..|key| - 1])
    else Letters(key) && (rest != [] ==> rest[0] != 59 && !Letters(rest[..1]))
  }

  predicate Known(t: Tables, key: seq<byte>) { key in t.one && t.one[key] != 0 }
  predicate KnownPair(t: Tables, key: seq<byte>) { key in t.two && t.two[key].0 != 0 }

  // j bytes of key are a name that needs no semicolon.
  predicate KnownFront(t: Tables, key: seq<byte>, j: int) { 2 <= j <= 6 && j < |key| && Known(t, key[..j]) }

  ghost predicate Longest(t: Tables, key: seq<byte>, j: int) {
    KnownFront(t, key, j) && forall k :: j < k ==> !KnownFront(t, key, k)
  }

  /**
    A named reference stands for the one or two code points its name has in the tables;
    failing that, its longest front that has one is taken, and the rest of it is text; and
    failing that, all of it is.
   */
  lemma NamedReference(t: Tables, key: seq<byte>, rest: seq<byte>)
    requires WholeName(key, rest)
    ensures Known(t, key) ==> Decode(t, [38] + key + rest) == Encode(t.one[key]) + Decode(t, rest)
    ensures !Known(t, key) && KnownPair(t, key) ==>
      Decode(t, [38] + key + rest) == Encode(t.two[key].0) + Encode(t.two[key].1) + Decode(t, rest)
    ensures forall j :: !Known(t, key) && !KnownPair(t, key) && Longest(t, key, j) ==>
      Decode(t, [38] + key + rest) == Encode(t.one[key[..j]]) + Decode(t, key[j..] + rest)
    ensures !Known(t, key) && !KnownPair(t, key) && (forall j :: !KnownFront(t, key, j)) ==>
      Decode(t, [38] + key + rest) == [38] + key + Decode(t, rest)
  {
    hide Decode, Encode, Named, Entity, WholeName;
    var s, n := [38] + key + rest, |key|;
    NameStands(t, key, rest);
    DecodeStep(t, s);
    if Known(t, key) {
      NamedOne(t, s, key);
    } else if KnownPair(t, key) {
      NamedTwo(t, s, key);
    } else {
      forall j | Longest(t, key, j)
        ensures Decode(t, s) == Encode(t.one[key[..j]]) + Decode(t, key[j..] + rest)
      {
        LongestFront(t, key, j);
        NamedFront(t, s, key, j);
        DropFront(key, rest, j);
      }
      if forall j :: !KnownFront(t, key, j) {
        NamedNone(t, s, key);
      }
    }
  }

  lemma DropFront(key: seq<byte>, rest: seq<byte>, j: nat)
    requires j <= |key|
    ensures ([38] + key + rest)[j + 1..] == key[j..] + rest
  {
  }

  lemma NameStands(t: Tables, key: seq<byte>, rest: seq<byte>)
    requires WholeName(key, rest)
    ensures
      var s, n := [38] + key + rest, |key|;
      && key != [] && s[0] == AMP && Entity(t, s) == Named(t, s, n + 1)
      && s[1..n + 1] == key && s[n + 1..] == rest && s[..n + 1] == [38] + key
  {
    var s := [38] + key + rest;
    NameEnds(s, key, rest, 1);
    assert s[1] == key[0] != HASH;
    hide Named;
  }

  // Named, by what the tables know of the name.
  lemma NamedOne(t: Tables, s: seq<byte>, key: seq<byte>)
    requires key != [] && |key| < |s| && s[1..|key| + 1] == key && Known(t, key)
    ensures Named(t, s, |key| + 1) == (Encode(t.one[key]), |key| + 1)
  {
  }

  lemma NamedTwo(t: Tables, s: seq<byte>, key: seq<byte>)
    requires key != [] && |key| < |s| && s[1..|key| + 1] == key && !Known(t, key) && KnownPair(t, key)
    ensures Named(t, s, |key| + 1) == (Encode(t.two[key].0) + Encode(t.two[key].1), |key| + 1)
  {
  }

  lemma NamedFront(t: Tables, s: seq<byte>, key: seq<byte>, j: nat)
    requires key != [] && |key| < |s| && s[1..|key| + 1] == key && !Known(t, key) && !KnownPair(t, key)
    requires KnownFront(t, key, j) && PrefixLen(t, key, LongestPrefix(key)) == j
    ensures Named(t, s, |key| + 1) == (Encode(t.one[key[..j]]), j + 1)
  {
  }

  lemma NamedNone(t: Tables, s: seq<byte>, key: seq<byte>)
    requires key != [] && |key| < |s| && s[1..|key| + 1] == key && !Known(t, key) && !KnownPair(t, key)
    requires forall j :: !KnownFront(t, key, j)
    ensures Named(t, s, |key| + 1) == (s[..|key| + 1], |key| + 1)
  {
    var k := PrefixLen(t, key, LongestPrefix(key));
    assert k > 0 ==> KnownFront(t, key, k);
  }

  lemma LongestFront(t: Tables, key: seq<byte>, j: int)
    requires Longest(t, key, j)
    ensures KnownFront(t, key, j) && 2 <= j < |key| && key[..j] in t.one && PrefixLen(t, key, LongestPrefix(key)) == j
  {
    var k := PrefixLen(t, key, LongestPrefix(key));
    assert k > 0 ==> KnownFront(t, key, k);
  }

  lemma {:induction false} NameEnds(s: seq<byte>, key: seq<byte>, rest: seq<byte>, i: nat)
    requires WholeName(key, rest) && s == [38] + key + rest && 1 <= i <= |key| + 1
    requires i == |key| + 1 ==> key[|key| - 1] != 59
    ensures NameEnd(s, i) == |key| + 1
    decreases |s| - i
  {
    if i == |key| + 1 {
      if i < |s| {
        assert s[i] == rest[0] == rest[..1][0];
      }
    } else {
      assert s[i] == key[i - 1];
      if s[i] != 59 || i < |key| {
        assert i < |key| || key[|key| - 1] != 59;
        assert key[|key| - 1] == 59 ==> key[..|key| - 1][i - 1] == key[i - 1];
        NameEnds(s, key, rest, i + 1);
      }
    }
  }
}
