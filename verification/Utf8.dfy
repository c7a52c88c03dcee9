/**
  The parts of unicode/utf8 that the codecs rely on, as specified functions.
 */
module Utf8 {
  import opened Bytes

  const RUNE_ERROR: int := 0xFFFD

  predicate ValidRune(r: int) { 0 <= r < 0xD800 || 0xDFFF < r <= 0x10FFFF }

  // utf8.EncodeRune: an invalid rune is encoded as U+FFFD.
  function Encode(r: int): (e: seq<byte>)
    ensures 1 <= |e| <= 4
  {
    var x := if ValidRune(r) then r else RUNE_ERROR;
    if x < 0x80 then [x]
    else if x < 0x800 then [0xC0 + x / 64, 0x80 + x % 64]
    else if x < 0x10000 then [0xE0 + x / 4096, 0x80 + x / 64 % 64, 0x80 + x % 64]
    else [0xF0 + x / 262144, 0x80 + x / 4096 % 64, 0x80 + x / 64 % 64, 0x80 + x % 64]
  }

  predicate Continuation(b: byte) { 0x80 <= b <= 0xBF }

  // The width utf8.DecodeRune reports: 1 for ASCII and for any malformed start.
  function Width(s: seq<byte>): (n: nat)
    requires s != []
    ensures 1 <= n <= 4 && n <= |s|
  {
    var a := s[0];
    if |s| >= 2 && 0xC2 <= a <= 0xDF && Continuation(s[1]) then 2
    else if |s| >= 3 && Second3(a, s[1]) && Continuation(s[2]) then 3
    else if |s| >= 4 && Second4(a, s[1]) && Continuation(s[2]) && Continuation(s[3]) then 4
    else 1
  }

  // The second byte a three- or four-byte start allows: no overlong form, no surrogate,
  // nothing above U+10FFFF.
  predicate Second3(a: byte, b: byte) {
    0xE0 <= a <= 0xEF && Continuation(b) && (a == 0xE0 ==> b >= 0xA0) && (a == 0xED ==> b <= 0x9F)
  }

  predicate Second4(a: byte, b: byte) {
    0xF0 <= a <= 0xF4 && Continuation(b) && (a == 0xF0 ==> b >= 0x90) && (a == 0xF4 ==> b <= 0x8F)
  }

  // The rune utf8.DecodeRune reports: U+FFFD for a malformed start.
  function Rune(s: seq<byte>): int
    requires s != []
  {
    match Width(s)
    case 2 => (s[0] - 0xC0) * 64 + (s[1] - 0x80)
    case 3 => (s[0] - 0xE0) * 4096 + (s[1] - 0x80) * 64 + (s[2] - 0x80)
    case 4 => (s[0] - 0xF0) * 262144 + (s[1] - 0x80) * 4096 + (s[2] - 0x80) * 64 + (s[3] - 0x80)
    case _ => if s[0] < 0x80 then s[0] else RUNE_ERROR
  }

  lemma Ascii(s: seq<byte>)
    requires s != []
    ensures s[0] < 0x80 ==> Width(s) == 1 && Rune(s) == s[0]
  {
  }

  predicate Malformed(s: seq<byte>)
    requires s != []
  {
    Width(s) == 1 && s[0] >= 0x80
  }

  /** Decoding undoes encoding, whatever follows. */
  lemma RuneOfEncoding(r: int, rest: seq<byte>)
    ensures Rune(Encode(r) + rest) == if ValidRune(r) then r else RUNE_ERROR
  {
    var x := if ValidRune(r) then r else RUNE_ERROR;
    WidthOfEncoding(r, rest);
    SixBits(x);
    SixBits(x / 64);
    SixBits(x / 4096);
    hide Width;
  }

  lemma SixBits(x: nat)
    ensures x == x / 64 * 64 + x % 64 && 0 <= x % 64 < 64
    ensures x / 64 / 64 == x / 4096 && x / 4096 / 64 == x / 262144
  {
  }

  lemma Compose(a: nat, b: nat)
    requires b < 64
    ensures (a * 64 + b) / 64 == a && (a * 64 + b) % 64 == b
  {
  }

  /** And encoding undoes decoding, but for malformed bytes. */
  lemma EncodingOfRune(s: seq<byte>)
    requires s != []
    ensures if Malformed(s) then Rune(s) == RUNE_ERROR else ValidRune(Rune(s)) && Encode(Rune(s)) == s[..Width(s)]
  {
    var n := Width(s);
    if n == 2 {
      Encoding2(s);
    } else if n == 3 {
      Encoding3(s);
    } else if n == 4 {
      Encoding4(s);
    }
  }

  lemma Encoding2(s: seq<byte>)
    requires s != [] && Width(s) == 2
    ensures ValidRune(Rune(s)) && Encode(Rune(s)) == s[..2]
  {
    Compose(s[0] - 0xC0, s[1] - 0x80);
  }

  lemma Encoding3(s: seq<byte>)
    requires s != [] && Width(s) == 3
    ensures ValidRune(Rune(s)) && Encode(Rune(s)) == s[..3]
  {
    var a: int, b: int, c: int := s[0] - 0xE0, s[1] - 0x80, s[2] - 0x80;
    var x := Rune(s);
    assert x == (a * 64 + b) * 64 + c;
    Compose(a, b);
    Compose(a * 64 + b, c);
    SixBits(x);
    ThreeBytes(x);
    hide Rune, Encode, Width;
    assert 0x800 <= x < 0x10000 && ValidRune(x);
  }

  lemma ThreeBytes(x: nat)
    requires 0x800 <= x < 0x10000 && ValidRune(x)
    ensures Encode(x) == [0xE0 + x / 4096, 0x80 + x / 64 % 64, 0x80 + x % 64]
  {
  }

  lemma Encoding4(s: seq<byte>)
    requires s != [] && Width(s) == 4
    ensures ValidRune(Rune(s)) && Encode(Rune(s)) == s[..4]
  {
    var a: int, b: int, c: int, d: int := s[0] - 0xF0, s[1] - 0x80, s[2] - 0x80, s[3] - 0x80;
    var x := Rune(s);
    assert x == ((a * 64 + b) * 64 + c) * 64 + d;
    Compose(a, b);
    Compose(a * 64 + b, c);
    Compose((a * 64 + b) * 64 + c, d);
    SixBits(x);
    FourBytes(x);
    hide Rune, Encode, Width;
    assert 0x10000 <= x <= 0x10FFFF;
  }

  lemma FourBytes(x: nat)
    requires 0x10000 <= x <= 0x10FFFF
    ensures Encode(x) == [0xF0 + x / 262144, 0x80 + x / 4096 % 64, 0x80 + x / 64 % 64, 0x80 + x % 64]
  {
  }

  /** Width recognises every encoding, whatever follows it. */
  lemma WidthOfEncoding(r: int, rest: seq<byte>)
    ensures Width(Encode(r) + rest) == |Encode(r)|
  {
  }

  // How long the encoding that starts with a would be.
  function Need(a: byte): nat {
    if 0xC2 <= a <= 0xDF then 2 else if 0xE0 <= a <= 0xEF then 3 else if 0xF0 <= a <= 0xF4 then 4 else 1
  }

  predicate Second(a: byte, b: byte) {
    if Need(a) == 3 then Second3(a, b) else if Need(a) == 4 then Second4(a, b) else Continuation(b)
  }

  // utf8.FullRune: whether s begins with a whole encoding, well formed or not.
  predicate FullRune(s: seq<byte>) {
    s != [] &&
    (|s| >= Need(s[0]) || (|s| >= 2 && !Second(s[0], s[1])) || (|s| >= 3 && !Continuation(s[2])))
  }

  /** Once a rune is whole, later bytes do not change it. */
  lemma WidthIsStable(s: seq<byte>, t: seq<byte>)
    requires s != [] && (FullRune(s) || |s| >= 4)
    ensures Width(s + t) == Width(s) && Rune(s + t) == Rune(s)
  {
  }
}
