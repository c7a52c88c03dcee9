/**
  html.UnescapeString, which rewrites its text in place with two cursors, against an
  append-only decoder; and html.EscapeString, which it undoes.
 */
module Html {
  import opened Bytes
  import opened Utf8

  const AMP: byte := 38
  const HASH: byte := 35
  const SEMI: byte := 59
  const LONGEST_WITHOUT_SEMICOLON: nat := 6

  // The entity tables; a missing name reads as 0, as a Go map does.
  datatype Tables = Tables(one: map<seq<byte>, int>, two: map<seq<byte>, (int, int)>)
  {
    function One(name: seq<byte>): int { if name in one then one[name] else 0 }
    function Two(name: seq<byte>): (int, int) { if name in two then two[name] else (0, 0) }
  }

  // No replacement is wider than its name with the ampersand.
  ghost predicate Narrow(t: Tables) {
    && (forall name :: name in t.one ==> |Encode(t.one[name])| <= |name| + 1)
    && (forall name :: name in t.two ==> |Encode(t.two[name].0)| + |Encode(t.two[name].1)| <= |name| + 1)
  }

  const REPLACEMENTS: seq<int> := [
    0x20AC, 0x0081, 0x201A, 0x0192, 0x201E, 0x2026, 0x2020, 0x2021,
    0x02C6, 0x2030, 0x0160, 0x2039, 0x0152, 0x008D, 0x017D, 0x008F,
    0x0090, 0x2018, 0x2019, 0x201C, 0x201D, 0x2022, 0x2013, 0x2014,
    0x02DC, 0x2122, 0x0161, 0x203A, 0x0153, 0x009D, 0x017E, 0x0178]

  // ---- The append-only decoder ----

  // The value of a digit in the radix in use, or -1.
  function Digit(hex: bool, c: byte): int {
    if '0' as int <= c <= '9' as int then c - '0' as int
    else if hex && 'a' as int <= c <= 'f' as int then c - 'a' as int + 10
    else if hex && 'A' as int <= c <= 'F' as int then c - 'A' as int + 10
    else -1
  }

  // Arithmetic on a Go rune, a 32-bit signed integer.
  function Wrap32(x: int): int { (x + 0x8000_0000) % 0x1_0000_0000 - 0x8000_0000 }

  function Radix(hex: bool): int { if hex then 16 else 10 }

  // The number from s[i..] on, and the index after it and an optional semicolon.
  function Number(s: seq<byte>, i: nat, hex: bool, x: int): (r: (int, nat))
    requires i <= |s|
    ensures i <= r.1 <= |s|
    decreases |s| - i
  {
    if i == |s| then (x, i)
    else if Digit(hex, s[i]) >= 0 then Number(s, i + 1, hex, Wrap32(Radix(hex) * x + Digit(hex, s[i])))
    else if s[i] == SEMI then (x, i + 1)
    else (x, i)
  }

  function Replaced(x: int): int {
    if 0x80 <= x <= 0x9F then REPLACEMENTS[x - 0x80]
    else if x == 0 || 0xD800 <= x <= 0xDFFF || x > 0x10FFFF then RUNE_ERROR
    else x
  }

  predicate Alnum(c: byte) {
    || ('a' as int <= c <= 'z' as int) || ('A' as int <= c <= 'Z' as int) || ('0' as int <= c <= '9' as int)
  }

  // The index after the name that starts at s[i], with an optional semicolon.
  function NameEnd(s: seq<byte>, i: nat): (n: nat)
    requires i <= |s|
    ensures i <= n <= |s|
    decreases |s| - i
  {
    if i == |s| then i
    else if Alnum(s[i]) then NameEnd(s, i + 1)
    else if s[i] == SEMI then i + 1
    else i
  }

  // The longest proper prefix of name, at most j long and longer than 1, in the table.
  function PrefixLen(t: Tables, name: seq<byte>, j: int): (k: int)
    requires j <= |name|
    ensures k == 0 || (1 < k <= j && t.One(name[..k]) != 0)
    ensures forall m :: k < m <= j && 1 < m ==> t.One(name[..m]) == 0
  {
    if j <= 1 then 0 else if t.One(name[..j]) != 0 then j else PrefixLen(t, name, j - 1)
  }

  function LongestPrefix(name: seq<byte>): int {
    if |name| - 1 > LONGEST_WITHOUT_SEMICOLON then LONGEST_WITHOUT_SEMICOLON else |name| - 1
  }

  // What the reference at the start of s stands for, and how much of s it takes.
  function Entity(t: Tables, s: seq<byte>): (r: (seq<byte>, nat))
    requires s != [] && s[0] == AMP
    ensures 1 <= r.1 <= |s|
  {
    if |s| <= 1 then (s[..1], 1)
    else if s[1] == HASH then Numeric(s)
    else Named(t, s, NameEnd(s, 1))
  }

  function Numeric(s: seq<byte>): (r: (seq<byte>, nat))
    requires |s| > 1
    ensures 1 <= r.1 <= |s|
  {
    if |s| <= 3 then (s[..1], 1)
    else
      var hex := s[2] == 'x' as int || s[2] == 'X' as int;
      var (x, i) := Number(s, if hex then 3 else 2, hex, 0);
      if i <= 3 then (s[..1], 1) else (Encode(Replaced(x)), i)
  }

  function Named(t: Tables, s: seq<byte>, i: nat): (r: (seq<byte>, nat))
    requires 1 <= i <= |s|
    ensures 1 <= r.1 <= |s|
  {
    var name := s[1..i];
    if |name| == 0 then (s[..i], i)
    else if t.One(name) != 0 then (Encode(t.One(name)), i)
    else if t.Two(name).0 != 0 then (Encode(t.Two(name).0) + Encode(t.Two(name).1), i)
    else
      var k := PrefixLen(t, name, LongestPrefix(name));
      if k > 0 then (Encode(t.One(name[..k])), k + 1) else (s[..i], i)
  }

  // Text with every reference replaced.
  function Decode(t: Tables, s: seq<byte>): seq<byte> {
    if s == [] then []
    else if s[0] == AMP then var (out, n) := Entity(t, s); out + Decode(t, s[n..])
    else [s[0]] + Decode(t, s[1..])
  }

  /** With narrow tables no reference expands. */
  lemma EntityShrinks(t: Tables, s: seq<byte>)
    requires Narrow(t) && s != [] && s[0] == AMP
    ensures |Entity(t, s).0| <= Entity(t, s).1
  {
  }

  // ---- In place ----

  // The numeric loop of unescapeEntity.
  method ScanNumber(b: array<byte>, src: nat, start: nat, hex: bool) returns (x: int, i: nat)
    requires src + start <= b.Length
    ensures (x, i) == Number(b[src..], start, hex, 0)
  {
    ghost var s := b[src..];
    x, i := 0, start;
    while src + i < b.Length
      invariant i <= |s| && b[src..] == s
      invariant Number(s, i, hex, x) == Number(s, start, hex, 0)
      decreases |s| - i
    {
      var c := b[src + i];
      assert c == s[i];
      i := i + 1;
      if Digit(hex, c) >= 0 {
        x := Wrap32(Radix(hex) * x + Digit(hex, c));
        continue;
      }
      if c != SEMI { i := i - 1; }
      return;
    }
  }

  // The name loop of unescapeEntity.
  method ScanName(b: array<byte>, src: nat) returns (i: nat)
    requires src + 1 <= b.Length
    ensures i == NameEnd(b[src..], 1)
  {
    ghost var s := b[src..];
    i := 1;
    while src + i < b.Length
      invariant i <= |s| && b[src..] == s
      invariant NameEnd(s, i) == NameEnd(s, 1)
      decreases |s| - i
    {
      var c := b[src + i];
      assert c == s[i];
      i := i + 1;
      if Alnum(c) { continue; }
      if c != SEMI { i := i - 1; }
      return;
    }
  }

  method FindPrefix(t: Tables, name: seq<byte>) returns (k: int)
    ensures name != [] ==> k == PrefixLen(t, name, LongestPrefix(name))
    ensures k == 0 || (1 < k <= LongestPrefix(name) && t.One(name[..k]) != 0)
    ensures forall m :: k < m <= LongestPrefix(name) && 1 < m ==> t.One(name[..m]) == 0
  {
    var j := LongestPrefix(name);
    while j > 1
      invariant j <= LongestPrefix(name)
      invariant forall m :: j < m <= LongestPrefix(name) && 1 < m ==> t.One(name[..m]) == 0
      invariant name != [] ==> PrefixLen(t, name, j) == PrefixLen(t, name, LongestPrefix(name))
    {
      if t.One(name[..j]) != 0 { return j; }
      j := j - 1;
    }
    return 0;
  }

  // The reading half of unescapeEntity, for a numeric and a named reference.
  method ReadNumeric(b: array<byte>, src: nat) returns (out: seq<byte>, n: nat)
    requires src + 1 < b.Length
    ensures (out, n) == Numeric(b[src..])
  {
    ghost var s := b[src..];
    out, n := [b[src]], 1;
    assert s[..1] == out;
    if b.Length - src <= 3 { return; }
    var c := b[src + 2];
    var hex := c == 'x' as int || c == 'X' as int;
    var x, i := ScanNumber(b, src, if hex then 3 else 2, hex);
    if i <= 3 { return; }
    out, n := Encode(Replaced(x)), i;
  }

  method ReadNamed(t: Tables, b: array<byte>, src: nat) returns (out: seq<byte>, n: nat)
    requires src + 1 < b.Length
    ensures (out, n) == Named(t, b[src..], NameEnd(b[src..], 1))
  {
    ghost var s := b[src..];
    var i := ScanName(b, src);
    var name := b[src + 1..src + i];
    assert |name| == i - 1 && forall j :: 0 <= j < i - 1 ==> name[j] == s[1 + j];
    assert name == s[1..i];
    assert b[src..src + i] == s[..i];
    out, n := b[src..src + i], i;
    if |name| == 0 {
    } else if t.One(name) != 0 {
      out := Encode(t.One(name));
    } else if t.Two(name).0 != 0 {
      out := Encode(t.Two(name).0) + Encode(t.Two(name).1);
    } else {
      var k := FindPrefix(t, name);
      if k > 0 { out, n := Encode(t.One(name[..k])), k + 1; }
    }
  }

  /** unescapeEntity: it writes at dst what the append-only decoder would emit, and
      leaves every byte it has not read as it was. */
  method UnescapeEntity(t: Tables, b: array<byte>, dst: nat, src: nat) returns (dst1: nat, src1: nat)
    requires Narrow(t) && dst <= src < b.Length && b[src] == AMP
    modifies b
    ensures var (out, n) := Entity(t, old(b[src..]));
      && src1 == src + n && dst1 == dst + |out|
      && dst1 <= src1 <= b.Length
      && b[..dst1] == old(b[..dst]) + out
    ensures b[src1..] == old(b[src1..])
  {
    ghost var s := b[src..];
    EntityShrinks(t, s);
    var out: seq<byte>, n: nat := [b[src]], 1;
    assert s[..1] == out;
    if b.Length - src <= 1 {
    } else if b[src + 1] == HASH {
      out, n := ReadNumeric(b, src);
    } else {
      out, n := ReadNamed(t, b, src);
    }
    assert (out, n) == Entity(t, s);
    hide Entity;
    ghost var head := b[..dst];
    CopyTo(b, dst, out);
    dst1, src1 := dst + |out|, src + n;
    assert b[..dst1] == head + out;
  }

  // Copying plain text down to the write cursor leaves the unread text alone.
  method CopyPlain(s: seq<byte>, b: array<byte>, dst: nat, src: nat, i: nat)
    requires b.Length == |s| && dst <= src && src + i <= |s| && b[src..] == s[src..]
    modifies b
    ensures b[..dst + i] == old(b[..dst]) + s[src..src + i]
    ensures b[src + i..] == s[src + i..]
  {
    assert forall j :: src <= j < |s| ==> b[j] == b[src..][j - src] == s[j];
    CopyTo(b, dst, s[src..src + i]);
    assert forall j :: src + i <= j < |s| ==> b[j] == s[j];
  }

  // One round of the loop of UnescapeString: plain text up to the next ampersand, and
  // the reference there.
  method UnescapeNext(t: Tables, s: seq<byte>, b: array<byte>, dst: nat, src: nat)
    returns (dst1: nat, src1: nat)
    requires Narrow(t) && b.Length == |s| && dst <= src < |s| && b[src..] == s[src..]
    modifies b
    ensures src < src1 <= |s| && dst1 <= src1 && b[src1..] == s[src1..]
    ensures b[..dst1] + Decode(t, s[src1..]) == old(b[..dst]) + Decode(t, s[src..])
  {
    hide Decode, Narrow, Entity, IndexByte;
    var i := if s[src] == AMP then 0 else IndexByte(s[src..], AMP);
    if i < 0 {
      CopyRest(t, s, b, dst, src);
      return dst + (|s| - src), |s|;
    }
    ghost var head := b[..dst];
    PlainPart(t, s, src, i);
    Reassociate(head, s[src..src + i], Decode(t, s[src + i..]));
    CopyPlain(s, b, dst, src, i);
    dst1, src1 := UnescapeAt(t, s, b, dst + i, src + i);
  }

  // The text after the last ampersand.
  method CopyRest(t: Tables, s: seq<byte>, b: array<byte>, dst: nat, src: nat)
    requires b.Length == |s| && dst <= src < |s| && b[src..] == s[src..]
    requires forall j :: 0 <= j < |s| - src ==> s[src..][j] != AMP
    modifies b
    ensures b[..dst + (|s| - src)] + Decode(t, s[|s|..]) == old(b[..dst]) + Decode(t, s[src..])
    ensures b[|s|..] == s[|s|..]
  {
    hide Decode;
    ghost var head := b[..dst];
    PlainPart(t, s, src, |s| - src);
    Reassociate(head, s[src..|s|], Decode(t, s[|s|..]));
    CopyPlain(s, b, dst, src, |s| - src);
  }

  // The reference at the read cursor.
  method UnescapeAt(t: Tables, s: seq<byte>, b: array<byte>, dst: nat, at: nat) returns (dst1: nat, src1: nat)
    requires Narrow(t) && b.Length == |s| && dst <= at < |s| && b[at..] == s[at..] && s[at] == AMP
    modifies b
    ensures at < src1 <= |s| && dst1 <= src1 && b[src1..] == s[src1..]
    ensures b[..dst1] + Decode(t, s[src1..]) == old(b[..dst]) + Decode(t, s[at..])
  {
    hide Decode, Narrow, Entity;
    ghost var head := b[..dst];
    assert b[at] == b[at..][0];
    EntityStep(t, s, at, head);
    dst1, src1 := UnescapeEntity(t, b, dst, at);
    assert s[at..][src1 - at..] == s[src1..];
    assert old(b[at..])[src1 - at..] == old(b[src1..]);
  }

  lemma PlainPart(t: Tables, s: seq<byte>, src: nat, i: nat)
    requires src + i <= |s| && forall j :: 0 <= j < i ==> s[src..][j] != AMP
    ensures Decode(t, s[src..]) == s[src..src + i] + Decode(t, s[src + i..])
  {
    hide Decode;
    var rest := s[src..];
    PlainText(t, rest, i);
    assert rest[..i] == s[src..src + i] && rest[i..] == s[src + i..];
  }

  /** UnescapeString equals the append-only decoder on every input: the write cursor
      never overtakes the read cursor. */
  method UnescapeString(t: Tables, s: seq<byte>) returns (r: seq<byte>)
    requires Narrow(t)
    ensures r == Decode(t, s)
  {
    hide Narrow, Entity;
    var i := IndexByte(s, AMP);
    if i < 0 {
      PlainText(t, s, |s|);
      assert s[..|s|] == s && s[|s|..] == [];
      return s;
    }
    var b := new byte[|s|];
    CopyTo(b, 0, s);
    assert b[..] == s && b[i..] == s[i..] && b[..i] == s[..i];
    PlainText(t, s, i);
    EntityStep(t, s, i, s[..i]);
    var dst: nat, src: nat := UnescapeEntity(t, b, i, i);
    assert b[src..] == s[src..];
    while src < |s|
      invariant b.Length == |s| && dst <= src <= |s|
      invariant b[src..] == s[src..]
      invariant Decode(t, s) == b[..dst] + Decode(t, s[src..])
      decreases |s| - src
    {
      dst, src := UnescapeNext(t, s, b, dst, src);
    }
    assert s[src..] == [];
    return b[..dst];
  }

  // Text before an ampersand is copied.
  lemma {:induction false} PlainText(t: Tables, s: seq<byte>, i: nat)
    requires i <= |s| && forall j :: 0 <= j < i ==> s[j] != AMP
    ensures Decode(t, s) == s[..i] + Decode(t, s[i..])
  {
    hide Entity;
    if i == 0 {
      assert s[0..] == s;
    } else {
      PlainText(t, s[1..], i - 1);
      assert s[1..][i - 1..] == s[i..];
      assert s[..i] == [s[0]] + s[1..][..i - 1];
    }
  }

  lemma EntityStep(t: Tables, s: seq<byte>, at: nat, head: seq<byte>)
    requires at < |s| && s[at] == AMP
    ensures var (out, n) := Entity(t, s[at..]);
      && at + n <= |s|
      && head + Decode(t, s[at..]) == (head + out) + Decode(t, s[at + n..])
  {
    hide Entity;
    var (out, n) := Entity(t, s[at..]);
    assert s[at..][n..] == s[at + n..];
    assert head + (out + Decode(t, s[at + n..])) == (head + out) + Decode(t, s[at + n..]);
  }

  // ---- Escaping ----

  const ESC_AMP: seq<byte> := [38, 97, 109, 112, 59]  // &amp;
  const ESC_APOS: seq<byte> := [38, 35, 51, 57, 59]   // &#39;
  const ESC_LT: seq<byte> := [38, 108, 116, 59]       // &lt;
  const ESC_GT: seq<byte> := [38, 103, 116, 59]       // &gt;
  const ESC_QUOT: seq<byte> := [38, 35, 51, 52, 59]   // &#34;

  function EscapeByte(c: byte): seq<byte> {
    if c == 38 then ESC_AMP
    else if c == 39 then ESC_APOS
    else if c == 60 then ESC_LT
    else if c == 62 then ESC_GT
    else if c == 34 then ESC_QUOT
    else [c]
  }

  // htmlEscaper.Replace: every old string is one byte, so bytes are replaced one by one.
  function EscapeString(s: seq<byte>): seq<byte> {
    if s == [] then [] else EscapeByte(s[0]) + EscapeString(s[1..])
  }

  /** Five characters are replaced, and nothing else is. */
  lemma EscapesFive(c: byte, rest: seq<byte>)
    ensures c == '&' as int ==> EscapeString([c] + rest) == [38, 97, 109, 112, 59] + EscapeString(rest)
    ensures c == '\'' as int ==> EscapeString([c] + rest) == [38, 35, 51, 57, 59] + EscapeString(rest)
    ensures c == '<' as int ==> EscapeString([c] + rest) == [38, 108, 116, 59] + EscapeString(rest)
    ensures c == '>' as int ==> EscapeString([c] + rest) == [38, 103, 116, 59] + EscapeString(rest)
    ensures c == '"' as int ==> EscapeString([c] + rest) == [38, 35, 51, 52, 59] + EscapeString(rest)
    ensures c !in {38, 39, 60, 62, 34} ==> EscapeString([c] + rest) == [c] + EscapeString(rest)
  {
    assert ([c] + rest)[1..] == rest;
  }

  // The three names EscapeString writes, as the entity table has them.
  predicate KnowsEscapes(t: Tables) {
    t.One([97, 109, 112, 59]) == 38 && t.One([108, 116, 59]) == 60 && t.One([103, 116, 59]) == 62
  }

  lemma DecodeEscapeByte(t: Tables, c: byte, rest: seq<byte>)
    requires KnowsEscapes(t)
    ensures Decode(t, EscapeByte(c) + rest) == [c] + Decode(t, rest)
  {
    var e := EscapeByte(c);
    var s := e + rest;
    assert s[|e|..] == rest;
    if c == 39 || c == 34 {
      NumericEscape(s, c);
    } else if c == 38 || c == 60 || c == 62 {
      NamedEscape(t, s, c);
    } else {
      assert s[1..] == rest;
    }
  }

  lemma NumericEscape(s: seq<byte>, c: byte)
    requires (c == 39 && ESC_APOS <= s) || (c == 34 && ESC_QUOT <= s)
    ensures Numeric(s) == ([c], 5)
  {
    assert Number(s, 4, false, c) == (c, 5);
    assert Number(s, 3, false, 3) == (c, 5);
    assert Number(s, 2, false, 0) == (c, 5);
  }

  lemma NamedEscape(t: Tables, s: seq<byte>, c: byte)
    requires KnowsEscapes(t) && (c == 38 || c == 60 || c == 62) && EscapeByte(c) <= s
    ensures Entity(t, s) == ([c], |EscapeByte(c)|)
  {
    var e := EscapeByte(c);
    var n := |e|;
    assert NameEnd(s, n - 1) == n;
    assert NameEnd(s, n - 2) == n;
    assert NameEnd(s, n - 3) == n;
    assert NameEnd(s, 1) == n;
    assert s[1..n] == e[1..];
  }

  /** UnescapeString(EscapeString(s)) == s, for every s. */
  lemma {:induction false} UnescapeUndoesEscape(t: Tables, s: seq<byte>)
    requires KnowsEscapes(t)
    ensures Decode(t, EscapeString(s)) == s
  {
    if s != [] {
      DecodeEscapeByte(t, s[0], EscapeString(s[1..]));
      UnescapeUndoesEscape(t, s[1..]);
    }
  }

  /** Escaped text holds no raw markup: the bytes < > ' " never occur in it. */
  lemma {:induction false} EscapedIsInert(s: seq<byte>)
    ensures forall c :: c in EscapeString(s) ==> c != 60 && c != 62 && c != 39 && c != 34
  {
    if s != [] { EscapedIsInert(s[1..]); }
  }
}
