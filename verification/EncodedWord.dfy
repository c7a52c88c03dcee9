/**
  mime: RFC 2047 encoded-words in the Q encoding, and the header decoder.
 */
module EncodedWord {
  import opened Bytes
  import opened Utf8

  const SPACE: byte := 32
  const EQ: byte := 61
  const QM: byte := 63
  const UNDERSCORE: byte := 95
  const MAX_WORD: nat := 75
  const MAX_CONTENT: nat := 75 - 10 - 2

  // ---- Q encoding ----

  function UpperHex(n: nat): byte
    requires n < 16
  {
    if n < 10 then 48 + n else 55 + n
  }

  // Bytes that stand for themselves, the space aside.
  predicate Literal(b: byte) { 33 <= b <= 126 && b != EQ && b != QM && b != UNDERSCORE }

  function QByte(b: byte): seq<byte> {
    if b == SPACE then [UNDERSCORE]
    else if Literal(b) then [b]
    else [EQ, UpperHex(b / 16), UpperHex(b % 16)]
  }

  function Q(s: seq<byte>): seq<byte> {
    if s == [] then [] else QByte(s[0]) + Q(s[1..])
  }

  // The length qEncode books for the rune at the start of s.
  function EncLen(s: seq<byte>): nat
    requires s != []
  {
    if s[0] == SPACE || Literal(s[0]) then 1 else 3 * Width(s)
  }

  // "=?charset?q?" and "?="
  function Open(charset: seq<byte>): seq<byte> { [EQ, QM] + charset + [QM, 113, QM] }
  const CLOSE: seq<byte> := [QM, EQ]
  function SplitWord(charset: seq<byte>): seq<byte> { CLOSE + [SPACE] + Open(charset) }

  function Lower(c: byte): byte { if 65 <= c <= 90 then c + 32 else c }

  // strings.EqualFold on ASCII.
  predicate EqualFold(a: seq<byte>, b: seq<byte>) {
    |a| == |b| && forall i :: 0 <= i < |a| ==> Lower(a[i]) == Lower(b[i])
  }

  const UTF_8: seq<byte> := [85, 84, 70, 45, 56]
  const LATIN1: seq<byte> := [105, 115, 111, 45, 56, 56, 53, 57, 45, 49]
  const ASCII: seq<byte> := [117, 115, 45, 97, 115, 99, 105, 105]

  predicate IsUTF8(charset: seq<byte>) { EqualFold(charset, UTF_8) }

  // What qEncode writes for s when cur characters of content are already in the word.
  function Body(charset: seq<byte>, s: seq<byte>, cur: nat): seq<byte> {
    if s == [] then []
    else
      var n, e := Width(s), EncLen(s);
      if cur + e > MAX_CONTENT then
        SplitWord(charset) + Q(s[..n]) + Body(charset, s[n..], e)
      else Q(s[..n]) + Body(charset, s[n..], cur + e)
  }

  // WordEncoder.encodeWord with the Q encoding.
  function EncodeWord(charset: seq<byte>, s: seq<byte>): seq<byte> {
    Open(charset) + (if IsUTF8(charset) then Body(charset, s, 0) else Q(s)) + CLOSE
  }

  // needsEncoding: some character is neither printable ASCII nor a tab.
  predicate NeedsEncoding(s: seq<byte>) {
    exists i :: 0 <= i < |s| && (s[i] < 32 || s[i] > 126) && s[i] != 9
  }

  // WordEncoder.Encode
  function Encode(charset: seq<byte>, s: seq<byte>): seq<byte> {
    if NeedsEncoding(s) then EncodeWord(charset, s) else s
  }

  lemma {:induction false} QConcat(a: seq<byte>, b: seq<byte>)
    ensures Q(a + b) == Q(a) + Q(b)
  {
    if a == [] {
      assert a + b == b && Q(a) == [];
    } else {
      hide QByte, Q;
      QConcat(a[1..], b);
      assert (a + b)[0] == a[0] && (a + b)[1..] == a[1..] + b;
      QUnfold(a);
      QUnfold(a + b);
      Reassociate(QByte(a[0]), Q(a[1..]), Q(b));
    }
  }

  lemma QUnfold(s: seq<byte>)
    requires s != []
    ensures Q(s) == QByte(s[0]) + Q(s[1..])
  {
  }

  // The loop of writeQString.
  method WriteQString(s: seq<byte>) returns (out: seq<byte>)
    ensures out == Q(s)
  {
    out := [];
    for i := 0 to |s|
      invariant out == Q(s[..i])
    {
      var b := s[i];
      QConcat(s[..i], [b]);
      assert s[..i + 1] == s[..i] + [b];
      assert Q([b]) == QByte(b) + Q([]);
      if b == SPACE {
        out := out + [UNDERSCORE];
      } else if Literal(b) {
        out := out + [b];
      } else {
        out := out + [EQ, UpperHex(b / 16), UpperHex(b % 16)];
      }
    }
    assert s[..|s|] == s;
  }

  // One round of qEncode's loop: what it appends, and the new content length.
  function Round(charset: seq<byte>, s: seq<byte>, cur: nat): (seq<byte>, nat)
    requires s != []
  {
    if cur + EncLen(s) > MAX_CONTENT
    then (SplitWord(charset) + Q(s[..Width(s)]), EncLen(s))
    else (Q(s[..Width(s)]), cur + EncLen(s))
  }

  lemma BodyRound(charset: seq<byte>, s: seq<byte>, cur: nat, out: seq<byte>)
    requires s != []
    ensures var (w, c) := Round(charset, s, cur);
      out + Body(charset, s, cur) == (out + w) + Body(charset, s[Width(s)..], c)
  {
    hide Q, SplitWord, Width, EncLen;
  }

  // The length of the rune at s[i..] and of its encoding.
  method MeasureRune(s: seq<byte>, i: nat) returns (runeLen: nat, encLen: nat)
    requires i < |s|
    ensures runeLen == Width(s[i..]) && encLen == EncLen(s[i..]) && i + runeLen <= |s|
  {
    var b := s[i];
    runeLen, encLen := 1, 1;
    if !(32 <= b <= 126 && b != EQ && b != QM && b != UNDERSCORE) {
      runeLen := Width(s[i..]);
      encLen := 3 * runeLen;
    }
  }

  // The body of qEncode's loop.
  method EncodeRune(charset: seq<byte>, s: seq<byte>, i: nat, cur: nat) returns (out: seq<byte>, n: nat, cur1: nat)
    requires i < |s|
    ensures n == Width(s[i..]) && i + n <= |s| && (out, cur1) == Round(charset, s[i..], cur)
  {
    var encLen: nat;
    n, encLen := MeasureRune(s, i);
    hide Width, EncLen, Q, SplitWord;
    out, cur1 := [], cur;
    if cur + encLen > MAX_CONTENT {
      out, cur1 := SplitWord(charset), 0;
    }
    assert s[i..i + n] == s[i..][..n];
    var q := WriteQString(s[i..i + n]);
    assert [] + q == q;
    out := out + q;
    cur1 := cur1 + encLen;
  }

  /** qEncode for UTF-8: runes are written whole, and a word that would become too long
      is closed and a new one opened. */
  method QEncode(charset: seq<byte>, s: seq<byte>) returns (out: seq<byte>)
    ensures out == Body(charset, s, 0)
  {
    hide Body, Width, Round;
    out := [];
    var currentLen: nat := 0;
    var i: nat := 0;
    assert s[0..] == s;
    while i < |s|
      invariant i <= |s| && out + Body(charset, s[i..], currentLen) == Body(charset, s, 0)
    {
      var w, runeLen, c := EncodeRune(charset, s, i, currentLen);
      BodyRound(charset, s[i..], currentLen, out);
      DropDrop(s, i, runeLen);
      out := out + w;
      currentLen := c;
      i := i + runeLen;
    }
    BodyEmpty(charset, s[i..], currentLen);
  }

  lemma DropDrop(s: seq<byte>, i: nat, n: nat)
    requires i + n <= |s|
    ensures s[i..][n..] == s[i + n..]
  {
  }

  lemma BodyEmpty(charset: seq<byte>, s: seq<byte>, cur: nat)
    requires s == []
    ensures Body(charset, s, cur) == []
  {
  }

  // ---- Q decoding ----

  function FromHex(b: byte): int {
    if 48 <= b <= 57 then b - 48
    else if 65 <= b <= 70 then b - 55
    else if 97 <= b <= 102 then b - 87
    else -1
  }

  function ReadHexByte(a: byte, b: byte): Option<byte> {
    if FromHex(a) < 0 || FromHex(b) < 0 then None else Some(FromHex(a) * 16 + FromHex(b))
  }

  // What qDecode takes from the start of s: a byte, and how much of s it used.
  function QStep(s: seq<byte>): (r: Option<(byte, nat)>)
    requires s != []
    ensures r.Some? ==> 1 <= r.value.1 <= |s|
  {
    var c := s[0];
    if c == UNDERSCORE then Some((SPACE, 1))
    else if c == EQ then
      if |s| < 3 || ReadHexByte(s[1], s[2]).None? then None
      else Some((ReadHexByte(s[1], s[2]).value, 3))
    else if 32 <= c <= 126 || c == 10 || c == 13 || c == 9 then Some((c, 1))
    else None
  }

  function QDecode(s: seq<byte>): Option<seq<byte>> {
    if s == [] then Some([])
    else if QStep(s).None? then None
    else
      var (b, n) := QStep(s).value;
      var rest := QDecode(s[n..]);
      if rest.None? then None else Some([b] + rest.value)
  }

  // qDecode fills a buffer as long as its input and cuts it.
  method DecodeQ(s: seq<byte>) returns (r: Option<seq<byte>>)
    ensures r == QDecode(s)
  {
    var dec := new byte[|s|];
    var n: nat, i: nat := 0, 0;
    assert s[0..] == s && dec[..0] == [];
    PrependNil(QDecode(s));
    while i < |s|
      invariant n <= i <= |s| == dec.Length
      invariant QDecode(s) == Prepend(dec[..n], QDecode(s[i..]))
    {
      var rest := s[i..];
      PrependStep(dec[..n], rest);
      if QStep(rest).None? { return None; }
      hide QDecode;
      var (b, k) := QStep(rest).value;
      ghost var head := dec[..n];
      dec[n] := b;
      assert dec[..n + 1] == head + [b];
      DropDrop(s, i, k);
      n := n + 1;
      i := i + k;
    }
    r := Some(dec[..n]);
    assert s[i..] == [];
    assert dec[..n] + [] == dec[..n];
  }

  lemma PrependNil(r: Option<seq<byte>>)
    ensures Prepend([], r) == r
  {
    if r.Some? { assert [] + r.value == r.value; }
  }

  function Prepend(head: seq<byte>, rest: Option<seq<byte>>): Option<seq<byte>> {
    if rest.None? then None else Some(head + rest.value)
  }

  lemma PrependStep(head: seq<byte>, s: seq<byte>)
    requires s != []
    ensures Prepend(head, QDecode(s)) ==
      if QStep(s).None? then None
      else Prepend(head + [QStep(s).value.0], QDecode(s[QStep(s).value.1..]))
  {
    if QStep(s).Some? {
      var (b, n) := QStep(s).value;
      hide QStep;
      var rest := QDecode(s[n..]);
      if rest.Some? { Reassociate(head, [b], rest.value); }
    }
  }

  /** Q decoding undoes Q encoding on every byte string. */
  lemma {:induction false} QRoundTrip(s: seq<byte>)
    ensures QDecode(Q(s)) == Some(s)
  {
    if s != [] {
      QRoundTrip(s[1..]);
      QByteStep(s[0], Q(s[1..]));
      var e := QByte(s[0]);
      assert (e + Q(s[1..]))[|e|..] == Q(s[1..]);
      assert [s[0]] + s[1..] == s;
    }
  }

  lemma QByteStep(b: byte, rest: seq<byte>)
    ensures QStep(QByte(b) + rest) == Some((b, |QByte(b)|))
  {
    if b != SPACE && !Literal(b) {
      HexDigit(b / 16);
      HexDigit(b % 16);
    }
  }

  lemma HexDigit(n: nat)
    requires n < 16
    ensures FromHex(UpperHex(n)) == n
  {
  }

  /** Encoded text contains no question mark, so no text can close its word early. */
  lemma {:induction false} QHasNoQuestionMark(s: seq<byte>)
    ensures forall i :: 0 <= i < |Q(s)| ==> Q(s)[i] != QM
  {
    if s != [] {
      QHasNoQuestionMark(s[1..]);
      QByteHasNoQuestionMark(s[0]);
    }
  }

  lemma QByteHasNoQuestionMark(b: byte)
    ensures forall i :: 0 <= i < |QByte(b)| ==> QByte(b)[i] != QM
  {
  }

  // ---- The header decoder ----

  // Base64 and other charsets are outside this model: they are given by the caller.  The
  // charset reader fails by returning an error or a reader that fails.
  datatype Env = Env(base64: seq<byte> -> Option<seq<byte>>,
                     reader: Option<(seq<byte>, seq<byte>) -> Option<seq<byte>>>)

  function DecodeText(env: Env, encoding: byte, text: seq<byte>): Option<seq<byte>> {
    if encoding == 66 || encoding == 98 then env.base64(text)
    else if encoding == 81 || encoding == 113 then QDecode(text)
    else None
  }

  function Latin1(content: seq<byte>): seq<byte> {
    if content == [] then [] else Utf8.Encode(content[0]) + Latin1(content[1..])
  }

  function AsciiOnly(content: seq<byte>): seq<byte> {
    if content == [] then []
    else (if content[0] >= 0x80 then Utf8.Encode(RUNE_ERROR) else [content[0]]) + AsciiOnly(content[1..])
  }

  function Convert(env: Env, charset: seq<byte>, content: seq<byte>): Option<seq<byte>> {
    if IsUTF8(charset) then Some(content)
    else if EqualFold(LATIN1, charset) then Some(Latin1(content))
    else if EqualFold(ASCII, charset) then Some(AsciiOnly(content))
    else if env.reader.None? then None
    else env.reader.value(LowerCase(charset), content)
  }

  // strings.Index of the two-byte string a, b.
  function IndexPair(s: seq<byte>, a: byte, b: byte): (i: int)
    ensures -1 <= i < |s| - 1 || i == -1
    ensures i >= 0 ==> s[i] == a && s[i + 1] == b
    ensures forall j :: 0 <= j < (if i < 0 then |s| - 1 else i) ==> !(s[j] == a && s[j + 1] == b)
  {
    if |s| < 2 then -1
    else if s[0] == a && s[1] == b then 0
    else
      var i := IndexPair(s[1..], a, b);
      assert forall j :: 1 <= j < |s| ==> s[j] == s[1..][j - 1];
      if i < 0 then -1 else i + 1
  }

  predicate IsBlank(b: byte) { b == 32 || b == 9 || b == 10 || b == 13 }
  predicate HasNonWhitespace(s: seq<byte>) { exists i :: 0 <= i < |s| && !IsBlank(s[i]) }

  // The next candidate word of a header: where it starts, its parts, where it ends.
  datatype Found = Found(start: nat, charset: seq<byte>, encoding: byte, text: seq<byte>, end: nat)

  function FindWord(h: seq<byte>): (r: Option<Found>)
    ensures r.Some? ==> r.value.start + 2 <= |h| && r.value.start + 2 < r.value.end <= |h|
  {
    var start := IndexPair(h, EQ, QM);
    if start < 0 then None else Shifted(Parts(h[start + 2..]), start)
  }

  function Shifted(f: Option<Found>, i: nat): Option<Found> {
    if f.None? then None else Some(f.value.(start := f.value.start + i, end := f.value.end + i))
  }

  // The word that starts two bytes before t.
  function Parts(t: seq<byte>): (r: Option<Found>)
    ensures r.Some? ==> r.value.start == 0 && 2 < r.value.end <= 2 + |t|
  {
    var i := IndexByte(t, QM);
    if i < 0 || |t| < i + 5 || t[i + 2] != QM then None
    else
      var j := IndexPair(t[i + 3..], QM, EQ);
      if j < 0 then None else Some(Found(0, t[..i], t[i + 1], t[i + 3..i + 3 + j], i + j + 7))
  }

  // The loop of DecodeHeader from header h on; None is the error of a charset reader.
  function Words(env: Env, h: seq<byte>, between: bool): Option<seq<byte>>
    decreases |h|
  {
    var f := FindWord(h);
    if f.None? then Some(h)
    else
      var w := f.value;
      var content := DecodeText(env, w.encoding, w.text);
      if content.None? then Prepend(h[..w.start + 2], Words(env, h[w.start + 2..], false))
      else
        var before := if w.start > 0 && (!between || HasNonWhitespace(h[..w.start])) then h[..w.start] else [];
        var text := Convert(env, w.charset, content.value);
        if text.None? then None else Prepend(before + text.value, Words(env, h[w.end..], true))
  }

  // WordDecoder.DecodeHeader
  function DecodeHeader(env: Env, h: seq<byte>): Option<seq<byte>> {
    var i := IndexPair(h, EQ, QM);
    if i < 0 then Some(h) else Prepend(h[..i], Words(env, h[i..], false))
  }

  /** The loop of DecodeHeader. */
  method RunDecodeHeader(env: Env, header0: seq<byte>) returns (r: Option<seq<byte>>)
    ensures r == DecodeHeader(env, header0)
  {
    var i := IndexPair(header0, EQ, QM);
    if i < 0 { return Some(header0); }
    var buf, header := header0[..i], header0[i..];
    var between := false;
    hide FindWord, Convert, DecodeText, IndexPair;
    while true
      invariant Prepend(buf, Words(env, header, between)) == DecodeHeader(env, header0)
      decreases |header|
    {
      var f := FindWord(header);
      if f.None? { break; }
      var w := f.value;
      var content := DecodeText(env, w.encoding, w.text);
      WordsStep(env, header, between, buf);
      if content.None? {
        between := false;
        buf := buf + header[..w.start + 2];
        header := header[w.start + 2..];
        continue;
      }
      var before := if w.start > 0 && (!between || HasNonWhitespace(header[..w.start])) then header[..w.start] else [];
      var text := Convert(env, w.charset, content.value);
      if text.None? { return None; }
      buf := buf + (before + text.value);
      header := header[w.end..];
      between := true;
    }
    r := Some(buf + header);
  }

  lemma WordsStep(env: Env, h: seq<byte>, between: bool, buf: seq<byte>)
    requires FindWord(h).Some?
    ensures var w := FindWord(h).value;
      var content := DecodeText(env, w.encoding, w.text);
      Prepend(buf, Words(env, h, between)) ==
        if content.None? then Prepend(buf + h[..w.start + 2], Words(env, h[w.start + 2..], false))
        else
          var before := if w.start > 0 && (!between || HasNonWhitespace(h[..w.start])) then h[..w.start] else [];
          var text := Convert(env, w.charset, content.value);
          if text.None? then None else Prepend(buf + (before + text.value), Words(env, h[w.end..], true))
  {
    hide FindWord, Convert, DecodeText;
    PrependAll(buf);
  }

  // The words of a header whose text can be decoded: their charsets and contents.
  function Decodable(env: Env, h: seq<byte>): seq<(seq<byte>, seq<byte>)>
    decreases |h|
  {
    var f := FindWord(h);
    if f.None? then []
    else
      var w := f.value;
      var content := DecodeText(env, w.encoding, w.text);
      if content.None? then Decodable(env, h[w.start + 2..])
      else [(w.charset, content.value)] + Decodable(env, h[w.end..])
  }

  predicate Foreign(charset: seq<byte>) {
    !IsUTF8(charset) && !EqualFold(LATIN1, charset) && !EqualFold(ASCII, charset)
  }

  // A word in a charset that the decoder needs help with, and gets none.
  predicate Refused(env: Env, word: (seq<byte>, seq<byte>)) {
    Foreign(word.0) &&
    var (charset, content) := word;
    (env.reader.Some? ==>
       env.reader.value(LowerCase(charset), content).None?)
  }

  ghost predicate AnyRefused(env: Env, words: seq<(seq<byte>, seq<byte>)>) {
    exists i :: 0 <= i < |words| && Refused(env, words[i])
  }

  lemma {:induction false} WordsErr(env: Env, h: seq<byte>, between: bool)
    ensures Words(env, h, between).None? <==> AnyRefused(env, Decodable(env, h))
    decreases |h|
  {
    hide FindWord, DecodeText, Convert, Refused, HasNonWhitespace;
    var f := FindWord(h);
    if f.Some? {
      var w := f.value;
      var content := DecodeText(env, w.encoding, w.text);
      if content.None? {
        WordsErr(env, h[w.start + 2..], false);
      } else {
        var word, rest := (w.charset, content.value), Decodable(env, h[w.end..]);
        WordsErr(env, h[w.end..], true);
        RefusedNot(env, word);
        assert ([word] + rest)[0] == word && forall i :: 0 <= i < |rest| ==> ([word] + rest)[i + 1] == rest[i];
      }
    }
  }

  lemma RefusedNot(env: Env, word: (seq<byte>, seq<byte>))
    ensures Refused(env, word) <==> Convert(env, word.0, word.1).None?
  {
  }

  /**
    DecodeHeader errs if and only if some decodable word is in a foreign charset and
    there is no charset reader or it refuses the word.  The first of these is an error
    that no charset reader returned.
   */
  lemma DecodeHeaderErr(env: Env, h: seq<byte>)
    ensures DecodeHeader(env, h).None? <==> AnyRefused(env, Decodable(env, h))
  {
    hide Words, Refused, DecodeHeader;
    DecodeIsWords(env, h);
    WordsErr(env, h, false);
  }

  // What precedes the first "=?" has no part in finding the word.
  lemma FindShifted(h: seq<byte>, i: nat)
    requires IndexPair(h, EQ, QM) == i
    ensures FindWord(h) == Shifted(FindWord(h[i..]), i)
  {
    IndexPairStarts(h[i..]);
    hide IndexPair, Parts;
    assert h[i..][2..] == h[i + 2..];
  }

  lemma IndexPairStarts(t: seq<byte>)
    requires |t| >= 2 && t[0] == EQ && t[1] == QM
    ensures IndexPair(t, EQ, QM) == 0
  {
  }

  // "=?x?q?a?="
  const IN_CHARSET_X: seq<byte> := [EQ, QM, 120, QM, 113, QM, 97, QM, EQ]

  lemma FindInCharsetX()
    ensures FindWord(IN_CHARSET_X) == Some(Found(0, [120], 113, [97], 9))
  {
    FindAt([], [120], 113, [97], []);
    assert [] + (WordOf([120], 113, [97]) + []) == IN_CHARSET_X;
  }

  lemma DecodableFirst(env: Env, h: seq<byte>) returns (words: seq<(seq<byte>, seq<byte>)>)
    requires FindWord(h).Some? && DecodeText(env, FindWord(h).value.encoding, FindWord(h).value.text).Some?
    ensures words == Decodable(env, h) && words != [] && words[0].0 == FindWord(h).value.charset
  {
    words := Decodable(env, h);
  }

  /** A word in another charset is an error without any charset reader. */
  lemma ErrsWithoutReader(env: Env)
    requires env.reader.None?
    ensures DecodeHeader(env, IN_CHARSET_X).None?
  {
    hide FindWord, QDecode, DecodeHeader, Decodable;
    FindInCharsetX();
    QSpelling([97], [97]);
    var words := DecodableFirst(env, IN_CHARSET_X);
    assert Refused(env, words[0]);
    DecodeHeaderErr(env, IN_CHARSET_X);
  }

  lemma PrependAll(buf: seq<byte>)
    ensures forall a: seq<byte>, r: Option<seq<byte>> :: Prepend(buf, Prepend(a, r)) == Prepend(buf + a, r)
  {
    forall a: seq<byte>, r: Option<seq<byte>> ensures Prepend(buf, Prepend(a, r)) == Prepend(buf + a, r) {
      if r.Some? { Reassociate(buf, a, r.value); }
    }
  }

  // ---- The round trip ----

  // Encoded-words for a list of contents, separated by one space.
  function Join(charset: seq<byte>, pieces: seq<seq<byte>>): seq<byte> {
    if pieces == [] then []
    else if |pieces| == 1 then Word(charset, pieces[0])
    else Word(charset, pieces[0]) + [SPACE] + Join(charset, pieces[1..])
  }

  function Word(charset: seq<byte>, piece: seq<byte>): seq<byte> { Open(charset) + Q(piece) + CLOSE }

  // "=?charset?e?text?="
  function WordOf(charset: seq<byte>, encoding: byte, text: seq<byte>): seq<byte> {
    [EQ, QM] + charset + [QM, encoding, QM] + text + [QM, EQ]
  }

  // s cut into runes, as a range loop over the string would.
  function Runes(s: seq<byte>): seq<seq<byte>> {
    if s == [] then [] else [s[..Width(s)]] + Runes(s[Width(s)..])
  }

  // The runes of each word, when the first word already holds `open`, of content length
  // cur.
  function Group(s: seq<byte>, open: seq<seq<byte>>, cur: nat): seq<seq<seq<byte>>> {
    if s == [] then [open]
    else
      var n, e := Width(s), EncLen(s);
      if cur + e > MAX_CONTENT then [open] + Group(s[n..], [s[..n]], e)
      else Group(s[n..], open + [s[..n]], cur + e)
  }

  function FlattenAll(groups: seq<seq<seq<byte>>>): seq<seq<byte>> {
    if groups == [] then [] else [Flatten(groups[0])] + FlattenAll(groups[1..])
  }

  function Concat(groups: seq<seq<seq<byte>>>): seq<seq<byte>> {
    if groups == [] then [] else groups[0] + Concat(groups[1..])
  }

  // The contents of the words that s is encoded in.
  function Pieces(s: seq<byte>): seq<seq<byte>> { FlattenAll(Group(s, [], 0)) }

  /** No rune is split: the words hold whole runes, in order, and all of them. */
  lemma {:induction false} RunesStayWhole(s: seq<byte>, open: seq<seq<byte>>, cur: nat)
    ensures Concat(Group(s, open, cur)) == open + Runes(s)
  {
    if s == [] {
      assert Group(s, open, cur) == [open];
      assert [open][1..] == [];
    } else {
      var n, e := Width(s), EncLen(s);
      var r := s[..n];
      if cur + e > MAX_CONTENT {
        RunesStayWhole(s[n..], [r], e);
        var rest := Group(s[n..], [r], e);
        assert ([open] + rest)[1..] == rest;
      } else {
        RunesStayWhole(s[n..], open + [r], cur + e);
        assert (open + [r]) + Runes(s[n..]) == open + ([r] + Runes(s[n..]));
      }
    }
  }

  /** The encoded rune is as long as qEncode books it. */
  lemma RuneLength(s: seq<byte>)
    requires s != []
    ensures |Q(s[..Width(s)])| == EncLen(s)
  {
    var r := s[..Width(s)];
    if Width(s) == 1 {
      assert r == [s[0]] && r[1..] == [];
      QConcat([], [s[0]]);
      assert Q(r) == QByte(s[0]) + Q(r[1..]);
    } else {
      HighLength(r);
    }
  }

  lemma {:induction false} HighLength(r: seq<byte>)
    requires forall i :: 0 <= i < |r| ==> r[i] >= 0x80
    ensures |Q(r)| == 3 * |r|
  {
    if r != [] { HighLength(r[1..]); }
  }

  lemma SeqKeep(o: seq<byte>, f: seq<byte>, r: seq<byte>, b: seq<byte>, c: seq<byte>)
    ensures (o + f) + ((r + b) + c) == (o + (f + r)) + (b + c)
  {
  }

  lemma SeqSplit(o: seq<byte>, f: seq<byte>, r: seq<byte>, b: seq<byte>, c: seq<byte>, sp: seq<byte>)
    ensures (o + f) + ((((c + sp + o) + r) + b) + c) == ((o + f + c) + sp) + ((o + r) + (b + c))
  {
  }

  ghost predicate Fits(pieces: seq<seq<byte>>) {
    forall i :: 0 <= i < |pieces| ==> |Q(pieces[i])| <= MAX_CONTENT
  }

  // The words from the one that holds `open` on.
  ghost predicate Joined(charset: seq<byte>, s: seq<byte>, open: seq<seq<byte>>, cur: nat) {
    var pieces := FlattenAll(Group(s, open, cur));
    && (Open(charset) + Q(Flatten(open))) + (Body(charset, s, cur) + CLOSE) == Join(charset, pieces)
    && Fits(pieces)
  }

  lemma {:induction false} BodyIsJoin(charset: seq<byte>, s: seq<byte>, open: seq<seq<byte>>, cur: nat)
    requires |Q(Flatten(open))| == cur <= MAX_CONTENT
    ensures Joined(charset, s, open, cur)
    decreases |s|
  {
    if s == [] {
      JoinEnd(charset, s, open, cur);
    } else {
      var n, e := Width(s), EncLen(s);
      var r, f := s[..n], Flatten(open);
      RuneLength(s);
      hide Width, EncLen, Q, Joined;
      if cur + e > MAX_CONTENT {
        FlattenSnoc([], r);
        assert [] + [r] == [r] && Flatten([]) + r == r;
        BodyIsJoin(charset, s[n..], [r], e);
        JoinSplit(charset, s, open, cur);
      } else {
        FlattenSnoc(open, r);
        QConcat(f, r);
        BodyIsJoin(charset, s[n..], open + [r], cur + e);
        JoinKeep(charset, s, open, cur);
      }
    }
  }

  lemma JoinEnd(charset: seq<byte>, s: seq<byte>, open: seq<seq<byte>>, cur: nat)
    requires s == [] && |Q(Flatten(open))| == cur <= MAX_CONTENT
    ensures Joined(charset, s, open, cur)
  {
    var f := Flatten(open);
    hide Open, Q, Flatten;
    assert Group(s, open, cur) == [open] && [open][1..] == [];
    assert FlattenAll([open]) == [f] + FlattenAll([]);
    assert [f] + [] == [f];
    assert [] + CLOSE == CLOSE;
  }

  lemma JoinKeep(charset: seq<byte>, s: seq<byte>, open: seq<seq<byte>>, cur: nat)
    requires s != [] && cur + EncLen(s) <= MAX_CONTENT
    requires var r := s[..Width(s)];
      Q(Flatten(open + [r])) == Q(Flatten(open)) + Q(r)
      && Joined(charset, s[Width(s)..], open + [r], cur + EncLen(s))
    ensures Joined(charset, s, open, cur)
  {
    var n, e := Width(s), EncLen(s);
    var r := s[..n];
    hide Width, EncLen, Q, Open, Flatten, FlattenAll, Join, Fits;
    assert Group(s, open, cur) == Group(s[n..], open + [r], cur + e);
    assert Body(charset, s, cur) == Q(r) + Body(charset, s[n..], cur + e);
    hide Group, Body;
    SeqKeep(Open(charset), Q(Flatten(open)), Q(r), Body(charset, s[n..], cur + e), CLOSE);
  }

  lemma JoinSplit(charset: seq<byte>, s: seq<byte>, open: seq<seq<byte>>, cur: nat)
    requires s != [] && |Q(Flatten(open))| == cur <= MAX_CONTENT && cur + EncLen(s) > MAX_CONTENT
    requires var r := s[..Width(s)];
      Flatten([r]) == r && Joined(charset, s[Width(s)..], [r], EncLen(s))
    ensures Joined(charset, s, open, cur)
  {
    var n, e := Width(s), EncLen(s);
    var r, f := s[..n], Flatten(open);
    var rest := Group(s[n..], [r], e);
    GroupNonEmpty(s[n..], [r], e);
    hide Width, EncLen, Q, Open, Flatten;
    assert Group(s, open, cur) == [open] + rest && ([open] + rest)[1..] == rest;
    var tail := FlattenAll(rest);
    var all := FlattenAll([open] + rest);
    assert all == [f] + tail && all[1..] == tail && tail != [];
    assert Join(charset, all) == (Word(charset, f) + [SPACE]) + Join(charset, tail);
    SeqSplit(Open(charset), Q(f), Q(r), Body(charset, s[n..], e), CLOSE, [SPACE]);
    hide Join, FlattenAll, Group;
    forall i | 0 <= i < |all| ensures |Q(all[i])| <= MAX_CONTENT {
      if i > 0 { assert all[i] == tail[i - 1]; }
    }
  }

  lemma GroupNonEmpty(s: seq<byte>, open: seq<seq<byte>>, cur: nat)
    ensures Group(s, open, cur) != []
  {
  }

  lemma {:induction false} PiecesAreAll(groups: seq<seq<seq<byte>>>)
    ensures Flatten(FlattenAll(groups)) == Flatten(Concat(groups))
  {
    if groups != [] {
      PiecesAreAll(groups[1..]);
      FlattenConcat(groups[0], Concat(groups[1..]));
      var all := FlattenAll(groups);
      assert all[1..] == FlattenAll(groups[1..]);
    }
  }

  lemma {:induction false} FlattenConcat(a: seq<seq<byte>>, b: seq<seq<byte>>)
    ensures Flatten(a + b) == Flatten(a) + Flatten(b)
  {
    if a == [] {
      assert a + b == b;
    } else {
      FlattenConcat(a[1..], b);
      assert (a + b)[1..] == a[1..] + b;
      Reassociate(a[0], Flatten(a[1..]), Flatten(b));
    }
  }

  lemma {:induction false} RunesAreAll(s: seq<byte>)
    ensures Flatten(Runes(s)) == s
  {
    if s != [] {
      var n := Width(s);
      RunesAreAll(s[n..]);
      hide Width;
      assert Runes(s)[1..] == Runes(s[n..]);
      assert s[..n] + s[n..] == s;
    }
  }

  /** The encoding of s is the join of words that together hold s, in whole runes, each
      word at most 75 characters long. */
  lemma WordsOfEncoding(charset: seq<byte>, s: seq<byte>)
    requires IsUTF8(charset)
    ensures EncodeWord(charset, s) == Join(charset, Pieces(s))
    ensures Flatten(Pieces(s)) == s && Concat(Group(s, [], 0)) == Runes(s)
    ensures forall i :: 0 <= i < |Pieces(s)| ==> |Word(charset, Pieces(s)[i])| <= MAX_WORD
  {
    assert Flatten([]) == [] && Q([]) == [];
    BodyIsJoin(charset, s, [], 0);
    RunesStayWhole(s, [], 0);
    RunesAreAll(s);
    PiecesAreAll(Group(s, [], 0));
    assert [] + Runes(s) == Runes(s);
    assert Open(charset) + [] == Open(charset);
    var b := Body(charset, s, 0);
    Reassociate(Open(charset), b, CLOSE);
    assert |Open(charset)| == 10;
  }

  // A word is closed only when the next rune would not fit any more.
  ghost predicate Greedy(groups: seq<seq<seq<byte>>>) {
    |groups| > 1 ==> Overflows(groups[0], groups[1]) && Greedy(groups[1..])
  }

  predicate Overflows(word: seq<seq<byte>>, next: seq<seq<byte>>) {
    next != [] && |Q(Flatten(word))| + |Q(next[0])| > 63
  }

  lemma {:induction false} GroupsAreGreedy(s: seq<byte>, open: seq<seq<byte>>, cur: nat)
    requires |Q(Flatten(open))| == cur
    ensures
      var groups := Group(s, open, cur);
      groups != [] && open <= groups[0] && Greedy(groups)
    decreases |s|
  {
    if s != [] {
      var n, e := Width(s), EncLen(s);
      var r := s[..n];
      RuneLength(s);
      hide Width, EncLen, Q, Flatten, Greedy;
      if cur + e > MAX_CONTENT {
        FlattenSnoc([], r);
        NothingFlat();
        assert [] + [r] == [r] && [] + r == r;
        GroupsAreGreedy(s[n..], [r], e);
        var rest := Group(s[n..], [r], e);
        assert rest[0][0] == r;
        assert Overflows(open, rest[0]);
        hide Overflows;
        GreedyCons(open, rest);
      } else {
        FlattenSnoc(open, r);
        QConcat(Flatten(open), r);
        GroupsAreGreedy(s[n..], open + [r], cur + e);
      }
    }
  }

  lemma GreedyCons(word: seq<seq<byte>>, rest: seq<seq<seq<byte>>>)
    requires rest != [] && Overflows(word, rest[0]) && Greedy(rest)
    ensures Greedy([word] + rest)
  {
    hide Overflows;
    assert ([word] + rest)[1..] == rest;
  }

  /** No word is shorter than it has to be. */
  lemma WordsAreFull(s: seq<byte>)
    ensures Greedy(Group(s, [], 0))
  {
    NothingFlat();
    GroupsAreGreedy(s, [], 0);
  }

  // The first occurrence is determined by being one, with none before.
  lemma IndexByteIs(s: seq<byte>, c: byte, i: nat)
    requires i < |s| && s[i] == c && forall j :: 0 <= j < i ==> s[j] != c
    ensures IndexByte(s, c) == i
  {
  }

  lemma IndexPairIs(s: seq<byte>, a: byte, b: byte, i: nat)
    requires i + 1 < |s| && s[i] == a && s[i + 1] == b && forall j :: 0 <= j < i ==> s[j] != a
    ensures IndexPair(s, a, b) == i
  {
  }

  lemma CharsetPlain(charset: seq<byte>)
    requires IsUTF8(charset)
    ensures |charset| == 5 && forall i :: 0 <= i < |charset| ==> charset[i] != QM
  {
    assert forall i :: 0 <= i < 5 ==> Lower(charset[i]) == Lower(UTF_8[i]);
  }

  /** The decoder finds a word wherever it stands, with its parts: nothing but its own
      delimiters can be taken for them. */
  lemma FindAt(gap: seq<byte>, charset: seq<byte>, encoding: byte, text: seq<byte>, rest: seq<byte>)
    requires EQ !in gap && QM !in charset && QM !in text
    ensures
      var word := WordOf(charset, encoding, text);
      FindWord(gap + (word + rest)) == Some(Found(|gap|, charset, encoding, text, |gap| + |word|))
  {
    hide IndexPair, IndexByte, Parts, WordOf, FindWord;
    var h := gap + (WordOf(charset, encoding, text) + rest);
    WordStands(gap, charset, encoding, text, rest);
    FindParts(charset, encoding, text, rest);
    IndexPairIs(h, EQ, QM, |gap|);
    FoundFrom(h, |gap|);
  }

  lemma FoundFrom(h: seq<byte>, start: nat)
    requires start + 2 <= |h| && IndexPair(h, EQ, QM) == start
    ensures FindWord(h) == Shifted(Parts(h[start + 2..]), start)
  {
    hide IndexPair, Parts;
  }

  lemma WordStands(gap: seq<byte>, charset: seq<byte>, encoding: byte, text: seq<byte>, rest: seq<byte>)
    requires EQ !in gap
    ensures
      var word := WordOf(charset, encoding, text);
      var h := gap + (word + rest);
      && |word| == |charset| + |text| + 7 && |gap| + 2 <= |h| && h[|gap|] == EQ && h[|gap| + 1] == QM
      && (forall j :: 0 <= j < |gap| ==> h[j] != EQ)
      && h[|gap| + 2..] == charset + ([QM, encoding, QM] + (text + ([QM, EQ] + rest)))
      && h[..|gap|] == gap && h[|gap| + |word|..] == rest
  {
    var word := WordOf(charset, encoding, text);
    var t := charset + ([QM, encoding, QM] + (text + ([QM, EQ] + rest)));
    assert word + rest == [EQ, QM] + t;
    DropJoin(gap, word + rest, 2);
    DropJoin(gap, word + rest, |word|);
  }

  lemma DropJoin(a: seq<byte>, b: seq<byte>, k: nat)
    requires k <= |b|
    ensures (a + b)[|a| + k..] == b[k..] && (a + b)[..|a|] == a
  {
  }

  lemma FindParts(charset: seq<byte>, encoding: byte, text: seq<byte>, rest: seq<byte>)
    requires QM !in charset && QM !in text
    ensures
      var t := charset + ([QM, encoding, QM] + (text + ([QM, EQ] + rest)));
      Parts(t) == Some(Found(0, charset, encoding, text, |charset| + |text| + 7))
  {
    var after := text + ([QM, EQ] + rest);
    var t := charset + ([QM, encoding, QM] + after);
    var n := |charset|;
    hide IndexPair, IndexByte;
    assert t[n] == QM && t[n + 1] == encoding && t[n + 2] == QM;
    IndexByteIs(t, QM, n);
    assert t[..n] == charset && t[n + 3..] == after;
    assert after[|text|] == QM && after[|text| + 1] == EQ;
    IndexPairIs(after, QM, EQ, |text|);
    assert t[n + 3..n + 3 + |text|] == text;
  }

  lemma DecodeFirst(env: Env, h: seq<byte>, w: Found, content: seq<byte>, out: seq<byte>, between: bool)
    requires w.start + 2 < w.end <= |h| && FindWord(h) == Some(w)
    requires DecodeText(env, w.encoding, w.text) == Some(content) && Convert(env, w.charset, content) == Some(out)
    ensures
      var gap := if w.start > 0 && (!between || HasNonWhitespace(h[..w.start])) then h[..w.start] else [];
      Words(env, h, between) == Prepend(gap + out, Words(env, h[w.end..], true))
  {
    hide FindWord, HasNonWhitespace, DecodeText, Convert;
  }

  lemma DecodeOne(env: Env, charset: seq<byte>, lead: seq<byte>, p: seq<byte>, rest: seq<byte>, between: bool)
    requires IsUTF8(charset) && lead == (if between then [SPACE] else [])
    ensures Words(env, lead + (Word(charset, p) + rest), between) == Prepend(p, Words(env, rest, true))
  {
    CharsetPlain(charset);
    QHasNoQuestionMark(p);
    QRoundTrip(p);
    hide Q, IsUTF8, FindWord, Words, QDecode;
    assert Word(charset, p) == WordOf(charset, 113, Q(p));
    hide WordOf;
    DecodeAfter(env, lead, charset, 113, Q(p), p, p, rest, between);
    assert [] + p == p;
  }

  // Text between two words is kept if it is more than white space.
  predicate Kept(gap: seq<byte>, between: bool) {
    between ==> exists i :: 0 <= i < |gap| && gap[i] != 32 && gap[i] != 9 && gap[i] != 10 && gap[i] != 13
  }

  // One word after some text.
  lemma DecodeAfter(env: Env, gap: seq<byte>, charset: seq<byte>, encoding: byte, text: seq<byte>,
                    content: seq<byte>, out: seq<byte>, rest: seq<byte>, between: bool)
    requires EQ !in gap && QM !in charset && QM !in text
    requires DecodeText(env, encoding, text) == Some(content) && Convert(env, charset, content) == Some(out)
    ensures
      var kept := if Kept(gap, between) then gap else [];
      Words(env, gap + (WordOf(charset, encoding, text) + rest), between) == Prepend(kept + out, Words(env, rest, true))
  {
    hide FindWord, Words, DecodeText, Convert, WordOf, Kept, HasNonWhitespace;
    var w := WordOf(charset, encoding, text);
    var h := gap + (w + rest);
    FindAt(gap, charset, encoding, text, rest);
    WordStands(gap, charset, encoding, text, rest);
    DecodeFirst(env, h, Found(|gap|, charset, encoding, text, |gap| + |w|), content, out, between);
    KeptOrBlank(gap, between);
  }

  lemma KeptOrBlank(gap: seq<byte>, between: bool)
    ensures gap != [] ==> (Kept(gap, between) <==> !between || HasNonWhitespace(gap))
  {
  }

  /** Decoding a join of encoded-words gives the concatenated contents: the spaces
      between them disappear. */
  lemma {:induction false} DecodeJoin(env: Env, charset: seq<byte>, pieces: seq<seq<byte>>, between: bool)
    requires IsUTF8(charset) && pieces != []
    ensures var lead := if between then [SPACE] else [];
      Words(env, lead + Join(charset, pieces), between) == Some(Flatten(pieces))
    decreases |pieces|
  {
    hide Word, IsUTF8, Words;
    var lead: seq<byte> := if between then [SPACE] else [];
    var rest: seq<byte> := if |pieces| == 1 then [] else [SPACE] + Join(charset, pieces[1..]);
    DecodeOne(env, charset, lead, pieces[0], rest, between);
    if |pieces| == 1 {
      DecodeNothing(env);
      assert Word(charset, pieces[0]) + rest == Join(charset, pieces);
      assert pieces[1..] == [];
    } else {
      DecodeJoin(env, charset, pieces[1..], true);
      Reassociate(Word(charset, pieces[0]), [SPACE], Join(charset, pieces[1..]));
    }
  }

  lemma DecodeNothing(env: Env)
    ensures Words(env, [], true) == Some([])
  {
  }

  // ---- What a header means ----

  // text spells content in the Q encoding, in any of the ways section 4.2 of RFC 2047 and
  // the decoder allow: an underscore for a space, a character for itself, or "=" and two
  // hexadecimal digits.
  ghost predicate QSpells(text: seq<byte>, content: seq<byte>) {
    if content == [] || text == [] then content == text
    else
      var c, b := text[0], content[0];
      || (c == 95 && b == 32 && QSpells(text[1..], content[1..]))
      || (c == b && c != 61 && c != 95 && (32 <= c <= 126 || c == 9 || c == 10 || c == 13)
          && QSpells(text[1..], content[1..]))
      || (c == 61 && |text| >= 3 && HexOf(text[1], b / 16) && HexOf(text[2], b % 16)
          && QSpells(text[3..], content[1..]))
  }

  /** qDecode accepts exactly the spellings, and returns what they spell. */
  lemma {:induction false} QSpelling(text: seq<byte>, content: seq<byte>)
    ensures QDecode(text) == Some(content) <==> QSpells(text, content)
    decreases |text|
  {
    if text != [] {
      if content != [] {
        SpellStep(text, content);
      }
      hide QStep;
      if QStep(text).Some? {
        var (b, n) := QStep(text).value;
        var rest := QDecode(text[n..]);
        if content != [] {
          QSpelling(text[n..], content[1..]);
          assert content == [content[0]] + content[1..];
        }
        assert rest.Some? ==> ([b] + rest.value)[1..] == rest.value;
      }
    }
  }

  // What a step of the decoder takes is the only thing its bytes can spell.
  lemma SpellStep(text: seq<byte>, content: seq<byte>)
    requires text != []
    requires content != []
    ensures QStep(text).None? ==> !QSpells(text, content)
    ensures QStep(text).Some? ==>
      (QSpells(text, content) <==>
       content[0] == QStep(text).value.0 && QSpells(text[QStep(text).value.1..], content[1..]))
  {
    if text[0] == 61 && |text| >= 3 {
      HexValue(text[1]);
      HexValue(text[2]);
    }
  }

  lemma HexValue(c: byte)
    ensures -1 <= FromHex(c) < 16
    ensures forall v: nat :: v < 16 ==> (HexOf(c, v) <==> FromHex(c) == v)
  {
  }
  // What stands for each byte, one after the other.
  function Spread(content: seq<byte>, image: byte -> seq<byte>): seq<byte> {
    if content == [] then [] else image(content[0]) + Spread(content[1..], image)
  }

  // The UTF-8 form of an ISO-8859-1 character, and of a US-ASCII one, for which anything
  // else is replaced by U+FFFD.
  function OfLatin1(b: byte): seq<byte> { if b < 0x80 then [b] else [0xC0 + b / 64, 0x80 + b % 64] }
  function OfAscii(b: byte): seq<byte> { if b < 0x80 then [b] else [0xEF, 0xBF, 0xBD] }

  lemma {:induction false} Latin1Is(content: seq<byte>)
    ensures Latin1(content) == Spread(content, OfLatin1)
  {
    if content != [] { Latin1Is(content[1..]); }
  }

  lemma {:induction false} AsciiIs(content: seq<byte>)
    ensures AsciiOnly(content) == Spread(content, OfAscii)
  {
    if content != [] { AsciiIs(content[1..]); }
  }

  // text and upper are the same up to the case of ASCII letters, which upper has none of
  // in lower case.
  predicate Names(text: seq<byte>, name: string) {
    |text| == |name| && forall i :: 0 <= i < |name| ==>
      text[i] == name[i] as int || ('A' <= name[i] <= 'Z' && text[i] == name[i] as int + 32)
  }

  // A piece of a header: some text, then an encoded-word with its parts, its content and
  // the content in UTF-8.
  datatype Token = Token(gap: seq<byte>, charset: seq<byte>, encoding: byte, text: seq<byte>, content: seq<byte>, out: seq<byte>)
  {
    function Spelled(): seq<byte> { gap + WordOf(charset, encoding, text) }
  }

  // The content is what the text encodes, in Q or base64, and out is that content
  // converted from its charset.
  ghost predicate Sound(env: Env, t: Token) {
    && 61 !in t.gap && 63 !in t.charset && 63 !in t.text
    && (if t.encoding == 'Q' as int || t.encoding == 'q' as int then QSpells(t.text, t.content)
        else (t.encoding == 'B' as int || t.encoding == 'b' as int) && env.base64(t.text) == Some(t.content))
    && (if Names(t.charset, "UTF-8") then t.out == t.content
        else if Names(t.charset, "ISO-8859-1") then t.out == Spread(t.content, OfLatin1)
        else if Names(t.charset, "US-ASCII") then t.out == Spread(t.content, OfAscii)
        else env.reader.Some? && env.reader.value(LowerCase(t.charset), t.content) == Some(t.out))
  }

  function LowerCase(s: seq<byte>): seq<byte> { seq(|s|, i requires 0 <= i < |s| => Lower(s[i])) }

  lemma NamesFold(text: seq<byte>)
    ensures Names(text, "UTF-8") <==> IsUTF8(text)
    ensures Names(text, "ISO-8859-1") <==> EqualFold(LATIN1, text)
    ensures Names(text, "US-ASCII") <==> EqualFold(ASCII, text)
  {
  }

  lemma SoundDecodes(env: Env, t: Token)
    requires Sound(env, t)
    ensures DecodeText(env, t.encoding, t.text) == Some(t.content) && Convert(env, t.charset, t.content) == Some(t.out)
  {
    hide IsUTF8, EqualFold, Names, QDecode, QSpells;
    NamesFold(t.charset);
    QSpelling(t.text, t.content);
    Latin1Is(t.content);
    AsciiIs(t.content);
  }

  function SpellAll(tokens: seq<Token>): seq<byte> {
    if tokens == [] then [] else tokens[0].Spelled() + SpellAll(tokens[1..])
  }

  // What the header says: the words' contents, and the text around them, but not the white
  // space between two words.
  function Meaning(tokens: seq<Token>, between: bool): seq<byte> {
    if tokens == [] then []
    else (if Kept(tokens[0].gap, between) then tokens[0].gap else []) + tokens[0].out + Meaning(tokens[1..], true)
  }

  lemma {:induction false} WordsMean(env: Env, tokens: seq<Token>, tail: seq<byte>, between: bool)
    requires 61 !in tail && forall i :: 0 <= i < |tokens| ==> Sound(env, tokens[i])
    ensures Words(env, SpellAll(tokens) + tail, between) == Some(Meaning(tokens, between) + tail)
    decreases |tokens|
  {
    if tokens == [] {
      assert [] + tail == tail;
      NoWord(tail);
    } else {
      var t, more := tokens[0], tokens[1..];
      var word, rest := WordOf(t.charset, t.encoding, t.text), SpellAll(more) + tail;
      assert forall i :: 0 <= i < |more| ==> more[i] == tokens[i + 1];
      WordsMean(env, more, tail, true);
      hide Words, WordOf, Kept, Sound;
      SoundPlain(env, t);
      SoundDecodes(env, t);
      DecodeAfter(env, t.gap, t.charset, t.encoding, t.text, t.content, t.out, rest, between);
      Nest(t.gap, word, SpellAll(more), tail);
      var kept := if Kept(t.gap, between) then t.gap else [];
      Reassociate(kept + t.out, Meaning(more, true), tail);
    }
  }

  lemma SoundPlain(env: Env, t: Token)
    requires Sound(env, t)
    ensures EQ !in t.gap && QM !in t.charset && QM !in t.text
  {
  }

  lemma Nest(a: seq<byte>, b: seq<byte>, c: seq<byte>, d: seq<byte>)
    ensures ((a + b) + c) + d == a + (b + (c + d))
  {
  }

  lemma NoWord(h: seq<byte>)
    requires EQ !in h
    ensures IndexPair(h, EQ, QM) < 0 && FindWord(h).None?
  {
  }

  /**
    What a header means, for any sequence of encoded-words with text around them: contents
    in the order of the words, converted from their charsets, and all the text but white
    space between two words.
   */
  lemma HeaderMeans(env: Env, tokens: seq<Token>, tail: seq<byte>)
    requires 61 !in tail && forall i :: 0 <= i < |tokens| ==> Sound(env, tokens[i])
    ensures DecodeHeader(env, SpellAll(tokens) + tail) == Some(Meaning(tokens, false) + tail)
  {
    hide Words, Sound, DecodeHeader;
    WordsMean(env, tokens, tail, false);
    DecodeIsWords(env, SpellAll(tokens) + tail);
  }

  // The shortcut of DecodeHeader, which copies what precedes the first "=?" before its
  // loop, makes no difference.
  lemma DecodeIsWords(env: Env, h: seq<byte>)
    ensures DecodeHeader(env, h) == Words(env, h, false)
  {
    var i := IndexPair(h, EQ, QM);
    if i < 0 {
      assert FindWord(h).None?;
    } else {
      FindShifted(h, i);
      FindsAtStart(h[i..]);
      hide FindWord, IndexPair;
      var f := FindWord(h[i..]);
      if f.Some? {
        hide Words;
        WordsShifted(env, h, i, f.value);
      } else {
        assert h[..i] + h[i..] == h;
      }
    }
  }

  lemma FindsAtStart(t: seq<byte>)
    requires |t| >= 2 && t[0] == EQ && t[1] == QM
    ensures FindWord(t).Some? ==> FindWord(t).value.start == 0
  {
    IndexPairStarts(t);
    hide IndexPair;
  }

  lemma WordsShifted(env: Env, h: seq<byte>, i: nat, f: Found)
    requires i <= |h| && f.start == 0 && FindWord(h[i..]) == Some(f) && FindWord(h) == Shifted(Some(f), i)
    ensures Words(env, h, false) == Prepend(h[..i], Words(env, h[i..], false))
  {
    hide FindWord, DecodeText, Convert, HasNonWhitespace, Words;
    var t, g := h[i..], f.(start := i, end := f.end + i);
    var content := DecodeText(env, f.encoding, f.text);
    if content.None? {
      SkipShifted(env, h, i, f, g);
    } else if Convert(env, f.charset, content.value).None? {
      WordsFail(env, h, false, g);
      WordsFail(env, t, false, f);
    } else {
      TakeShifted(env, h, i, f, g, content.value, Convert(env, f.charset, content.value).value);
    }
  }

  lemma SkipShifted(env: Env, h: seq<byte>, i: nat, f: Found, g: Found)
    requires i <= |h| && f.start == 0 && FindWord(h[i..]) == Some(f) && g == f.(start := i, end := f.end + i)
    requires FindWord(h) == Some(g) && DecodeText(env, f.encoding, f.text).None?
    ensures Words(env, h, false) == Prepend(h[..i], Words(env, h[i..], false))
  {
    hide FindWord, DecodeText, Words;
    var t := h[i..];
    WordsSkip(env, h, false, g);
    WordsSkip(env, t, false, f);
    SliceOfDrop(h, i, 2, 2);
    assert h[..i + 2] == h[..i] + t[..2];
    PrependBoth(h[..i], t[..2], Words(env, t[2..], false));
  }

  lemma TakeShifted(env: Env, h: seq<byte>, i: nat, f: Found, g: Found, content: seq<byte>, out: seq<byte>)
    requires i <= |h| && f.start == 0 && FindWord(h[i..]) == Some(f) && g == f.(start := i, end := f.end + i)
    requires FindWord(h) == Some(g)
    requires DecodeText(env, f.encoding, f.text) == Some(content) && Convert(env, f.charset, content) == Some(out)
    ensures Words(env, h, false) == Prepend(h[..i], Words(env, h[i..], false))
  {
    hide FindWord, DecodeText, Convert, HasNonWhitespace, Words;
    var t := h[i..];
    DecodeFirst(env, h, g, content, out, false);
    DecodeFirst(env, t, f, content, out, false);
    SliceOfDrop(h, i, f.end, f.end);
    assert [] + out == out;
    if i == 0 {
      assert h[..i] == [];
    }
    PrependBoth(h[..i], out, Words(env, t[f.end..], true));
  }

  lemma WordsSkip(env: Env, h: seq<byte>, between: bool, w: Found)
    requires FindWord(h) == Some(w) && DecodeText(env, w.encoding, w.text).None? && w.start + 2 <= |h|
    ensures Words(env, h, between) == Prepend(h[..w.start + 2], Words(env, h[w.start + 2..], false))
  {
  }

  lemma WordsFail(env: Env, h: seq<byte>, between: bool, w: Found)
    requires FindWord(h) == Some(w) && DecodeText(env, w.encoding, w.text).Some?
    requires Convert(env, w.charset, DecodeText(env, w.encoding, w.text).value).None?
    ensures Words(env, h, between).None?
  {
  }

  lemma PrependBoth(a: seq<byte>, b: seq<byte>, r: Option<seq<byte>>)
    ensures Prepend(a, Prepend(b, r)) == Prepend(a + b, r)
  {
    if r.Some? { Reassociate(a, b, r.value); }
  }

  lemma SliceOfDrop(h: seq<byte>, i: nat, lo: nat, hi: nat)
    requires i + lo <= |h| && i + hi <= |h|
    ensures h[i..][lo..] == h[i + lo..] && h[i..][hi..] == h[i + hi..]
  {
  }

  lemma PiecesNonEmpty(s: seq<byte>)
    ensures Pieces(s) != []
  {
    GroupNonEmpty(s, [], 0);
  }

  /** DecodeHeader undoes the Q encoding of every string that needs encoding, whatever
      its bytes, without error. */
  lemma RoundTrip(env: Env, charset: seq<byte>, s: seq<byte>)
    requires IsUTF8(charset) && NeedsEncoding(s)
    ensures DecodeHeader(env, Encode(charset, s)) == Some(s)
  {
    hide EncodeWord, DecodeHeader, Words, Pieces, Join, IsUTF8, Flatten, Group, Concat, Runes, Word, NeedsEncoding;
    WordsOfEncoding(charset, s);
    PiecesNonEmpty(s);
    DecodeJoin(env, charset, Pieces(s), false);
    assert [] + EncodeWord(charset, s) == EncodeWord(charset, s);
    DecodeIsWords(env, EncodeWord(charset, s));
  }

  /** In any other charset the encoding is one word, and the decoder gives its content
      back in UTF-8. */
  lemma RoundTripElsewhere(env: Env, charset: seq<byte>, s: seq<byte>, out: seq<byte>)
    requires !IsUTF8(charset) && 63 !in charset && NeedsEncoding(s) && Convert(env, charset, s) == Some(out)
    ensures DecodeHeader(env, Encode(charset, s)) == Some(out)
  {
    hide DecodeHeader, IsUTF8, Words, NeedsEncoding, Convert;
    var h := Encode(charset, s);
    QHasNoQuestionMark(s);
    QRoundTrip(s);
    hide Q, QDecode;
    assert h == [] + (WordOf(charset, 113, Q(s)) + []);
    hide WordOf;
    DecodeAfter(env, [], charset, 113, Q(s), s, out, [], false);
    DecodeNothing(env);
    assert ([] + out) + [] == out;
    DecodeIsWords(env, h);
  }

  // ---- What the encoder writes ----

  /** A byte in the Q encoding; QConcat puts them together. */
  lemma QOfByte(b: byte)
    ensures b == 32 ==> Q([b]) == [95]
    ensures 33 <= b <= 126 && b != 61 && b != 63 && b != 95 ==> Q([b]) == [b]
    ensures b < 32 || b > 126 || b == 61 || b == 63 || b == 95 ==>
      Q([b]) == [61, "0123456789ABCDEF"[b / 16] as int, "0123456789ABCDEF"[b % 16] as int]
  {
    assert [b][1..] == [];
  }

  // A printable character, a space or a tab.
  predicate Printable(b: byte) { 32 <= b <= 126 || b == 9 }

  ghost predicate AllPrintable(s: seq<byte>) { forall i :: 0 <= i < |s| ==> Printable(s[i]) }

  /** Text of printable characters and tabs is left alone, and any other is encoded; what
      comes out is always printable. */
  lemma EncodePrintable(charset: seq<byte>, s: seq<byte>)
    requires AllPrintable(charset)
    ensures AllPrintable(s) ==> Encode(charset, s) == s
    ensures !AllPrintable(s) ==> [61, 63] <= Encode(charset, s) && [63, 61] == Encode(charset, s)[|Encode(charset, s)| - 2..]
    ensures AllPrintable(Encode(charset, s))
  {
    if !AllPrintable(s) {
      assert NeedsEncoding(s);
      hide NeedsEncoding, AllPrintable, Body, Q;
      QPrintable(s);
      BodyPrintable(charset, s, 0);
      var b := if IsUTF8(charset) then Body(charset, s, 0) else Q(s);
      BracketPrintable(charset, b);
    }
  }

  lemma BracketPrintable(charset: seq<byte>, b: seq<byte>)
    requires AllPrintable(charset) && AllPrintable(b)
    ensures var h := Open(charset) + b + CLOSE; AllPrintable(h) && [61, 63] <= h && [63, 61] == h[|h| - 2..]
  {
  }

  lemma JoinPrintable(a: seq<byte>, b: seq<byte>)
    requires AllPrintable(a) && AllPrintable(b)
    ensures AllPrintable(a + b)
  {
  }

  lemma {:induction false} QPrintable(s: seq<byte>)
    ensures AllPrintable(Q(s))
  {
    if s != [] {
      QPrintable(s[1..]);
      QUnfold(s);
      assert AllPrintable(QByte(s[0]));
      hide Q, QByte, AllPrintable;
      JoinPrintable(QByte(s[0]), Q(s[1..]));
    }
  }

  lemma {:induction false} BodyPrintable(charset: seq<byte>, s: seq<byte>, cur: nat)
    requires AllPrintable(charset)
    ensures AllPrintable(Body(charset, s, cur))
    decreases |s|
  {
    hide Q, Width, EncLen, AllPrintable, SplitWord;
    if s == [] {
      NothingPrintable();
    } else {
      var n, e := Width(s), EncLen(s);
      QPrintable(s[..n]);
      BodyPrintable(charset, s[n..], e);
      BodyPrintable(charset, s[n..], cur + e);
      SplitPrintable(charset);
      JoinPrintable(SplitWord(charset), Q(s[..n]));
      JoinPrintable(SplitWord(charset) + Q(s[..n]), Body(charset, s[n..], e));
      JoinPrintable(Q(s[..n]), Body(charset, s[n..], cur + e));
    }
  }

  lemma NothingPrintable()
    ensures AllPrintable([])
  {
  }

  lemma SplitPrintable(charset: seq<byte>)
    requires AllPrintable(charset)
    ensures AllPrintable(SplitWord(charset))
  {
  }

  // ---- What is not decoded ----

  /** A header without a word that can be decoded is returned as it is. */
  lemma NothingToDecode(env: Env, h: seq<byte>)
    requires Decodable(env, h) == []
    ensures DecodeHeader(env, h) == Some(h)
  {
    WordsUnchanged(env, h, false);
    DecodeIsWords(env, h);
  }

  lemma {:induction false} WordsUnchanged(env: Env, h: seq<byte>, between: bool)
    requires Decodable(env, h) == []
    ensures Words(env, h, between) == Some(h)
    decreases |h|
  {
    hide FindWord, DecodeText, Convert, HasNonWhitespace;
    var f := FindWord(h);
    if f.Some? {
      var k := f.value.start + 2;
      assert DecodeText(env, f.value.encoding, f.value.text).None?;
      WordsUnchanged(env, h[k..], false);
      assert h[..k] + h[k..] == h;
    }
  }

  /** A word whose encoding is none of B, b, Q and q, or whose text is not in its encoding,
      stays as it is. */
  lemma BadWordStays(env: Env, gap: seq<byte>, charset: seq<byte>, encoding: byte, text: seq<byte>, tail: seq<byte>)
    requires 61 !in gap && 61 !in charset && 63 !in charset && encoding != 61 && 61 !in text && 63 !in text
    requires 61 !in tail && (tail != [] ==> tail[0] != 63)
    requires encoding == 'Q' as int || encoding == 'q' as int ==> forall content :: !QSpells(text, content)
    requires encoding == 'B' as int || encoding == 'b' as int ==> env.base64(text).None?
    ensures DecodeHeader(env, gap + (WordOf(charset, encoding, text) + tail)) == Some(gap + (WordOf(charset, encoding, text) + tail))
  {
    hide FindWord, WordOf, DecodeText, QSpells, DecodeHeader;
    FindAt(gap, charset, encoding, text, tail);
    WordStands(gap, charset, encoding, text, tail);
    NotDecoded(env, encoding, text);
    OnlyLastEquals(charset, encoding, text, tail);
    NothingToDecode(env, gap + (WordOf(charset, encoding, text) + tail));
  }

  lemma NotDecoded(env: Env, encoding: byte, text: seq<byte>)
    requires encoding == 'Q' as int || encoding == 'q' as int ==> forall content :: !QSpells(text, content)
    requires encoding == 'B' as int || encoding == 'b' as int ==> env.base64(text).None?
    ensures DecodeText(env, encoding, text).None?
  {
    hide QSpells, QDecode;
    if QDecode(text).Some? {
      QSpelling(text, QDecode(text).value);
    }
  }

  lemma OnlyLastEquals(charset: seq<byte>, encoding: byte, text: seq<byte>, tail: seq<byte>)
    requires 61 !in charset && encoding != 61 && 61 !in text && 61 !in tail && (tail != [] ==> tail[0] != 63)
    ensures FindWord(charset + ([QM, encoding, QM] + (text + ([QM, EQ] + tail)))).None?
  {
    var t := charset + ([QM, encoding, QM] + (text + ([QM, EQ] + tail)));
    var n := |charset| + |text| + 4;
    assert t[n] == EQ && t[n + 1..] == tail;
    assert forall j :: 0 <= j < |t| && t[j] == EQ ==> j == n;
    if n + 1 < |t| {
      assert t[n + 1] == tail[0];
    }
  }
}
