/**
  Lines: what a stream of bytes means to bufio.Scanner.
 */
module Lines {
  import opened Bytes

  function DropCR(s: seq<byte>): seq<byte> {
    if |s| > 0 && s[|s| - 1] == CR then s[..|s| - 1] else s
  }

  // bufio.ScanLines: how far to advance, and the token if there is one.
  function ScanLines(data: seq<byte>, atEOF: bool): (int, Option<seq<byte>>) {
    if atEOF && |data| == 0 then (0, None)
    else
      var i := IndexByte(data, LF);
      if i >= 0 then (i + 1, Some(DropCR(data[..i])))
      else if atEOF then (|data|, Some(DropCR(data)))
      else (0, None)
  }

  // ---- The reference: raw lines, byte by byte ----

  // Each raw line keeps its terminator; only the last may lack one.
  function Raw(p: seq<byte>): seq<seq<byte>> {
    if p == [] then []
    else
      var rest := Raw(p[1..]);
      if p[0] == LF || rest == [] then [[p[0]]] + rest else [[p[0]] + rest[0]] + rest[1..]
  }

  // A raw line without its end-of-line marker: one optional CR, one optional LF.
  function Strip(l: seq<byte>): seq<byte> {
    DropCR(if |l| > 0 && l[|l| - 1] == LF then l[..|l| - 1] else l)
  }

  function StripAll(ls: seq<seq<byte>>): seq<seq<byte>> {
    if ls == [] then [] else [Strip(ls[0])] + StripAll(ls[1..])
  }

  function LinesOf(p: seq<byte>): seq<seq<byte>> { StripAll(Raw(p)) }

  // The length of the first raw line.
  function FirstEnd(p: seq<byte>): (n: nat)
    ensures n <= |p| && (p != [] ==> n > 0)
  {
    var i := IndexByte(p, LF);
    if i >= 0 then i + 1 else |p|
  }

  lemma FirstEndStep(p: seq<byte>)
    requires p != []
    ensures FirstEnd(p) == if p[0] == LF || |p| == 1 then 1 else 1 + FirstEnd(p[1..])
    ensures LF !in p[..FirstEnd(p) - 1]
    ensures FirstEnd(p) < |p| ==> p[FirstEnd(p) - 1] == LF
  {
  }

  /** The first raw line ends at the first newline. */
  lemma {:induction false} RawHead(p: seq<byte>)
    requires p != []
    ensures Raw(p) == [p[..FirstEnd(p)]] + Raw(p[FirstEnd(p)..])
  {
    hide FirstEnd;
    FirstEndStep(p);
    var q, n := p[1..], FirstEnd(p);
    if p[0] == LF || q == [] {
      assert p[..1] == [p[0]];
      assert Raw(q) == [] || p[0] == LF;
    } else {
      RawHead(q);
      var head, rest := q[..n - 1], Raw(q[n - 1..]);
      assert Raw(p) == [[p[0]] + Raw(q)[0]] + Raw(q)[1..];
      assert Raw(q)[1..] == rest;
      assert q[n - 1..] == p[n..];
      assert [p[0]] + head == p[..n];
    }
  }

  // A raw line holds at most one newline, at its end.
  predicate RawLine(l: seq<byte>) { l != [] && LF !in l[..|l| - 1] }

  predicate Ended(l: seq<byte>) { l != [] && l[|l| - 1] == LF }

  /** The raw lines are the input, cut exactly after each newline. */
  lemma {:induction false} RawIsCut(p: seq<byte>)
    ensures Flatten(Raw(p)) == p
    ensures forall i :: 0 <= i < |Raw(p)| ==> RawLine(Raw(p)[i])
    ensures forall i :: 0 <= i < |Raw(p)| - 1 ==> Ended(Raw(p)[i])
    decreases |p|
  {
    if p != [] {
      var n := FirstEnd(p);
      RawHead(p);
      FirstEndStep(p);
      RawIsCut(p[n..]);
      hide Raw, FirstEnd, RawLine;
      var head, rest := p[..n], Raw(p[n..]);
      assert p == head + p[n..];
      assert RawLine(head) by { HeadIsRaw(p, n); }
      assert head[|head| - 1] == p[n - 1];
      assert Raw(p)[1..] == rest;
      if rest != [] { assert p[n..] != [] by { RawOfNothing(p[n..]); } }
    }
  }

  lemma HeadIsRaw(p: seq<byte>, n: nat)
    requires 0 < n <= |p| && LF !in p[..n - 1]
    ensures RawLine(p[..n])
  {
    assert p[..n][..n - 1] == p[..n - 1];
  }

  lemma RawOfNothing(p: seq<byte>)
    ensures p == [] ==> Raw(p) == []
  {
  }

  /** What ScanLines finds in all of the remaining input is its first line. */
  lemma ScanLinesIsFirst(p: seq<byte>)
    requires p != []
    ensures var (adv, token) := ScanLines(p, true);
      && adv == FirstEnd(p) && token.Some?
      && LinesOf(p) == [token.value] + LinesOf(p[adv..])
  {
    RawHead(p);
    var n := FirstEnd(p);
    var i := IndexByte(p, LF);
    assert StripAll(Raw(p)) == [Strip(p[..n])] + StripAll(Raw(p[n..])) by {
      assert Raw(p)[1..] == Raw(p[n..]);
    }
    if i >= 0 { assert p[..n][..n - 1] == p[..i]; } else { assert p[..n] == p; }
  }

  /** A token found in a prefix of the input, or at its end, is the token of the whole. */
  lemma ScanLinesIsStable(data: seq<byte>, rest: seq<byte>, atEOF: bool)
    requires atEOF ==> rest == []
    ensures var (adv, token) := ScanLines(data, atEOF);
      && 0 <= adv <= |data|
      && (token.Some? ==> data != [] && adv > 0 && ScanLines(data + rest, true) == (adv, token))
      && (token.None? ==> adv == 0 && (atEOF ==> data == []))
  {
    var (adv, token) := ScanLines(data, atEOF);
    if rest == [] { assert data + rest == data; }
    var i := IndexByte(data, LF);
    if i >= 0 {
      var p := data + rest;
      var j := IndexByte(p, LF);
      assert p[i] == LF;
      assert j == i;
      assert p[..i] == data[..i];
    }
  }

  // A scanner with room for limit bytes can hold the first line of p, and know it is whole.
  predicate Holds(p: seq<byte>, limit: nat) {
    var n := FirstEnd(p);
    0 < limit && n <= limit && (n == limit ==> p[n - 1] == LF)
  }

  // Every line of p, in terms of the reference.
  predicate Short(p: seq<byte>, limit: nat) {
    0 < limit && forall i :: 0 <= i < |Raw(p)| ==> ShortLine(Raw(p)[i], limit)
  }

  predicate ShortLine(l: seq<byte>, limit: nat) {
    |l| < limit || (|l| == limit > 0 && l[|l| - 1] == LF)
  }

  lemma ShortHolds(p: seq<byte>, limit: nat)
    requires Short(p, limit)
    ensures Holds(p, limit) && Short(p[FirstEnd(p)..], limit)
  {
    if p == [] {
      assert p[0..] == p;
    } else {
      RawHead(p);
      hide Raw;
      var n := FirstEnd(p);
      var rest := Raw(p[n..]);
      assert Raw(p)[0] == p[..n];
      assert forall i :: 0 <= i < |rest| ==> rest[i] == Raw(p)[i + 1];
    }
  }

  // A full window without a newline belongs to a line that is too long.
  lemma TooLong(data: seq<byte>, rest: seq<byte>, limit: nat)
    requires limit <= |data| && LF !in data
    ensures !Holds(data + rest, limit)
  {
    var p := data + rest;
    var i := IndexByte(p, LF);
    assert i >= 0 ==> i >= |data|;
  }

  // ---- Lines as text ----

  // A line and the marker that ends it.
  datatype Ending = Ending(line: seq<byte>, mark: seq<byte>)
  {
    // The line holds no newline, and no carriage return that would count to a bare newline.
    predicate Ok() {
      && 10 !in line
      && (mark == [13, 10] || (mark == [10] && (line != [] ==> line[|line| - 1] != 13)))
    }
  }

  function TextOf(ls: seq<Ending>): seq<byte> {
    if ls == [] then [] else ls[0].line + ls[0].mark + TextOf(ls[1..])
  }

  function LinesIn(ls: seq<Ending>): seq<seq<byte>> {
    if ls == [] then [] else [ls[0].line] + LinesIn(ls[1..])
  }

  /**
    Text made of lines that end in a newline, alone or after a carriage return, and of a
    last line that may end in neither: its lines are those, without their markers.
   */
  lemma {:induction false} LinesOfText(ls: seq<Ending>, last: seq<byte>)
    requires forall i :: 0 <= i < |ls| ==> ls[i].Ok()
    requires 10 !in last && (last != [] ==> last[|last| - 1] != 13)
    ensures LinesOf(TextOf(ls) + last) == LinesIn(ls) + if last == [] then [] else [last]
    decreases |ls|
  {
    if ls == [] {
      LastLine(last);
    } else {
      var x, more := ls[0], TextOf(ls[1..]) + last;
      assert ls[0].Ok() && forall i :: 0 <= i < |ls[1..]| ==> ls[1..][i] == ls[i + 1];
      LinesOfText(ls[1..], last);
      hide LinesOf;
      Reassociate(x.line + x.mark, TextOf(ls[1..]), last);
      FirstLine(x, more);
    }
  }

  lemma FirstLine(x: Ending, more: seq<byte>)
    requires x.Ok()
    ensures LinesOf((x.line + x.mark) + more) == [x.line] + LinesOf(more)
  {
    var raw := x.line + x.mark;
    var p := raw + more;
    hide LinesOf;
    ScanLinesIsFirst(p);
    var n := |raw| - 1;
    assert raw[n] == LF && LF !in raw[..n] && raw[..n] == if x.mark == [10] then x.line else x.line + [13];
    NewlineAt(raw, more);
    assert p[..n] == raw[..n] && p[n + 1..] == more;
  }

  lemma NewlineAt(raw: seq<byte>, more: seq<byte>)
    requires raw != [] && raw[|raw| - 1] == LF && LF !in raw[..|raw| - 1]
    ensures IndexByte(raw + more, LF) == |raw| - 1
  {
    var p := raw + more;
    assert p[|raw| - 1] == LF;
    assert forall j :: 0 <= j < |raw| - 1 ==> p[j] == raw[..|raw| - 1][j];
  }

  lemma LastLine(last: seq<byte>)
    requires 10 !in last && (last != [] ==> last[|last| - 1] != 13)
    ensures LinesOf([] + last) == [] + if last == [] then [] else [last]
  {
    assert [] + last == last && [] + [last] == [last];
    assert LinesOf([]) == [];
    if last != [] {
      hide LinesOf;
      ScanLinesIsFirst(last);
      assert last[|last|..] == [] && [last] + [] == [last];
    }
  }
}
