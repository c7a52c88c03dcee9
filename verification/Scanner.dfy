/**
  bufio.Scanner with the ScanLines split function, over a reader that cuts its input
  as it likes.
 */
module Scanner {
  import opened Bytes
  import opened Chunks
  import opened Lines

  const START_BUF_SIZE: nat := 4096
  const MAX_EMPTY_READS: int := 100

  // Empty answers in a row that make a scanner give up.
  const GIVE_UP: nat := 101

  // The room a scanner has for a line, given the size of its first buffer and its limit.
  function Room(first: nat, max: int): nat {
    var room := if max > first then max else first;
    if room > MAX_INT / 2 then MAX_INT / 2 + 1 else room
  }

  // The widest its buffer gets.
  function Widest(first: nat, max: int): nat { if max > first then max else first }

  // What Err reports.
  function Reported(e: Error): Option<Error> { if e == EOF then None else Some(e) }

  // The token is the first line of what was pending, and the rest is pending still.
  predicate Takes(before: Outlook, token: Option<seq<byte>>, after: Outlook) {
    && token.Some? && before.bytes != [] && after.end == before.end && after.after == before.after
    && after.bytes == before.bytes[FirstEnd(before.bytes)..]
    && LinesOf(before.bytes) == [token.value] + LinesOf(after.bytes)
  }

  class Scanner {
    const r: Source
    const maxTokenSize: int
    var token: Option<seq<byte>>
    var buf: array<byte>
    var start: nat
    var end: nat
    var err: Option<Error>
    ghost const first: nat

    ghost predicate Valid()
      reads this
    {
      start <= end <= buf.Length && first <= buf.Length <= Widest(first, maxTokenSize)
    }

    // What has been read and not consumed, what the reader will still deliver, and the
    // error that follows.
    ghost function Pending(): Outlook
      requires Valid()
      reads this, buf, r
    {
      if err.None? then Before(buf[start..end], Ahead(r.plan, GIVE_UP, GIVE_UP))
      else Outlook(buf[start..end], err.value, r.plan)
    }

    // Scanner.Err: the first error other than EOF.
    function Err(): Option<Error>
      reads this
    {
      if err == Some(EOF) then None else err
    }

    // NewScanner followed by Buffer(buf, max).
    constructor (r: Source, buf: array<byte>, max: int)
      ensures Valid() && this.r == r && this.buf == buf && err.None? && maxTokenSize == max && first == buf.Length
      ensures Pending() == Ahead(r.plan, GIVE_UP, GIVE_UP)
    {
      this.r := r;
      this.buf := buf;
      this.maxTokenSize := max;
      token, start, end, err, first := None, 0, 0, None, buf.Length;
      new;
      assert [] + Ahead(r.plan, GIVE_UP, GIVE_UP).bytes == Ahead(r.plan, GIVE_UP, GIVE_UP).bytes;
    }

    method SetErr(e: Error)
      modifies this`err
      ensures err == if old(Err()).None? then Some(e) else old(err)
    {
      if err.None? || err == Some(EOF) { err := Some(e); }
    }

    // The first part of making room: shift the data to the beginning of the buffer.
    method Shift()
      requires Valid()
      modifies this`start, this`end, buf
      ensures Valid() && buf[start..end] == old(buf[start..end])
      ensures end == buf.Length ==> start == 0
    {
      if start > 0 && (end == buf.Length || start > buf.Length / 2) {
        CopyTo(buf, 0, buf[start..end]);
        end := end - start;
        start := 0;
      }
    }

    /** Makes room at the end of the buffer: shift, then resize, or fail with
        ErrTooLong.  The unconsumed bytes stay the same. */
    method MakeRoom() returns (ok: bool)
      requires Valid() && err.None?
      modifies this`buf, this`start, this`end, this`err, buf
      ensures Valid() && (buf == old(buf) || fresh(buf))
      ensures buf[start..end] == old(buf[start..end])
      ensures ok ==> err.None? && end < buf.Length
      ensures buf.Length == old(buf.Length) || buf.Length == old(buf.Length) * 2 || buf.Length == maxTokenSize || buf.Length == 4096
      ensures !ok ==> err == Some(ErrTooLong) && start == 0 && end == buf.Length >= Room(first, maxTokenSize)
    {
      Shift();
      if end == buf.Length {
        if buf.Length >= maxTokenSize || buf.Length > MAX_INT / 2 {
          SetErr(ErrTooLong);
          return false;
        }
        var newSize := buf.Length * 2;
        if newSize == 0 { newSize := START_BUF_SIZE; }
        newSize := if newSize < maxTokenSize then newSize else maxTokenSize;
        var newBuf := new byte[newSize];
        CopyTo(newBuf, 0, buf[start..end]);
        buf := newBuf;
        end := end - start;
        start := 0;
      }
      return true;
    }

    // One Read at the end of the buffer; with a bad count nothing is added.
    method ReadOnce() returns (n: int, e: Option<Error>)
      requires Valid() && end < buf.Length
      modifies this`end, buf, r
      ensures Valid() && end == old(end) + (if n < 0 then 0 else n)
      ensures
        var (m, bytes, e', rest) := Answered(old(r.plan), buf.Length - old(end));
        n == m && e == e' && r.plan == rest && buf[start..end] == old(buf[start..end]) + bytes
      ensures n <= 0 ==> buf[start..end] == old(buf[start..end])
    {
      hide Answered;
      AnsweredSize(r.plan, buf.Length - end);
      ghost var before := buf[start..end];
      n, e := r.Read(buf, end);
      assert buf[start..end] == before;
      if n >= 0 {
        Glue(buf, start, end, end + n);
        end := end + n;
      }
    }

    /** Reads until some byte or an error arrives, at most MAX_EMPTY_READS + 1 times. */
    method Fill()
      requires Valid() && err.None? && end < buf.Length
      modifies this`end, this`err, buf, r
      ensures Valid() && Pending() == old(Pending())
      ensures err.None? ==> Size(r.plan) < old(Size(r.plan))
    {
      hide Ahead, Answered, Size;
      ghost var before, ahead := buf[start..end], Ahead(r.plan, GIVE_UP, GIVE_UP);
      var loop := 0;
      while true
        invariant Valid() && err.None? && end == old(end) && buf[start..end] == before
        invariant 0 <= loop <= MAX_EMPTY_READS
        invariant Ahead(r.plan, GIVE_UP, GIVE_UP - loop) == ahead
        invariant Size(r.plan) <= old(Size(r.plan))
        decreases MAX_EMPTY_READS - loop
      {
        AnsweredAhead(r.plan, buf.Length - end, GIVE_UP, GIVE_UP - loop);
        AnsweredAll(r.plan, buf.Length - end);
        var n, e := ReadOnce();
        if n < 0 {
          SetErr(ErrBadReadCount);
          assert before + [] == before;
          return;
        }
        if e.Some? {
          SetErr(e.value);
          return;
        }
        if n > 0 {
          Reassociate(before, buf[old(end)..end], Ahead(r.plan, GIVE_UP, GIVE_UP).bytes);
          assert buf[start..end] == before + buf[old(end)..end];
          return;
        }
        loop := loop + 1;
        if loop > MAX_EMPTY_READS {
          SetErr(ErrNoProgress);
          assert before + [] == before;
          return;
        }
      }
    }

    /** One call of the split function: a token is the first of the lines to come. */
    method Split() returns (found: bool)
      requires Valid() && (end > start || err.Some?)
      modifies this`token, this`start
      ensures Valid()
      ensures found ==> Takes(old(Pending()), token, Pending()) && FirstEnd(old(Pending()).bytes) <= Widest(first, maxTokenSize)
      ensures !found ==> start == old(start) && LF !in buf[start..end] && (err.Some? ==> start == end)
    {
      hide Ahead, ScanLines, Takes;
      ghost var data, rest := buf[start..end], if err.None? then Ahead(r.plan, GIVE_UP, GIVE_UP).bytes else [];
      assert Pending().bytes == data + rest by { assert data + [] == data; }
      ScanLinesTakes(data, rest, Pending(), err.Some?);
      var (advance, tok) := ScanLines(buf[start..end], err.Some?);
      assert buf[start + advance..end] == data[advance..];
      assert data[advance..] + [] == data[advance..];
      start := start + advance;
      token := tok;
      return tok.Some?;
    }

    /** Scan: a token is the first of the lines still to come.  Without one, nothing is
        left and the reader's error is reported, or the next line has no room. */
    method Scan() returns (more: bool)
      requires Valid()
      modifies this`token, this`buf, this`start, this`end, this`err, buf, r
      ensures Valid() && (buf == old(buf) || fresh(buf))
      ensures more ==> Takes(old(Pending()), token, Pending()) && FirstEnd(old(Pending()).bytes) <= Widest(first, maxTokenSize)
      ensures !more ==>
        || (old(Pending().bytes) == [] && err == Some(old(Pending().end)) && r.plan == old(Pending()).after)
        || (err == Some(ErrTooLong) && !Holds(old(Pending().bytes), Room(first, maxTokenSize)))
    {
      hide Ahead, Size, Takes, Lines.Holds, Room;
      ghost var ahead := Pending();
      while true
        invariant Valid() && (buf == old(buf) || fresh(buf))
        invariant Pending() == ahead
        decreases err.None?, Size(r.plan)
      {
        if end > start || err.Some? {
          more := Split();
          if more { return; }
        }
        ghost var data := buf[start..end];
        if err.Some? {
          start, end := 0, 0;
          return false;
        }
        ghost var rest := Ahead(r.plan, GIVE_UP, GIVE_UP).bytes;
        var ok := MakeRoom();
        if !ok {
          TooLong(data, rest, Room(first, maxTokenSize));
          return false;
        }
        assert Pending() == ahead;
        Fill();
      }
    }
  }

  lemma AnsweredSize(plan: seq<Answer>, room: nat)
    ensures var (n, bytes, err, rest) := Answered(plan, room); |bytes| == if n < 0 then 0 else n
  {
  }

  // What the split function does to what is pending.
  lemma ScanLinesTakes(data: seq<byte>, rest: seq<byte>, before: Outlook, atEOF: bool)
    requires before.bytes == data + rest && (atEOF ==> rest == [])
    ensures
      var (adv, token) := ScanLines(data, atEOF);
      && 0 <= adv <= |data|
      && (token.Some? ==> adv == FirstEnd(data + rest) && Takes(before, token, before.(bytes := data[adv..] + rest)))
      && (token.None? ==> adv == 0 && LF !in data && (atEOF ==> data == []))
  {
    ScanLinesIsStable(data, rest, atEOF);
    ScanLinesSees(data, atEOF);
    hide ScanLines, LinesOf, FirstEnd;
    var (adv, token) := ScanLines(data, atEOF);
    if token.Some? {
      ScanLinesIsFirst(data + rest);
      DropFront(data, rest, adv);
    }
  }

  lemma ScanLinesSees(data: seq<byte>, atEOF: bool)
    ensures var (adv, token) := ScanLines(data, atEOF); token.None? ==> adv == 0 && LF !in data
  {
  }

  lemma DropFront(a: seq<byte>, b: seq<byte>, n: nat)
    requires n <= |a|
    ensures (a + b)[n..] == a[n..] + b
  {
  }

  /** A client that scans to the end.  However the reader cut the input, if every line
      has room the tokens are exactly the lines of what the reader delivered, and Err is
      the reader's own error; a nil Err means that this was the whole input. */
  method AllLines(plan: seq<Answer>, buf: array<byte>, max: int)
    returns (tokens: seq<seq<byte>>, err: Option<Error>)
    modifies buf
    ensures
      var ahead := Ahead(plan, GIVE_UP, GIVE_UP);
      || (tokens == LinesOf(ahead.bytes) && err == Reported(ahead.end))
      || (err == Some(ErrTooLong) && tokens <= LinesOf(ahead.bytes) && !Short(ahead.bytes, Room(buf.Length, max)))
    ensures err.None? ==> tokens == LinesOf(Rest(plan))
    ensures !Narrow(Ahead(plan, GIVE_UP, GIVE_UP).bytes, Widest(buf.Length, max)) ==> err == Some(ErrTooLong)
  {
    hide Widest, Narrow;
    hide LinesOf, Ahead, Short, Room, FirstEnd, Lines.Holds;
    var r := new Source(plan);
    var s := new Scanner(r, buf, max);
    ghost var ahead := Ahead(plan, GIVE_UP, GIVE_UP);
    ghost var room := Room(buf.Length, max);
    tokens := [];
    ghost var left := ahead.bytes;
    var more := true;
    while more
      invariant s.Valid() && s.r == r && (s.buf == buf || fresh(s.buf)) && fresh(r) && fresh(s)
      invariant s.first == buf.Length && s.maxTokenSize == max
      invariant tokens + LinesOf(left) == LinesOf(ahead.bytes)
      invariant Short(ahead.bytes, room) ==> Short(left, room)
      invariant Narrow(left, Widest(buf.Length, max)) ==> Narrow(ahead.bytes, Widest(buf.Length, max))
      invariant more ==> s.Pending() == ahead.(bytes := left)
      invariant !more ==> (left == [] && s.err == Some(ahead.end)) || (s.err == Some(ErrTooLong) && !Lines.Holds(left, room))
      decreases more, |left|
    {
      more := s.Scan();
      if more {
        if Short(left, room) { ShortHolds(left, room); }
        Append(tokens, s.token.value, LinesOf(s.Pending().bytes));
        FirstEndPositive(left);
        NarrowFirst(left, Widest(buf.Length, max));
        tokens := tokens + [s.token.value];
        left := s.Pending().bytes;
      }
    }
    err := s.Err();
    if left == [] { NoLines(); NarrowNothing(Widest(buf.Length, max)); }
    if Short(left, room) { ShortHolds(left, room); }
    if err.None? && ahead.end == EOF { AheadIsRest(plan, GIVE_UP, GIVE_UP); }
  }

  /** A byte after k empty answers is scanned if there are at most a hundred. */
  method ScanPatiently(k: nat, b: byte) returns (tokens: seq<seq<byte>>, err: Option<Error>)
    ensures k <= 100 ==> err.None? && tokens == LinesOf([b])
    ensures k > 100 ==> err == Some(ErrNoProgress) && tokens == []
  {
    hide Ahead, Empties, LinesOf;
    var buf := new byte[16];
    EmptyAnswers(k, [Good([b], None)], GIVE_UP, GIVE_UP);
    AheadOfByte(b, GIVE_UP, GIVE_UP - k);
    NoLines();
    OneIsShort(b);
    tokens, err := AllLines(Empties(k) + [Good([b], None)], buf, 16);
  }

  lemma AheadOfByte(b: byte, limit: nat, left: int)
    ensures left >= 0 ==> Ahead([Good([b], None)], limit, left).bytes == [b] && Ahead([Good([b], None)], limit, left).end == EOF
  {
    assert [Good([b], None)][1..] == [];
  }

  lemma OneIsShort(b: byte)
    ensures Short([b], Room(16, 16)) && Short([], Room(16, 16))
  {
  }

  lemma FirstEndPositive(p: seq<byte>)
    ensures FirstEnd(p) <= |p| && (p != [] ==> FirstEnd(p) > 0)
  {
  }

  // No line of p, with its end, is longer than this.
  predicate Narrow(p: seq<byte>, limit: nat) { forall i :: 0 <= i < |Raw(p)| ==> |Raw(p)[i]| <= limit }

  lemma NarrowFirst(p: seq<byte>, limit: nat)
    requires p != [] && FirstEnd(p) <= limit
    ensures Narrow(p[FirstEnd(p)..], limit) ==> Narrow(p, limit)
  {
    RawHead(p);
    hide Raw;
  }

  lemma NarrowNothing(limit: nat)
    ensures Narrow([], limit)
  {
  }

  lemma NoLines()
    ensures LinesOf([]) == []
  {
  }

  lemma Append<T>(a: seq<T>, x: T, b: seq<T>)
    ensures a + ([x] + b) == (a + [x]) + b
  {
  }
}
