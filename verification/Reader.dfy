/**
  bufio.Reader: a sliding window over a reader that cuts its input as it likes.  Every
  operation takes from the logical stream exactly the bytes it returns.
 */
module Reader {
  import opened Bytes
  import opened Chunks
  import Utf8

  const MIN_READ_BUFFER_SIZE: nat := 16
  const MAX_CONSECUTIVE_EMPTY_READS: nat := 100

  datatype Failure = Of(e: Error) | BufferFull | NegativeCount | InvalidUnread

  // What a client can call.
  datatype Call = Peek(n: int) | Discard(n: int) | Read(size: nat) | ReadByte | UnreadByte | ReadRune | UnreadRune
                | ReadSlice(delim: byte) | ReadLine | ReadBytes(delim: byte)

  // Copies the pieces into one array of exactly their size.
  method Assemble(full: seq<seq<byte>>, frag: seq<byte>, total: nat) returns (line: array<byte>)
    requires total == |Flatten(full) + frag|
    ensures fresh(line) && line[..] == Flatten(full) + frag
  {
    hide Flatten;
    line := new byte[total];
    assert full[..0] == [];
    NothingFlat();
    var n: nat, i: nat := 0, 0;
    while i < |full|
      invariant i <= |full| && n == |Flatten(full[..i])| <= |Flatten(full)|
      invariant line[..n] == Flatten(full[..i])
    {
      FlattenFront(full, i + 1);
      assert full[..i + 1] == full[..i] + [full[i]];
      FlattenSnoc(full[..i], full[i]);
      CopyTo(line, n, full[i]);
      GlueFront(line, n, n + |full[i]|);
      n := n + |full[i]|;
      i := i + 1;
    }
    assert full[..|full|] == full;
    CopyTo(line, n, frag);
    GlueFront(line, n, n + |frag|);
  }

  lemma Suffix(a: seq<byte>, b: seq<byte>)
    ensures EndsWith(a + b, b)
  {
  }

  // A line without its newline and the carriage return before it.
  function Trimmed(raw: seq<byte>): seq<byte> {
    if raw == [] || raw[|raw| - 1] != LF then raw
    else if |raw| > 1 && raw[|raw| - 2] == CR then raw[..|raw| - 2]
    else raw[..|raw| - 1]
  }

  /** A newline is dropped with the carriage return before it; without a newline nothing is. */
  lemma TrimmedIs(x: seq<byte>)
    ensures Trimmed(x + [13, 10]) == x
    ensures (x == [] || x[|x| - 1] != 13) ==> Trimmed(x + [10]) == x
    ensures 10 !in x ==> Trimmed(x) == x
  {
  }

  lemma TrimmedClean(raw: seq<byte>, found: bool)
    requires if found then Delimited(raw, LF) else LF !in raw
    ensures LF !in Trimmed(raw) && (found ==> LF in raw && raw != [])
  {
    if found && |raw| > 1 {
      assert raw[..|raw| - 2] == raw[..|raw| - 1][..|raw| - 2];
    }
  }

  lemma DropLast(a: seq<byte>, b: seq<byte>)
    requires b != []
    ensures (a + b)[..|a + b| - 1] == a + b[..|b| - 1]
    ensures b == b[..|b| - 1] + [b[|b| - 1]]
  {
  }

  // The last byte, or -1 as in lastByte.
  function Last(s: seq<byte>): int { if s == [] then -1 else s[|s| - 1] as int }

  lemma LastOf(a: seq<byte>, b: seq<byte>)
    ensures Last(a + b) == if b == [] then Last(a) else Last(b)
  {
  }

  lemma BeforeBoth(a: seq<byte>, b: seq<byte>, o: Outlook)
    ensures Before(a, Before(b, o)) == Before(a + b, o) && Before([], o) == o
  {
    Reassociate(a, b, o.bytes);
  }

  // The shortest prefix that ends in delim.
  predicate Delimited(line: seq<byte>, delim: byte) {
    line != [] && line[|line| - 1] == delim && delim !in line[..|line| - 1]
  }

  predicate Conserves(whole: seq<byte>, taken: seq<byte>, window: seq<byte>, rest: seq<byte>) {
    whole == taken + (window + rest)
  }

  // Bytes arrive at the end of the window, and are taken from its front.
  lemma Arrive(whole: seq<byte>, taken: seq<byte>, window: seq<byte>, bytes: seq<byte>, rest: seq<byte>)
    requires Conserves(whole, taken, window, bytes + rest)
    ensures Conserves(whole, taken, window + bytes, rest)
  {
    Reassociate(window, bytes, rest);
  }

  lemma Leave(whole: seq<byte>, taken: seq<byte>, data: seq<byte>, window: seq<byte>, rest: seq<byte>)
    ensures Conserves(whole, taken, data + window, rest) <==> Conserves(whole, taken + data, window, rest)
  {
    Reassociate(data, window, rest);
    Reassociate(taken, data, window + rest);
  }

  class Reader {
    const buf: array<byte>
    const rd: Source
    var r: nat
    var w: nat
    var err: Option<Error>
    var lastByte: int
    var lastRuneSize: int

    // Everything the source delivers, what has been taken from it, and whether lastByte
    // names a byte that ReadLine has put back.
    ghost const whole: seq<byte>
    ghost var taken: seq<byte>
    ghost var stale: bool

    // The logical stream: what is buffered, then what the source still holds.
    ghost function Stream(): seq<byte>
      requires r <= w <= buf.Length
      reads this, buf, rd
    {
      buf[r..w] + All(rd.plan)
    }

    // What lies ahead of a caller: the buffered bytes, what the source delivers before
    // its next error, and that error.
    ghost function Coming(): Outlook
      requires r <= w <= buf.Length
      reads this, buf, rd
    {
      From(buf[r..w])
    }

    ghost function From(window: seq<byte>): Outlook
      reads this`err, rd
    {
      if err.Some? then Outlook(window, err.value, rd.plan)
      else Before(window, Ahead(rd.plan, MAX_CONSECUTIVE_EMPTY_READS, MAX_CONSECUTIVE_EMPTY_READS))
    }

    lemma FromBoth(a: seq<byte>, b: seq<byte>)
      ensures From(a + b) == Before(a, From(b))
    {
      BeforeBoth(a, b, Ahead(rd.plan, MAX_CONSECUTIVE_EMPTY_READS, MAX_CONSECUTIVE_EMPTY_READS));
    }

    // Nothing is lost, repeated or reordered.
    ghost predicate Sound()
      requires r <= w <= buf.Length
      reads this, buf, rd
    {
      Proper(rd.plan) && Conserves(whole, taken, buf[r..w], All(rd.plan))
    }

    ghost predicate Core()
      reads this, buf, rd
    {
      MIN_READ_BUFFER_SIZE <= buf.Length && r <= w <= buf.Length && Sound()
    }

    ghost predicate Memory()
      reads this, buf
    {
      && -1 <= lastByte < 256
      && (lastRuneSize == -1 || (1 <= lastRuneSize <= 4 && lastByte >= 0))
      && (lastByte >= 0 && !stale ==> taken != [] && taken[|taken| - 1] == lastByte)
      && (lastByte >= 0 ==> r > 0 || w == 0)
      && (stale ==> lastByte == CR && taken != [] && 0 < r < w && lastRuneSize == -1)
      && (0 < lastRuneSize <= r <= buf.Length ==> EndsWith(taken, buf[r - lastRuneSize..r]))
    }

    // What can be unread: this byte, or nothing if it is -1, and no rune.
    ghost predicate Recalls(last: int)
      reads this
    {
      lastByte == last && lastRuneSize == -1 && !stale
    }

    // The bytes that UnreadRune needs are still in front of the window.
    ghost predicate CanUnreadRune()
      reads this
    {
      0 < lastRuneSize <= r
    }

    // The calls that leave a rune to unread: those that ask for nothing, and those that
    // find nothing buffered and return without reading into the buffer.
    ghost predicate Passes(call: Call)
      reads this, rd
    {
      match call
      case Peek(n) => n < 0
      case Discard(n) => n <= 0
      case Read(size) => size == 0 || (r == w && (err.Some? || (size >= buf.Length && Answered(rd.plan, size).0 == 0)))
      case ReadSlice(_) => r == w && err.Some?
      case ReadLine => r == w && err.Some?
      case ReadBytes(_) => r == w && err.Some?
      case _ => false
    }

    twostate predicate Undisturbed()
      reads this
    {
      lastByte == old(lastByte) && lastRuneSize == old(lastRuneSize) && stale == old(stale)
    }

    // A call that took nothing; only one that found an error pending left the window
    // where it was.
    twostate predicate TookNothing()
      reads this
    {
      Undisturbed() && r == if old(err).Some? then old(r) else 0
    }

    ghost predicate Valid()
      reads this, buf, rd
    {
      Core() && Memory()
    }

    // NewReaderSize.
    constructor (rd: Source, size: int)
      requires Proper(rd.plan)
      ensures Valid() && fresh(buf) && this.rd == rd && whole == All(rd.plan) && taken == []
      ensures r == w == 0 && err.None?
      ensures Coming() == Ahead(rd.plan, MAX_CONSECUTIVE_EMPTY_READS, MAX_CONSECUTIVE_EMPTY_READS)
      ensures buf.Length == if size < MIN_READ_BUFFER_SIZE then MIN_READ_BUFFER_SIZE else size
    {
      this.rd := rd;
      buf := new byte[if size < MIN_READ_BUFFER_SIZE then MIN_READ_BUFFER_SIZE else size];
      r, w, err, lastByte, lastRuneSize := 0, 0, None, -1, -1;
      whole, taken, stale := All(rd.plan), [], false;
      new;
      assert buf[r..w] == [];
      BeforeBoth([], [], Ahead(rd.plan, MAX_CONSECUTIVE_EMPTY_READS, MAX_CONSECUTIVE_EMPTY_READS));
    }

    method ReadErr() returns (e: Option<Failure>)
      modifies this`err
      ensures err.None? && e == if old(err).None? then None else Some(Of(old(err).value))
      ensures Core() == old(Core()) && Memory() == old(Memory())
      ensures r <= w <= buf.Length && old(err).Some? ==> old(Coming()) == Outlook(buf[r..w], old(err).value, rd.plan)
    {
      e := if err.None? then None else Some(Of(err.value));
      err := None;
    }

    method SetErr(e: Error)
      modifies this`err
      ensures err == Some(e) && Core() == old(Core()) && Memory() == old(Memory())
    {
      err := Some(e);
    }

    // With nothing buffered, only the last byte can be unread.
    twostate lemma RemembersNothing()
      requires r == w == 0 && old(r == w) && old(Memory())
      requires lastByte == old(lastByte) && lastRuneSize == old(lastRuneSize) && stale == old(stale) && taken == old(taken)
      ensures Memory()
    {
    }

    method Slide()
      requires Core()
      modifies this`r, this`w, buf
      ensures Core() && r == 0 && w == old(w - r)
      ensures buf[r..w] == old(buf[r..w]) && Coming() == old(Coming())
    {
      hide All, Proper, Ahead, From;
      if r > 0 {
        CopyTo(buf, 0, buf[r..w]);
        w := w - r;
        r := 0;
      }
    }

    // One Read at the end of the window.
    method ReadOnce() returns (n: nat, e: Option<Error>)
      requires Core()
      modifies this`w, buf, rd
      ensures Core() && w == old(w) + n
      ensures buf[r..w] == old(buf[r..w]) + buf[old(w)..w]
      ensures (n, buf[old(w)..w], e, rd.plan) == Answered(old(rd.plan), buf.Length - old(w))
    {
      hide All, Size, Proper, Answered, Conserves;
      ghost var window := buf[r..w];
      AnsweredAll(rd.plan, buf.Length - w);
      var count;
      count, e := rd.Read(buf, w);
      n := count;
      assert buf[r..w] == window;
      Glue(buf, r, w, w + n);
      ghost var bytes := buf[w..w + n];
      w := w + n;
      Arrive(whole, taken, window, bytes, All(rd.plan));
    }

    /** Slides the window down and reads until some byte or an error arrives. */
    method Fill()
      requires Core() && w - r < buf.Length
      modifies this`r, this`w, this`err, buf, rd
      ensures Core() && r == 0 && w >= old(w - r)
      ensures
        var (bytes, e, rest) := Chunk(old(rd.plan), buf.Length - old(w - r), MAX_CONSECUTIVE_EMPTY_READS);
        buf[r..w] == old(buf[r..w]) + bytes && rd.plan == rest && err == (if e.Some? then e else old(err))
      ensures err.Some? || w > old(w - r)
      ensures old(err).None? ==> Coming() == old(Coming())
      ensures r == w && old(Memory()) ==> Memory()
    {
      hide All, Size, Proper, Answered, Sound, Stream, Ahead, Chunk, EndsWith, Memory;
      ghost var coming := Coming();
      Slide();
      var e := FillUp();
      if e.Some? {
        SetErr(e.value);
      }
      if r == w && old(Memory()) {
        RemembersNothing();
      }
    }

    // The loop of fill: the bytes of one chunk, and the error to set.
    method FillUp() returns (e: Option<Error>)
      requires Core() && r == 0 && w < buf.Length
      modifies this`w, buf, rd
      ensures Core() && w >= old(w)
      ensures
        var (bytes, e', rest) := Chunk(old(rd.plan), buf.Length - old(w), MAX_CONSECUTIVE_EMPTY_READS);
        buf[r..w] == old(buf[r..w]) + bytes && e == e' && rd.plan == rest
      ensures e.Some? || w > old(w)
      ensures
        var limit := MAX_CONSECUTIVE_EMPTY_READS;
        Before(old(buf[r..w]), Ahead(old(rd.plan), limit, limit))
        == if e.Some? then Outlook(buf[r..w], e.value, rd.plan) else Before(buf[r..w], Ahead(rd.plan, limit, limit))
    {
      hide All, Size, Proper, Answered, Sound, Stream, Ahead, Chunk;
      ghost var window := buf[r..w];
      ghost var limit := MAX_CONSECUTIVE_EMPTY_READS;
      ghost var ahead, chunk := Ahead(rd.plan, limit, limit), Chunk(rd.plan, buf.Length - w, limit);
      var i: nat := MAX_CONSECUTIVE_EMPTY_READS;
      while i > 0
        invariant Core() && w == old(w) && buf[r..w] == window
        invariant i > 0 ==> Ahead(rd.plan, limit, i) == ahead && Chunk(rd.plan, buf.Length - w, i) == chunk
        invariant i == 0 ==> ahead == Outlook([], ErrNoProgress, rd.plan) && chunk == ([], Some(ErrNoProgress), rd.plan)
      {
        AnsweredAhead(rd.plan, buf.Length - w, limit, i);
        ChunkStep(rd.plan, buf.Length - w, i);
        var n;
        n, e := ReadOnce();
        if e.Some? {
          return;
        }
        if n > 0 {
          BeforeBoth(window, buf[old(w)..w], Ahead(rd.plan, limit, limit));
          return;
        }
        assert buf[old(w)..w] == [];
        i := i - 1;
      }
      assert window + [] == window;
      return Some(ErrNoProgress);
    }

    /** Hands out the first k bytes of the window. */
    method Consume(k: nat) returns (data: seq<byte>)
      requires Core() && k <= w - r
      modifies this`r, this`taken
      ensures Core() && r == old(r) + k
      ensures data == buf[old(r)..r] == old(buf[r..w])[..k] && |data| == k
      ensures taken == old(taken) + data && EndsWith(taken, data)
      ensures old(buf[r..w]) == data + buf[r..w]
      ensures old(Coming()) == Before(data, Coming())
      ensures k == 0 ==> taken == old(taken)
    {
      hide All, Proper, Ahead, From, Memory, Conserves;
      data := buf[r..r + k];
      Narrow(buf, r, w, k);
      Glue(buf, r, r + k, w);
      FromBoth(data, buf[r + k..w]);
      Suffix(taken, data);
      hide EndsWith;
      ghost var window, rest := buf[r + k..w], All(rd.plan);
      Leave(whole, taken, data, window, rest);
      taken := taken + data;
      r := r + k;
      assert buf[r..w] == window;
    }

    // Remembers the last byte handed out.
    method Remember(data: seq<byte>, size: int)
      requires Core() && data != [] && EndsWith(taken, data) && 0 < r
      requires size == -1 || (1 <= size <= 4 && size == |data| <= r && data == buf[r - size..r])
      modifies this`lastByte, this`lastRuneSize, this`stale
      ensures Valid() && lastByte == data[|data| - 1] && lastRuneSize == size && !stale
      ensures Stream() == old(Stream()) && buf[r..w] == old(buf[r..w]) && Coming() == old(Coming())
    {
      lastByte := data[|data| - 1];
      lastRuneSize := size;
      stale := false;
    }

    // The same for bytes that went past the window.
    method RememberDirect(p: array<byte>, n: nat)
      requires Core() && r == w && 0 < n <= p.Length && |taken| >= n && taken[|taken| - 1] == p[n - 1]
      modifies this`lastByte, this`lastRuneSize, this`stale
      ensures Valid() && Recalls(Last(p[..n]))
    {
      lastByte, lastRuneSize, stale := p[n - 1], -1, false;
    }

    method Forget()
      requires Core()
      modifies this`lastByte, this`lastRuneSize, this`stale
      ensures Valid() && Recalls(-1)
      ensures Coming() == old(Coming()) && Stream() == old(Stream())
    {
      lastByte, lastRuneSize, stale := -1, -1, false;
    }

    method ForgetRune()
      requires Valid()
      modifies this`lastRuneSize
      ensures Valid() && lastRuneSize == -1 && Coming() == old(Coming())
    {
      lastRuneSize := -1;
    }

    // How many bytes Peek shows: what was asked for, as far as there is room and data.
    ghost function Visible(n: int): nat
      requires r <= w <= buf.Length
      reads this, buf, rd
    {
      var k := Min(|Coming().bytes|, buf.Length);
      if n < 0 then 0 else Min(n, k)
    }

    /** The next n bytes, left in the stream: fewer only with a failure, which is the
        source's error when the data ends, or says that the buffer is too small. */
    method Peek(n: int) returns (data: seq<byte>, fail: Option<Failure>)
      requires Valid()
      modifies this, buf, rd
      ensures Valid() && taken == old(taken)
      ensures data == old(Coming()).bytes[..old(Visible(n))]
      ensures fail ==
        if n < 0 then Some(NegativeCount)
        else if n > buf.Length then Some(BufferFull)
        else if n > |data| then Some(Of(old(Coming()).end))
        else None
      ensures !(fail.Some? && fail.value.Of?) ==> Coming() == old(Coming())
      ensures fail.Some? && fail.value.Of? ==> buf[r..w] == data && err.None? && rd.plan == old(Coming()).after
      ensures if n < 0 then Undisturbed() && r == old(r) else Recalls(-1)
    {
      if n < 0 {
        return [], Some(NegativeCount);
      }
      hide Ahead, All, Proper, EndsWith, Sound, Stream, Chunk, Coming, Memory, Chunks.Before;
      Forget();
      Await(n);
      Forgotten();
      var m := Min(n, w - r);
      WindowIsFront(m);
      data := buf[r..r + m];
      if n > buf.Length {
        return data, Some(BufferFull);
      }
      if w - r < n {
        fail := ReadErr();
      } else {
        fail := None;
      }
    }

    // Fills until n bytes are buffered, an error is pending or the buffer is full.
    method Await(n: nat)
      requires Core()
      modifies this`r, this`w, this`err, buf, rd
      ensures Core() && Coming() == old(Coming())
      ensures w - r >= n || w - r >= buf.Length || err.Some?
    {
      hide Ahead, All, Proper, EndsWith, Sound, Stream, Chunk, Coming, Memory;
      while w - r < n && w - r < buf.Length && err.None?
        invariant Core() && Coming() == old(Coming())
        decreases buf.Length - (w - r), err.None?
      {
        Fill();
      }
    }

    lemma Forgotten()
      requires Recalls(-1)
      ensures Memory()
    {
    }

    // The window is what comes first; with an error pending it is all.
    lemma WindowIsFront(k: nat)
      requires r <= w <= buf.Length && k <= w - r
      ensures |Coming().bytes| >= w - r && Coming().bytes[..k] == buf[r..r + k]
      ensures err.Some? ==> Coming().bytes == buf[r..w]
    {
      Narrow(buf, r, w, k);
    }

    // One round of Discard: fills an empty window, and skips what it can.
    method Skip(remain: nat) returns (data: seq<byte>)
      requires Core() && remain > 0
      modifies this`r, this`w, this`err, this`taken, buf, rd
      ensures Core() && taken == old(taken) + data && |data| <= remain
      ensures |data| < remain ==> r == w
      ensures data == [] ==> err.Some?
      ensures old(r < w || err.None?) ==> old(Coming()) == Before(data, Coming())
      ensures old(r < w) ==> err == old(err)
      ensures old(r == w) ==>
        var (bytes, e, rest) := Chunk(old(rd.plan), buf.Length, MAX_CONSECUTIVE_EMPTY_READS);
        && data == bytes[..Min(remain, |bytes|)] && buf[r..w] == bytes[|data|..]
        && rd.plan == rest && err == (if e.Some? then e else old(err))
    {
      hide All, Proper, EndsWith, Sound, Stream, Ahead, Chunk, Memory, Coming, From;
      if r == w {
        assert buf[r..w] == [];
        Fill();
      }
      data := Consume(Min(remain, w - r));
    }

    // An error that is pending with nothing buffered is not reported by Discard, which
    // reads on instead.
    ghost predicate Overlooks()
      reads this
    {
      r == w && err.Some?
    }

    /** Skips n bytes: fewer only when the data ends, with the source's error. */
    method Discard(n: int) returns (discarded: nat, fail: Option<Failure>)
      requires Valid()
      modifies this, buf, rd
      ensures Valid()
      ensures n <= 0 ==> discarded == 0 && taken == old(taken) && Coming() == old(Coming())
      ensures n <= 0 ==> fail == if n < 0 then Some(NegativeCount) else None
      ensures if n <= 0 then Undisturbed() && r == old(r) else Recalls(-1)
      ensures n > 0 && !old(Overlooks()) ==>
        var ahead := old(Coming());
        if n <= |ahead.bytes| then
          discarded == n && fail.None? && taken == old(taken) + ahead.bytes[..n] && ahead == Before(ahead.bytes[..n], Coming())
        else
          && discarded == |ahead.bytes| && fail == Some(Of(ahead.end)) && taken == old(taken) + ahead.bytes
          && r == w && err.None? && rd.plan == ahead.after
      ensures n > 0 && old(Overlooks()) ==>
        var (bytes, e, rest) := Chunk(old(rd.plan), buf.Length, MAX_CONSECUTIVE_EMPTY_READS);
        if n <= |bytes| then
          && discarded == n && fail.None? && taken == old(taken) + bytes[..n]
          && buf[r..w] == bytes[n..] && rd.plan == rest && err == (if e.Some? then e else old(err))
        else
          && discarded == |bytes| && taken == old(taken) + bytes
          && r == w && err.None? && rd.plan == rest
          && fail == Some(Of(if e.Some? then e.value else old(err).value))
    {
      hide All, Proper, EndsWith, Sound, Stream, Ahead, Chunk, Memory, Coming, From;
      if n < 0 {
        return 0, Some(NegativeCount);
      }
      if n == 0 {
        return 0, None;
      }
      Forget();
      ghost var ahead, before, odd := Coming(), taken, Overlooks();
      ghost var skipped: seq<byte> := [];
      BeforeBoth([], [], ahead);
      assert taken == before + skipped;
      var remain := n;
      while true
        invariant Valid() && Recalls(-1)
        invariant 0 < remain <= n && |skipped| == n - remain && taken == before + skipped
        invariant odd ==> skipped == [] && Overlooks() && rd.plan == old(rd.plan) && err == old(err)
        invariant !odd ==> ahead == Before(skipped, Coming()) && !Overlooks()
        decreases remain
      {
        ghost var coming := Coming();
        var data := Skip(remain);
        Forget();
        Reassociate(before, skipped, data);
        BeforeBoth(skipped, data, Coming());
        skipped := skipped + data;
        remain := remain - |data|;
        if remain == 0 {
          assert !odd ==> ahead.bytes[..n] == skipped;
          return n, None;
        }
        if err.Some? {
          assert buf[r..w] == [];
          fail := ReadErr();
          return n - remain, fail;
        }
      }
    }

    /** Reads into p: from the window, or with one Read of the source when that is empty,
        straight into p when p is large.  The source's error is returned with the bytes
        that came with it, or kept until they are taken. */
    method Read(p: array<byte>) returns (n: nat, fail: Option<Failure>)
      requires Valid() && p != buf
      modifies this, buf, rd, p
      ensures Valid() && n <= p.Length
      ensures taken == old(taken) + p[..n]
      ensures
        if n > 0 then Recalls(Last(p[..n]))
        else Undisturbed() && r == if old(err).None? && 0 < p.Length < buf.Length then 0 else old(r)
      ensures old(r < w || err.Some?) || p.Length == 0 ==> rd.plan == old(rd.plan)
      ensures old(r < w) ==>
        n == Min(p.Length, old(w - r)) && p[..n] == old(buf[r..w])[..n] && fail.None? && old(Coming()) == Before(p[..n], Coming())
      ensures old(r == w) && (p.Length == 0 || old(err).Some?) ==>
        n == 0 && err.None? && fail == (if old(err).None? then None else Some(Of(old(err).value)))
      ensures old(r == w) && p.Length > 0 && old(err).None? ==>
        var (m, bytes, e, rest) := Answered(old(rd.plan), if p.Length < buf.Length then buf.Length else p.Length);
        && rd.plan == rest && m >= 0
        && n == Min(p.Length, m) && p[..n] == bytes[..n]
        && (if m == 0 || p.Length >= buf.Length then err.None? && fail == (if e.None? then None else Some(Of(e.value)))
            else fail.None? && err == e && buf[r..w] == bytes[n..])
    {
      hide All, Proper, EndsWith, Sound, Stream, Ahead, Answered;
      if p.Length == 0 {
        if w - r > 0 {
          BeforeBoth([], [], Coming());
          return 0, None;
        }
        fail := ReadErr();
        return 0, fail;
      }
      if r == w {
        if err.Some? {
          fail := ReadErr();
          return 0, fail;
        }
        if p.Length >= buf.Length {
          n := ReadDirect(p);
          fail := ReadErr();
          return n, fail;
        }
        n, fail := ReadThrough(p);
        return n, fail;
      }
      n := CopyOut(p);
      return n, None;
    }

    // The window is empty and p smaller than the buffer.
    method ReadThrough(p: array<byte>) returns (n: nat, fail: Option<Failure>)
      requires Valid() && p != buf && r == w && err.None? && 0 < p.Length < buf.Length
      modifies this, buf, rd, p
      ensures Valid() && n <= p.Length && taken == old(taken) + p[..n]
      ensures if n > 0 then Recalls(Last(p[..n])) else Undisturbed() && r == 0
      ensures
        var (m, bytes, e, rest) := Answered(old(rd.plan), buf.Length);
        && rd.plan == rest && m >= 0
        && n == Min(p.Length, m) && p[..n] == bytes[..n]
        && (if m == 0 then err.None? && fail == (if e.None? then None else Some(Of(e.value)))
            else fail.None? && err == e && buf[r..w] == bytes[n..])
    {
      hide All, Proper, EndsWith, Ahead, Answered;
      assert buf[r..w] == [] && buf[0..0] == [];
      r, w := 0, 0;
      var e;
      n, e := ReadOnce();
      if n == 0 {
        fail := if e.None? then None else Some(Of(e.value));
        return 0, fail;
      }
      if e.Some? {
        SetErr(e.value);
      }
      ghost var window := buf[r..w];
      n := CopyOut(p);
      assert window[n..] == buf[r..w];
      return n, None;
    }

    method CopyOut(p: array<byte>) returns (n: nat)
      requires Core() && p != buf && r < w && p.Length > 0
      modifies this, p
      ensures Valid() && n == Min(p.Length, old(w - r)) && taken == old(taken) + p[..n]
      ensures old(buf[r..w]) == p[..n] + buf[r..w] && err == old(err)
      ensures n > 0 && Recalls(Last(p[..n]))
      ensures old(Coming()) == Before(p[..n], Coming())
    {
      hide All, Proper, EndsWith, Sound, Stream, Ahead, Memory, Coming;
      var data := Consume(Min(p.Length, w - r));
      Remember(data, -1);
      CopyTo(p, 0, data);
      return |data|;
    }

    method ReadDirect(p: array<byte>) returns (n: nat)
      requires Valid() && p != buf && r == w && err.None?
      modifies this`taken, this`err, this`lastByte, this`lastRuneSize, this`stale, rd, p
      ensures Valid() && n <= p.Length && taken == old(taken) + p[..n]
      ensures (n, p[..n], err, rd.plan) == Answered(old(rd.plan), p.Length)
      ensures if n > 0 then Recalls(Last(p[..n])) else Undisturbed()
    {
      hide All, Proper, Answered, EndsWith, Sound, Stream, Ahead;
      var e;
      n, e := TakeFrom(p);
      if e.Some? {
        SetErr(e.value);
      }
      if n > 0 {
        RememberDirect(p, n);
      } else {
        assert p[..n] == [] && taken == old(taken);
      }
    }

    // One Read of the source past the empty window.
    method TakeFrom(p: array<byte>) returns (n: nat, e: Option<Error>)
      requires Core() && p != buf && r == w
      modifies this`taken, rd, p
      ensures Core() && n <= p.Length && taken == old(taken) + p[..n]
      ensures (n, p[..n], e, rd.plan) == Answered(old(rd.plan), p.Length)
    {
      hide All, Size, Proper, Answered, Conserves;
      AnsweredAll(rd.plan, p.Length);
      assert buf[r..w] == [];
      var count;
      count, e := rd.Read(p, 0);
      n := count;
      assert buf[r..w] == [];
      assert p[0..n] == p[..n];
      Arrive(whole, taken, [], p[..n], All(rd.plan));
      Leave(whole, taken, p[..n], [], All(rd.plan));
      assert [] + p[..n] == p[..n] + [];
      taken := taken + p[..n];
    }

    /** The first byte to come, or the source's error if there is none. */
    method ReadByte() returns (c: byte, fail: Option<Failure>)
      requires Valid()
      modifies this, buf, rd
      ensures Valid()
      ensures fail.None? ==> taken == old(taken) + [c] && Recalls(c as int) && old(Coming()) == Before([c], Coming())
      ensures fail.Some? ==> taken == old(taken) && r == w && old(Coming()).bytes == []
      ensures fail.Some? ==> fail == Some(Of(old(Coming()).end)) && err.None? && rd.plan == old(Coming()).after
      ensures fail.Some? ==> lastByte == old(lastByte) && lastRuneSize == -1
    {
      hide All, Proper, EndsWith, Sound, Stream, Ahead, Chunk, Memory, Coming, From;
      ForgetRune();
      while r == w
        invariant Core() && taken == old(taken) && lastByte == old(lastByte) && lastRuneSize == -1 && Coming() == old(Coming())
        invariant r == w ==> Memory()
        decreases r == w, err.None?
      {
        if err.Some? {
          assert buf[r..w] == [];
          fail := ReadErr();
          return 0, fail;
        }
        Fill();
      }
      var data := Consume(1);
      Remember(data, -1);
      assert data == [data[0]];
      return data[0], None;
    }

    /**
      Puts back the last byte read.  After a ReadLine that put a carriage return back,
      the byte restored is that carriage return, so the stream stays whole only if the
      byte before it was one too.
     */
    method UnreadByte() returns (fail: Option<Failure>)
      requires Valid()
      modifies this, buf
      ensures fail.None? <==> old(lastByte) >= 0
      ensures fail.Some? ==> Valid() && taken == old(taken) && Stream() == old(Stream()) && Coming() == old(Coming())
      ensures fail.Some? ==> Undisturbed() && r == old(r)
      ensures fail.None? ==> Recalls(-1)
      ensures fail.None? ==>
        && r <= w <= buf.Length
        && |old(taken)| > 0 && taken == old(taken)[..|old(taken)| - 1]
        && r < w && buf[r] == old(lastByte) && Stream() == [old(lastByte)] + old(Stream())
        && Coming() == Before([old(lastByte)], old(Coming()))
        && (Valid() <==> !(old(stale) && old(taken)[|old(taken)| - 1] != CR))
    {
      hide All, Proper, Ahead, From, Conserves;
      if lastByte < 0 || (r == 0 && w > 0) {
        return Some(InvalidUnread);
      }
      ghost var window := buf[r..w];
      if r > 0 {
        r := r - 1;
      } else {
        w := 1;
      }
      buf[r] := lastByte;
      assert buf[r..w] == [lastByte] + window;
      Reassociate([lastByte as byte], window, All(rd.plan));
      FromBoth([lastByte], window);
      PutBack(whole, taken, lastByte, window, All(rd.plan));
      taken := taken[..|taken| - 1];
      lastByte, lastRuneSize, stale := -1, -1, false;
      return None;
    }

    /** The first rune to come, however its bytes arrive, or the source's error if there
        is nothing. */
    method ReadRune() returns (rune: int, size: nat, fail: Option<Failure>)
      requires Valid()
      modifies this, buf, rd
      ensures Valid()
      ensures fail.None? ==>
        var ahead := old(Coming());
        && ahead.bytes != [] && size == Utf8.Width(ahead.bytes) && rune == Utf8.Rune(ahead.bytes)
        && taken == old(taken) + ahead.bytes[..size] && ahead == Before(ahead.bytes[..size], Coming())
        && r >= size == lastRuneSize && lastByte == ahead.bytes[size - 1] as int && !stale
      ensures fail.Some? ==> size == 0 && taken == old(taken) && r == w && old(Coming()).bytes == []
      ensures fail.Some? ==> fail == Some(Of(old(Coming()).end)) && err.None? && rd.plan == old(Coming()).after
      ensures fail.Some? ==> lastByte == old(lastByte) && lastRuneSize == -1
    {
      hide All, Proper, EndsWith, Sound, Stream, Ahead, Utf8.Width, Utf8.Rune;
      AwaitRune();
      if r == w {
        assert buf[r..w] == [];
        ForgetRune();
        fail := ReadErr();
        return 0, 0, fail;
      }
      rune, size := TakeRune();
      return rune, size, None;
    }

    // Reads on until the window starts with a whole rune.
    method AwaitRune()
      requires Valid()
      modifies this`r, this`w, this`err, buf, rd
      ensures Core() && (r == w ==> Memory() && err.Some?)
      ensures r < w && err.None? ==> Utf8.FullRune(buf[r..w]) || w - r >= 4
      ensures Coming() == old(Coming())
    {
      hide All, Proper, EndsWith, Sound, Stream, Ahead, Chunk, Utf8.FullRune, Memory, Coming;
      NotFullYet();
      while r + 4 > w && !Utf8.FullRune(buf[r..w]) && err.None? && w - r < buf.Length
        invariant Core() && (r == w ==> Memory()) && Coming() == old(Coming())
        invariant r == w ==> !Utf8.FullRune(buf[r..w])
        decreases buf.Length - (w - r), err.None?
      {
        Fill();
        NotFullYet();
      }
    }

    lemma NotFullYet()
      requires r <= w <= buf.Length
      ensures r == w ==> !Utf8.FullRune(buf[r..w])
    {
    }

    lemma FirstRune()
      requires r < w <= buf.Length
      ensures buf[r] < 0x80 ==> Utf8.Width(buf[r..w]) == 1 && Utf8.Rune(buf[r..w]) == buf[r]
      ensures Coming().bytes != []
      ensures Utf8.FullRune(buf[r..w]) || w - r >= 4 || err.Some? ==>
        Utf8.Width(Coming().bytes) == Utf8.Width(buf[r..w]) && Utf8.Rune(Coming().bytes) == Utf8.Rune(buf[r..w])
    {
      if Utf8.FullRune(buf[r..w]) || w - r >= 4 {
        Utf8.WidthIsStable(buf[r..w], Ahead(rd.plan, MAX_CONSECUTIVE_EMPTY_READS, MAX_CONSECUTIVE_EMPTY_READS).bytes);
      }
    }

    method TakeRune() returns (rune: int, size: nat)
      requires Core() && r < w
      requires err.None? ==> Utf8.FullRune(buf[r..w]) || w - r >= 4
      modifies this`r, this`taken, this`lastByte, this`lastRuneSize, this`stale
      ensures Valid()
      ensures
        var ahead := old(Coming());
        && ahead.bytes != [] && size == Utf8.Width(ahead.bytes) && rune == Utf8.Rune(ahead.bytes)
        && taken == old(taken) + ahead.bytes[..size] && ahead == Before(ahead.bytes[..size], Coming())
        && r >= size == lastRuneSize && lastByte == ahead.bytes[size - 1] as int && !stale
    {
      hide Utf8.Width, Utf8.Rune, Utf8.FullRune, All, Proper, EndsWith, Stream, Sound, Memory, Ahead;
      FirstRune();
      rune, size := buf[r], 1;
      if rune >= 0x80 {
        rune, size := Utf8.Rune(buf[r..w]), Utf8.Width(buf[r..w]);
      }
      WindowIsFront(size);
      var data := Consume(size);
      Remember(data, size);
    }

    /** Puts back the last rune read. */
    method UnreadRune() returns (fail: Option<Failure>)
      requires Valid()
      modifies this
      ensures Valid()
      ensures fail.None? <==> old(CanUnreadRune())
      ensures fail.Some? ==> Undisturbed() && r == old(r)
      ensures fail.None? ==> Recalls(-1)
      ensures fail.Some? ==> taken == old(taken) && Stream() == old(Stream()) && Coming() == old(Coming())
      ensures fail.None? ==>
        && old(lastRuneSize) <= |old(taken)|
        && taken == old(taken)[..|old(taken)| - old(lastRuneSize)]
        && Stream() == old(taken)[|old(taken)| - old(lastRuneSize)..] + old(Stream())
        && Coming() == Before(old(taken)[|old(taken)| - old(lastRuneSize)..], old(Coming()))
    {
      hide All, Proper, EndsWith, Ahead;
      if lastRuneSize < 0 || r < lastRuneSize {
        return Some(InvalidUnread);
      }
      GoBack(lastRuneSize);
      Forget();
      return None;
    }

    method GoBack(k: nat)
      requires Core() && 0 < k <= r && EndsWith(taken, buf[r - k..r])
      modifies this`r, this`taken
      ensures Core() && k <= |old(taken)| && taken == old(taken)[..|old(taken)| - k]
      ensures Stream() == old(taken)[|old(taken)| - k..] + old(Stream())
      ensures Coming() == Before(old(taken)[|old(taken)| - k..], old(Coming()))
    {
      hide All, Proper, EndsWith, Ahead, From, Conserves;
      Glue(buf, r - k, r, w);
      Restore(whole, taken, buf[r - k..r], buf[r..w], All(rd.plan));
      FromBoth(buf[r - k..r], buf[r..w]);
      taken := taken[..|taken| - k];
      r := r - k;
    }

    // Nothing is missed by searching only what has arrived since the last search.
    lemma Searched(lo: nat, mid: nat, delim: byte)
      requires lo <= mid <= w <= buf.Length && delim !in buf[lo..mid]
      ensures
        var i := IndexByte(buf[mid..w], delim);
        && (i < 0 ==> delim !in buf[lo..w])
        && (i >= 0 ==> Delimited(buf[lo..mid + i + 1], delim))
    {
      hide IndexByte, Delimited;
      var i := IndexByte(buf[mid..w], delim);
      FirstAfter(buf[lo..mid], buf[mid..w], delim);
      Glue(buf, lo, mid, w);
      if i >= 0 {
        Narrow(buf, lo, w, mid - lo + i + 1);
      }
    }

    // How a read up to delim ends: with it, with a full buffer, or with all that comes
    // before the source's error and that error.
    ghost predicate Outcome(ahead: Outlook, line: seq<byte>, fail: Option<Failure>, delim: byte)
      requires r <= w <= buf.Length
      reads this, buf, rd
    {
      match fail
      case None => Delimited(line, delim) && ahead == Before(line, Coming())
      case Some(f) =>
        && delim !in line
        && if f.BufferFull? then |line| == buf.Length && ahead == Before(line, Coming())
           else f == Of(ahead.end) && line == ahead.bytes && r == w && err.None? && rd.plan == ahead.after
    }

    /** Up to and including the delimiter; without it, all there is, and a failure. */
    method ReadSlice(delim: byte) returns (line: seq<byte>, fail: Option<Failure>)
      requires Valid()
      modifies this, buf, rd
      ensures Valid() && taken == old(taken) + line && |line| <= buf.Length
      ensures Outcome(old(Coming()), line, fail, delim)
      ensures fail == Some(BufferFull) ==> line == buf[..] && r == w == buf.Length
      ensures if line != [] then Recalls(Last(line)) && r > 0 else TookNothing()
    {
      hide All, Proper, IndexByte, Delimited, EndsWith, Sound, Stream, Memory, Ahead, Coming, From;
      var i := Seek(delim);
      if i >= 0 {
        line := TakeFront(i + 1);
        fail := None;
      } else if err.Some? {
        line, fail := TakeRest();
      } else {
        assert buf[r..w] == buf[..];
        line := TakeFront(w - r);
        fail := Some(BufferFull);
      }
    }

    // Hands out the window and the error behind it.
    method TakeRest() returns (line: seq<byte>, fail: Option<Failure>)
      requires Core() && err.Some? && (r == w ==> Memory())
      modifies this
      ensures Valid() && line == old(buf[r..w]) == old(Coming()).bytes && taken == old(taken) + line
      ensures fail == Some(Of(old(Coming()).end)) && err.None? && rd.plan == old(Coming()).after
      ensures r == w == old(w)
      ensures if line != [] then Recalls(Last(line)) && r > 0 else Undisturbed()
    {
      hide All, Proper, EndsWith, Sound, Stream, Memory, Ahead, Coming, From;
      WindowIsFront(w - r);
      line := TakeFront(w - r);
      fail := ReadErr();
    }

    // Hands out k bytes and remembers the last, if there is one.
    method TakeFront(k: nat) returns (line: seq<byte>)
      requires Core() && k <= w - r && (k == 0 ==> Memory())
      modifies this`r, this`taken, this`lastByte, this`lastRuneSize, this`stale
      ensures Valid() && line == old(buf[r..r + k]) && taken == old(taken) + line && r == old(r) + k
      ensures old(Coming()) == Before(line, Coming())
      ensures if line != [] then Recalls(Last(line)) && r > 0 else Undisturbed()
    {
      hide All, Proper, EndsWith, Sound, Stream, Ahead, From;
      if k == 0 {
        FromBoth([], buf[r..w]);
        assert [] + buf[r..w] == buf[r..w] && taken == taken + [];
        return [];
      }
      hide Memory;
      line := Consume(k);
      Narrow(buf, old(r), w, k);
      Remember(line, -1);
    }

    /**
      One line without its end.  The bytes taken, raw, are the line and its end, or the
      last of what comes before an error; a line longer than the buffer comes in pieces,
      and a carriage return at the end of a piece is put back, which leaves lastByte
      stale.  An error is reported only when nothing comes before it.
     */
    method ReadLine() returns (line: seq<byte>, isPrefix: bool, fail: Option<Failure>, ghost raw: seq<byte>)
      requires Valid()
      modifies this, buf, rd
      ensures Valid() && taken == old(taken) + raw && |raw| <= buf.Length && LF !in line
      ensures isPrefix ==> fail.None? && raw == line
      ensures isPrefix ==> old(Coming()) == Before(line, Coming()) && FullWithout(old(Coming()).bytes, LF)
      ensures isPrefix ==> |line| == if old(Coming()).bytes[buf.Length - 1] == CR then buf.Length - 1 else buf.Length
      ensures !isPrefix ==> line == Trimmed(raw)
      ensures !isPrefix && LF in raw ==> fail.None? && Delimited(raw, LF) && old(Coming()) == Before(raw, Coming())
      ensures !isPrefix && LF !in raw ==>
        raw == old(Coming()).bytes && fail == if raw == [] then Some(Of(old(Coming()).end)) else None
      ensures !isPrefix && LF !in raw ==> r == w && err.None? && rd.plan == old(Coming()).after
      ensures isPrefix ==> lastByte == old(Coming()).bytes[buf.Length - 1] as int && lastRuneSize == -1
      ensures isPrefix ==> (stale <==> |line| == buf.Length - 1)
      ensures !isPrefix ==> if raw != [] then Recalls(Last(raw)) else TookNothing()
    {
      hide Sound, Stream, All, EndsWith, Ahead, Memory, Coming, Delimited;
      line, fail := ReadSlice(LF);
      raw := line;
      if fail == Some(BufferFull) {
        line := Piece(line, old(Coming()), old(taken));
        return line, true, None, line;
      }
      TrimmedClean(raw, fail.None?);
      if line == [] {
        return line, false, fail, raw;
      }
      if line[|line| - 1] == LF {
        var drop := 1;
        if |line| > 1 && line[|line| - 2] == CR {
          drop := 2;
        }
        line := line[..|line| - drop];
      }
      return line, false, None, raw;
    }

    // A full buffer without a newline; a carriage return at its end goes back.
    method Piece(full: seq<byte>, ghost ahead: Outlook, ghost before: seq<byte>) returns (line: seq<byte>)
      requires Valid() && full == buf[..] && r == w == buf.Length && LF !in full
      requires taken == before + full && ahead == Before(full, Coming())
      requires Recalls(Last(full))
      modifies this`r, this`taken, this`stale
      ensures Valid() && taken == before + line && ahead == Before(line, Coming())
      ensures LF !in line && FullWithout(ahead.bytes, LF)
      ensures |line| == if ahead.bytes[buf.Length - 1] == CR then buf.Length - 1 else buf.Length
      ensures lastByte == ahead.bytes[buf.Length - 1] as int && (stale <==> |line| == buf.Length - 1)
    {
      hide Sound, Stream, All, EndsWith, Ahead, Memory, Coming;
      BufferIsFull(full, Coming());
      line := full;
      if line[|line| - 1] == CR {
        Suffix(before, full);
        DropLast(before, full);
        ghost var after := Coming();
        Rewind(full);
        line := line[..|line| - 1];
        BeforeBoth(line, [CR], after);
      }
    }

    // Nothing but the buffer's size cuts a piece.
    predicate FullWithout(bytes: seq<byte>, delim: byte) {
      |bytes| >= buf.Length && delim !in bytes[..buf.Length]
    }

    lemma BufferIsFull(line: seq<byte>, rest: Outlook)
      requires |line| == buf.Length && LF !in line
      ensures FullWithout(Before(line, rest).bytes, LF) && Before(line, rest).bytes[..|line|] == line
    {
      assert Before(line, rest).bytes[..buf.Length] == line;
    }

    // Puts the carriage return at the end of a full buffer back.
    method Rewind(line: seq<byte>)
      requires Valid() && line == buf[..] && r == w == buf.Length && EndsWith(taken, line)
      requires lastByte == CR == line[|line| - 1] as int && lastRuneSize == -1
      modifies this`r, this`taken, this`stale
      ensures Valid() && stale && taken == old(taken)[..|old(taken)| - 1]
      ensures Coming() == Before([CR], old(Coming()))
    {
      hide All, Proper, Ahead;
      ghost var rest := All(rd.plan);
      assert buf[r..w] == [];
      r := r - 1;
      assert buf[r..w] == [CR];
      FromBoth([CR], []);
      PutBack(whole, taken, CR, [], rest);
      assert [CR] + [] == [CR];
      taken := taken[..|taken| - 1];
      stale := true;
    }

    // Reads until delim, keeping each full buffer on the way.
    method CollectFragments(delim: byte)
      returns (full: seq<seq<byte>>, frag: seq<byte>, total: nat, fail: Option<Failure>)
      requires Valid()
      modifies this, buf, rd
      ensures Valid() && taken == old(taken) + (Flatten(full) + frag)
      ensures total == |Flatten(full) + frag|
      ensures
        var line := Flatten(full) + frag;
        if line != [] then Recalls(Last(line)) else TookNothing()
      ensures Outcome(old(Coming()), Flatten(full) + frag, fail, delim) && fail != Some(BufferFull)
    {
      hide All, Proper, EndsWith, Sound, Stream, Memory, Delimited, Ahead, Flatten, Last;
      ghost var ahead, before := Coming(), taken;
      BeforeBoth([], [], ahead);
      NothingFlat();
      assert before + [] == before;
      full, total := [], 0;
      while true
        invariant Valid() && taken == before + Flatten(full) && total == |Flatten(full)|
        invariant delim !in Flatten(full) && ahead == Before(Flatten(full), Coming())
        invariant
          var line := Flatten(full);
          if line != [] then Recalls(Last(line)) && r > 0 else Undisturbed() && r == old(r) && err == old(err)
        decreases |Coming().bytes|
      {
        ghost var front, coming := Flatten(full), Coming();
        frag, fail := ReadSlice(delim);
        Reassociate(before, front, frag);
        BeforeBoth(front, frag, Coming());
        LastOf(front, frag);
        FlattenSnoc(full, frag);
        if fail != Some(BufferFull) {
          if fail.None? {
            StillDelimited(front, frag, delim);
          }
          break;
        }
        full := full + [frag];
        total := total + |frag|;
      }
      total := total + |frag|;
    }

    /**
      The shortest prefix of what comes that ends in delim; or all that comes before the
      source's error, and that error, when it does not contain delim.
     */
    method ReadBytes(delim: byte) returns (line: array<byte>, fail: Option<Failure>)
      requires Valid()
      modifies this, buf, rd
      ensures Valid() && fresh(line) && taken == old(taken) + line[..]
      ensures Outcome(old(Coming()), line[..], fail, delim) && fail != Some(BufferFull)
      ensures if line.Length > 0 then Recalls(Last(line[..])) else TookNothing()
    {
      hide All, Proper, EndsWith, Sound, Stream, Memory, Delimited, Flatten, Ahead, Last;
      var full, frag, n;
      full, frag, n, fail := CollectFragments(delim);
      ghost var coming := Coming();
      line := Assemble(full, frag, n);
      assert Coming() == coming;
    }

    // Looks for delim behind the s bytes searched before.
    method Search(s: nat, delim: byte) returns (i: int)
      requires r + s <= w <= buf.Length && delim !in buf[r..r + s]
      ensures -1 <= i < w - r
      ensures if i >= 0 then Delimited(buf[r..r + i + 1], delim) else delim !in buf[r..w]
    {
      hide IndexByte, Delimited;
      i := IndexByte(buf[r + s..w], delim);
      Searched(r, r + s, delim);
      if i >= 0 {
        i := s + i;
      }
    }

    // Fill, as far as a search needs to know.
    method FillBehind()
      requires Core() && w - r < buf.Length && err.None? && (r == w ==> Memory())
      modifies this`r, this`w, this`err, buf, rd
      ensures Core() && r == 0 && w >= old(w - r) && buf[r..r + old(w - r)] == old(buf[r..w])
      ensures err.Some? || w > old(w - r)
      ensures Coming() == old(Coming()) && (r == w ==> Memory())
    {
      hide All, Proper, EndsWith, Sound, Stream, Ahead, Chunk, Memory, Coming, From;
      ghost var window := buf[r..w];
      Fill();
      Narrow(buf, r, w, |window|);
      assert buf[r..r + |window|] == window;
    }

    // Fills until the window holds delim, an error is pending or the buffer is full.
    method Seek(delim: byte) returns (i: int)
      requires Valid()
      modifies this`r, this`w, this`err, buf, rd
      ensures Core() && (r == w ==> Memory())
      ensures -1 <= i < w - r
      ensures i >= 0 ==> Delimited(buf[r..r + i + 1], delim)
      ensures i < 0 ==> delim !in buf[r..w] && (err.Some? || w - r == buf.Length)
      ensures Coming() == old(Coming())
      ensures r == w ==> r == if old(err).Some? then old(r) else 0
    {
      hide All, Proper, IndexByte, Delimited, EndsWith, Sound, Stream, Ahead, Memory, Coming, From;
      var s: nat := 0;
      ghost var filled := false;
      while true
        invariant Core() && (r == w ==> Memory()) && Coming() == old(Coming())
        invariant s <= w - r && delim !in buf[r..r + s]
        invariant if filled then r == 0 && old(err).None? else r == old(r) && err == old(err)
        decreases buf.Length - (w - r), err.None?
      {
        i := Search(s, delim);
        if i >= 0 {
          return;
        }
        if err.Some? || w - r >= buf.Length {
          return;
        }
        s := w - r;
        FillBehind();
        filled := true;
      }
    }
  }

  /**
    Sixteen bytes that end in a carriage return, and more: ReadLine takes the first
    fifteen, and UnreadByte, which promises the last of them, restores the carriage
    return in its place.
   */
  method StaleUnread() returns (line: seq<byte>, next: byte)
    ensures |line| == 15 && (forall i :: 0 <= i < 15 ==> line[i] == 97) && next == CR
  {
    line, next := UnreadLastOf(seq(15, _ => 97) + [CR, 98]);
  }

  method UnreadLastOf(text: seq<byte>) returns (line: seq<byte>, next: byte)
    requires |text| == 17 && LF !in text && text[14] != CR == text[15]
    ensures line == text[..15] && next == CR
  {
    hide All, Rest, Size, Ahead;
    OneChunk(text, MAX_CONSECUTIVE_EMPTY_READS);
    var source := new Source([Good(text, None)]);
    var reader := new Reader(source, 16);
    line, next := UnreadAfterPiece(reader, text);
  }

  method UnreadAfterPiece(reader: Reader, ghost text: seq<byte>) returns (line: seq<byte>, next: byte)
    requires reader.Valid() && reader.taken == [] && reader.buf.Length == 16 && reader.Coming().bytes == text
    requires |text| == 17 && LF !in text && text[14] != CR == text[15]
    modifies reader, reader.buf, reader.rd
    ensures line == text[..15] && next == CR && !reader.Valid()
  {
    hide All, Ahead, Delimited;
    line := FirstPiece(reader, text);
    var fail := reader.UnreadByte();
    next := reader.buf[reader.r];
  }

  method FirstPiece(reader: Reader, ghost text: seq<byte>) returns (line: seq<byte>)
    requires reader.Valid() && reader.taken == [] && reader.buf.Length == 16 && reader.Coming().bytes == text
    requires |text| == 17 && LF !in text && text[15] == CR
    modifies reader, reader.buf, reader.rd
    ensures reader.Valid() && line == text[..15] == reader.taken && reader.stale && reader.lastByte == CR as int
  {
    hide All, Ahead;
    var isPrefix, fail;
    ghost var raw;
    line, isPrefix, fail, raw := reader.ReadLine();
    assert isPrefix;
    assert text[..15] == line;
    assert [] + line == line;
  }

  /**
    One byte that comes with an error: after Read has taken the byte, the error is
    pending, and a Discard reads past it and reports EOF in its place.
   */
  method LostError(b: byte, e: Error) returns (fail: Option<Failure>)
    ensures fail == Some(Of(EOF))
  {
    hide All, Rest, Size, Ahead;
    var source := new Source([Good([b], Some(e))]);
    var reader := new Reader(source, 16);
    var p := new byte[1];
    var n, f := reader.Read(p);
    assert Answered([Good([b], Some(e))], 16) == (1, [b], Some(e), []);
    assert reader.Overlooks() && reader.err == Some(e) && reader.rd.plan == [];
    assert Chunk([], 16, MAX_CONSECUTIVE_EMPTY_READS) == ([], Some(EOF), []);
    n, fail := reader.Discard(1);
  }

  /**
    One call, whichever it is: UnreadRune, which promises to fail unless the last call
    was a ReadRune, would succeed after it if and only if it is a ReadRune that finds
    something, or UnreadRune would have succeeded before and the call passes.  Only an
    UnreadByte that puts back another byte than the last one breaks the invariant.
   */
  method Perform(reader: Reader, call: Call)
    requires reader.Valid()
    modifies reader, reader.buf, reader.rd
    ensures reader.CanUnreadRune() <==>
      if call.ReadRune? then old(reader.Coming()).bytes != []
      else old(reader.CanUnreadRune()) && old(reader.Passes(call))
    ensures reader.Valid() <==> !(call.UnreadByte? && old(reader.stale && reader.taken[|reader.taken| - 1] != CR))
  {
    hide All, Ahead, Proper, EndsWith, reader.Sound;
    var n, rune, fail;
    match call
    case ReadByte => var c; c, fail := reader.ReadByte();
    case UnreadByte => fail := reader.UnreadByte();
    case ReadRune => rune, n, fail := reader.ReadRune();
    case UnreadRune => fail := reader.UnreadRune();
    case Peek(k) => var data; data, fail := reader.Peek(k);
    case Discard(k) => n, fail := reader.Discard(k);
    case _ => PerformRead(reader, call);
  }

  method PerformRead(reader: Reader, call: Call)
    requires reader.Valid() && (call.Read? || call.ReadSlice? || call.ReadLine? || call.ReadBytes?)
    modifies reader, reader.buf, reader.rd
    ensures reader.CanUnreadRune() <==> old(reader.CanUnreadRune()) && old(reader.Passes(call))
    ensures reader.Valid()
  {
    match call
    case Read(size) =>
      var p := new byte[size];
      var n, fail := reader.Read(p);
    case ReadSlice(delim) => var line, fail := reader.ReadSlice(delim);
    case ReadBytes(delim) => var line, fail := reader.ReadBytes(delim);
    case ReadLine =>
      var line, isPrefix, fail;
      ghost var raw;
      line, isPrefix, fail, raw := reader.ReadLine();
  }

  /** After a ReadRune, a Read into an empty slice does not keep UnreadRune from
      succeeding, whatever the input. */
  method UnreadAfterRead(reader: Reader) returns (fail: Option<Failure>)
    requires reader.Valid() && reader.Coming().bytes != []
    modifies reader, reader.buf, reader.rd
    ensures fail.None? && reader.Valid() && reader.taken == old(reader.taken)
  {
    hide All, Ahead, Proper, EndsWith, Utf8.Width, Utf8.Rune;
    var rune, size;
    rune, size, fail := reader.ReadRune();
    var n;
    var p := new byte[0];
    n, fail := reader.Read(p);
    fail := reader.UnreadRune();
  }

  /** A byte after k empty answers is read if there are fewer than a hundred. */
  method ReadPatiently(k: nat, b: byte) returns (c: byte, fail: Option<Failure>)
    ensures k < 100 ==> fail.None? && c == b
    ensures k >= 100 ==> fail == Some(Of(ErrNoProgress))
  {
    hide All, Ahead, Proper, Empties;
    var plan := Empties(k) + [Good([b], None)];
    EmptyAnswers(k, [Good([b], None)], 100, 100);
    AheadOfOne(b, 100, 100 - k);
    assert Proper([Good([b], None)]) by { ProperOne(b); }
    EmptiesProper(k, [Good([b], None)]);
    var source := new Source(plan);
    var reader := new Reader(source, 16);
    ghost var ahead := reader.Coming();
    c, fail := reader.ReadByte();
    assert fail.None? ==> ahead.bytes[0] == c;
    assert k < 100 ==> ahead.bytes[0] == [b][0];
  }

  lemma ProperOne(b: byte)
    ensures Proper([Good([b], None)])
  {
  }

  lemma AheadOfOne(b: byte, limit: nat, left: int)
    ensures left >= 0 ==> Ahead([Good([b], None)], limit, left).bytes == [b]
  {
    assert [Good([b], None)][1..] == [];
  }

  lemma OneChunk(text: seq<byte>, limit: nat)
    requires text != []
    ensures Ahead([Good(text, None)], limit, limit) == Outlook(text, EOF, [])
  {
    assert [Good(text, None)][1..] == [];
    assert Ahead([], limit, limit) == Outlook([], EOF, []);
    assert text + [] == text;
  }

  // What was taken last goes back in front of the window.
  lemma Restore(whole: seq<byte>, taken: seq<byte>, tail: seq<byte>, window: seq<byte>, rest: seq<byte>)
    requires EndsWith(taken, tail) && Conserves(whole, taken, window, rest)
    ensures |tail| <= |taken| && taken[|taken| - |tail|..] == tail
    ensures Conserves(whole, taken[..|taken| - |tail|], tail + window, rest)
    ensures (tail + window) + rest == tail + (window + rest)
  {
    var front := taken[..|taken| - |tail|];
    assert taken == front + tail;
    hide Conserves;
    Leave(whole, front, tail, window, rest);
    Reassociate(tail, window, rest);
  }

  lemma FirstAfter(front: seq<byte>, back: seq<byte>, delim: byte)
    requires delim !in front
    ensures
      var i := IndexByte(back, delim);
      && (i < 0 ==> delim !in front + back)
      && (i >= 0 ==> Delimited((front + back)[..|front| + i + 1], delim))
  {
    var i := IndexByte(back, delim);
    hide IndexByte;
    if i >= 0 {
      var line := (front + back)[..|front| + i + 1];
      assert line[..|line| - 1] == front + back[..i];
    }
  }

  lemma StillDelimited(front: seq<byte>, line: seq<byte>, delim: byte)
    requires delim !in front && Delimited(line, delim)
    ensures Delimited(front + line, delim)
  {
    var all := front + line;
    assert all[..|all| - 1] == front + line[..|line| - 1];
  }

  // Some byte goes back in place of the last: all is well only if it is the same.
  lemma PutBack(whole: seq<byte>, taken: seq<byte>, c: byte, window: seq<byte>, rest: seq<byte>)
    requires taken != [] && Conserves(whole, taken, window, rest)
    ensures Conserves(whole, taken[..|taken| - 1], [c] + window, rest) <==> c == taken[|taken| - 1]
  {
    var front, last := taken[..|taken| - 1], taken[|taken| - 1];
    assert taken == front + [last];
    assert whole[|front|] == last;
    if c == last {
      Leave(whole, front, [last], window, rest);
    } else {
      assert (front + (([c] + window) + rest))[|front|] == c;
    }
  }
}
