/**
  bufio.Writer over a sink that takes what it likes of each write.
 */
module Writer {
  import opened Bytes
  import Utf8

  const DEFAULT_BUF_SIZE: nat := 4096

  datatype Error = ErrShortWrite | Custom(code: int)

  // How much of a write the sink will take at most, and the error it will report.
  datatype Answer = Answer(room: nat, err: Option<Error>)

  // One call of the sink: what it was offered, how much it took, and its error.
  datatype Call = Call(p: seq<byte>, n: nat, err: Option<Error>)

  class Sink {
    var got: seq<byte>
    var plan: seq<Answer>
    ghost var log: seq<Call>

    constructor (plan: seq<Answer>)
      ensures this.plan == plan && got == [] && log == []
    {
      this.plan := plan;
      got := [];
      log := [];
    }

    // A plan that has ended takes everything.
    method Write(p: seq<byte>) returns (n: nat, err: Option<Error>)
      modifies this
      ensures n <= |p| && got == old(got) + p[..n] && log == old(log) + [Call(p, n, err)]
      ensures Follows(old(plan), [Call(p, n, err)], plan)
    {
      if plan == [] {
        n, err := |p|, None;
      } else {
        n, err := Min(plan[0].room, |p|), plan[0].err;
        plan := plan[1..];
      }
      got := got + p[..n];
      log := log + [Call(p, n, err)];
    }
  }

  // A call after which a writer with a buffer of this size goes on: a short one is an
  // error of its own, unless more than the buffer was offered past it.
  predicate GoesOn(c: Call, size: nat) { c.err.None? && (c.n == |c.p| || |c.p| > size) }

  // The error that a call stops a writer with.
  function StoppedBy(c: Call): Option<Error> { if c.err.Some? then c.err else Some(ErrShortWrite) }

  // How calls end: with no error if and only if the writer could go on after each of
  // them, and otherwise with the error of the last.
  ghost predicate Explains(calls: seq<Call>, size: nat, err: Option<Error>) {
    var last := |calls| - 1;
    && (forall i :: 0 <= i < last ==> GoesOn(calls[i], size))
    && (err.None? ==> forall i :: 0 <= i < |calls| ==> GoesOn(calls[i], size))
    && (err.Some? ==> calls != [] && !GoesOn(calls[last], size) && err == StoppedBy(calls[last]))
  }

  // The calls are answered by the plan, which is used up to rest.
  ghost predicate Follows(plan: seq<Answer>, calls: seq<Call>, rest: seq<Answer>) {
    && rest == plan[Min(|calls|, |plan|)..]
    && (forall i :: 0 <= i < |calls| ==> AnsweredBy(calls[i], if i < |plan| then Some(plan[i]) else None))
  }

  predicate AnsweredBy(c: Call, a: Option<Answer>) {
    match a
    case None => c.n == |c.p| && c.err.None?
    case Some(answer) => c.n == Min(answer.room, |c.p|) && c.err == answer.err
  }

  lemma FollowsNext(plan: seq<Answer>, calls: seq<Call>, mid: seq<Answer>, more: seq<Call>, rest: seq<Answer>)
    requires Follows(plan, calls, mid) && Follows(mid, more, rest)
    ensures Follows(plan, calls + more, rest)
  {
    forall i | |calls| <= i < |calls + more|
      ensures AnsweredBy((calls + more)[i], if i < |plan| then Some(plan[i]) else None)
    {
      var k := i - |calls|;
      assert (calls + more)[i] == more[k];
      assert i < |plan| ==> k < |mid| && mid[k] == plan[i];
    }
  }

  /** A sink that takes everything stops nobody. */
  lemma NoErrorFromNowhere(calls: seq<Call>, rest: seq<Answer>, size: nat, err: Option<Error>)
    requires Follows([], calls, rest) && Explains(calls, size, err)
    ensures err.None? && rest == []
  {
    if err.Some? {
      assert AnsweredBy(calls[|calls| - 1], None);
    }
  }

  // The sink is offered a full buffer or more.
  ghost predicate Full(calls: seq<Call>, size: nat) { forall i :: 0 <= i < |calls| ==> |calls[i].p| >= size }

  // A call that follows others after which the writer could go on.
  lemma ExplainsNext(calls: seq<Call>, more: seq<Call>, size: nat, err: Option<Error>)
    requires Explains(calls, size, None) && Explains(more, size, err)
    ensures Explains(calls + more, size, err)
  {
  }

  class Writer {
    const buf: array<byte>
    var wr: Sink
    var n: nat
    var err: Option<Error>

    // What the sink held at the last Reset, and the bytes accepted since.
    ghost var base: seq<byte>
    ghost var accepted: seq<byte>

    /** The sink, then the buffer: exactly the bytes accepted, in order. */
    ghost predicate Valid()
      reads this, buf, wr
    {
      && 0 < buf.Length && n <= buf.Length
      && base + accepted == wr.got + buf[..n]
    }

    // What the sink was called with since its log was this, and what became of it: an
    // error is always the sink's doing.
    ghost function Since(log: seq<Call>): seq<Call>
      reads this`wr, wr
    {
      if |log| <= |wr.log| then wr.log[|log|..] else []
    }

    ghost predicate Told(log: seq<Call>, plan: seq<Answer>, before: Option<Error>)
      reads this`wr, this`err, wr
    {
      && log <= wr.log && Follows(plan, Since(log), wr.plan)
      && (if before.Some? then err == before && Since(log) == [] else Explains(Since(log), buf.Length, err))
    }

    // NewWriterSize.
    constructor (wr: Sink, size: int)
      ensures Valid() && fresh(buf) && this.wr == wr && err.None? && accepted == [] && base == wr.got
      ensures n == 0 && buf.Length == if size <= 0 then 4096 else size
    {
      this.wr := wr;
      buf := new byte[if size <= 0 then DEFAULT_BUF_SIZE else size];
      n, err := 0, None;
      base, accepted := wr.got, [];
    }

    /** Drops what is buffered and starts over on a sink. */
    method Reset(w: Sink)
      requires Valid()
      modifies this
      ensures Valid() && wr == w && err.None? && accepted == [] && base == w.got
    {
      err, n, wr := None, 0, w;
      base, accepted := w.got, [];
    }

    // copy(b.buf[b.n:], p)
    method Copy(p: seq<byte>) returns (k: nat)
      requires Valid()
      modifies this`n, this`accepted, buf
      ensures Valid() && k == Min(|p|, buf.Length - old(n)) && n == old(n) + k
      ensures accepted == old(accepted) + p[..k] && buf[..n] == old(buf[..n]) + p[..k]
    {
      k := Min(|p|, buf.Length - n);
      ghost var before := buf[..n];
      CopyTo(buf, n, p[..k]);
      assert buf[..n] == before;
      GlueFront(buf, n, n + k);
      Reassociate(base, accepted, p[..k]);
      Reassociate(wr.got, before, p[..k]);
      accepted := accepted + p[..k];
      n := n + k;
    }

    // b.wr.Write(p) with an empty buffer.
    method Forward(p: seq<byte>) returns (k: nat)
      requires Valid() && n == 0 && err.None? && |p| > buf.Length
      modifies this`err, this`accepted, wr
      ensures Valid() && k <= |p| && accepted == old(accepted) + p[..k]
      ensures Told(old(wr.log), old(wr.plan), old(err)) && |Since(old(wr.log))| == 1 && Since(old(wr.log))[0].p == p && Since(old(wr.log))[0].n == k
      ensures if old(wr.plan) == [] then k == |p| else |wr.plan| < |old(wr.plan)|
    {
      assert buf[..n] == [];
      k, err := wr.Write(p);
      Reassociate(base, accepted, p[..k]);
      accepted := accepted + p[..k];
    }

    /**
      Hands the buffer to the sink.  On success the sink holds everything accepted; on
      failure what it did not take stays buffered.
     */
    method Flush() returns (e: Option<Error>)
      requires Valid()
      modifies this`n, this`err, buf, wr
      ensures Valid() && e == err && accepted == old(accepted) && base == old(base)
      ensures old(err).Some? ==> err == old(err) && wr.got == old(wr.got)
      ensures err.None? ==> n == 0 && wr.got == base + accepted
      ensures Told(old(wr.log), old(wr.plan), old(err)) && |Since(old(wr.log))| == (if old(err).None? && old(n) > 0 then 1 else 0)
      ensures Since(old(wr.log)) != [] ==> Since(old(wr.log))[0].p == old(buf[..n])
      ensures Since(old(wr.log)) != [] ==> if old(wr.plan) == [] then n == 0 && wr.plan == [] else |wr.plan| < |old(wr.plan)|
      ensures err.Some? && Since(old(wr.log)) != [] ==> buf[..n] == old(buf[..n])[Since(old(wr.log))[0].n..]
    {
      if err.Some? {
        return err;
      }
      if n == 0 {
        assert buf[..n] == [];
        return None;
      }
      ghost var held, got := buf[..n], wr.got;
      var k;
      k, e := wr.Write(buf[..n]);
      assert held == held[..k] + held[k..];
      Reassociate(got, held[..k], held[k..]);
      if k < n && e.None? {
        e := Some(ErrShortWrite);
      }
      if e.Some? {
        if 0 < k < n {
          CopyTo(buf, 0, buf[k..n]);
        }
        n := n - k;
        assert buf[..n] == held[k..];
        err := e;
        return e;
      }
      n := 0;
      assert held[k..] == [] && buf[..n] == [];
      return None;
    }

    // What the sink is offered first when p does not fit: p itself past an empty buffer,
    // or a full buffer.
    ghost function Offer(p: seq<byte>, direct: bool): seq<byte>
      requires n <= buf.Length && |p| > buf.Length - n
      reads this, buf
    {
      if direct && n == 0 then p else buf[..n] + p[..buf.Length - n]
    }

    // One round of the loops below: what is left of p goes past an empty buffer, or fills
    // the buffer, which is flushed.
    method Round(p: seq<byte>, direct: bool) returns (k: nat)
      requires Valid() && err.None? && |p| > buf.Length - n
      modifies this`n, this`err, this`accepted, buf, wr
      ensures Valid() && k <= |p| && accepted == old(accepted) + p[..k]
      ensures Told(old(wr.log), old(wr.plan), None) && |Since(old(wr.log))| == 1 && Full(Since(old(wr.log)), buf.Length)
      ensures Since(old(wr.log))[0].p == old(Offer(p, direct))
      ensures k == 0 ==> |wr.plan| < |old(wr.plan)| || (wr.plan == old(wr.plan) && n < old(n))
    {
      hide Follows, Explains, Told, GoesOn;
      if n == 0 && direct {
        assert buf[..n] == [];
        k := Forward(p);
      } else {
        k := Copy(p);
        var _ := Flush();
      }
    }

    // The same after other calls.
    method NextRound(p: seq<byte>, direct: bool, ghost log: seq<Call>, ghost plan: seq<Answer>) returns (k: nat)
      requires Valid() && err.None? && |p| > buf.Length - n
      requires Told(log, plan, None) && Full(Since(log), buf.Length)
      modifies this`n, this`err, this`accepted, buf, wr
      ensures Valid() && k <= |p| && accepted == old(accepted) + p[..k]
      ensures Told(log, plan, None) && Full(Since(log), buf.Length) && Since(log) != []
      ensures if old(Since(log)) == [] then Since(log)[0].p == old(Offer(p, direct)) else Since(log)[0] == old(Since(log))[0]
      ensures k == 0 ==> |wr.plan| < |old(wr.plan)| || (wr.plan == old(wr.plan) && n < old(n))
    {
      hide Follows, Explains, Valid;
      ghost var calls, mid := Since(log), wr.plan;
      k := Round(p, direct);
      ToldMore(log, plan, calls, mid, Since(old(wr.log)));
    }

    // What calls add to what the sink was told before.
    lemma ToldMore(log: seq<Call>, plan: seq<Answer>, calls: seq<Call>, mid: seq<Answer>, more: seq<Call>)
      requires wr.log == log + calls + more
      requires Explains(calls, buf.Length, None) && Follows(plan, calls, mid)
      requires Explains(more, buf.Length, err) && Follows(mid, more, wr.plan)
      ensures Told(log, plan, None) && Since(log) == calls + more
    {
      hide Follows, Explains;
      assert wr.log == log + (calls + more);
      ExplainsNext(calls, more, buf.Length, err);
      FollowsNext(plan, calls, mid, more, wr.plan);
    }

    lemma ToldNothing()
      ensures Told(wr.log, wr.plan, err) && Since(wr.log) == [] && Full([], buf.Length)
    {
    }

    /**
      Accepts p: all of it, unless an error stops it.  The sink is called only when the
      buffer is full, and a writer that has failed touches it no more.
     */
    method Write(p: seq<byte>) returns (nn: nat, e: Option<Error>)
      requires Valid()
      modifies this`n, this`err, this`accepted, buf, wr
      ensures Valid() && e == err && nn <= |p| && accepted == old(accepted) + p[..nn]
      ensures e.None? ==> nn == |p|
      ensures old(err).Some? ==> err == old(err) && nn == 0 && wr.got == old(wr.got)
      ensures Told(old(wr.log), old(wr.plan), old(err)) && Full(Since(old(wr.log)), buf.Length)
      ensures Since(old(wr.log)) == [] <==> old(err).Some? || |p| <= buf.Length - old(n)
      ensures Since(old(wr.log)) != [] ==> Since(old(wr.log))[0].p == old(Offer(p, true))
    {
      hide Told, Since, Full;
      ToldNothing();
      nn := 0;
      while |p| - nn > buf.Length - n && err.None?
        invariant Valid() && nn <= |p| && accepted == old(accepted) + p[..nn]
        invariant Told(old(wr.log), old(wr.plan), old(err)) && Full(Since(old(wr.log)), buf.Length)
        invariant Since(old(wr.log)) == [] ==> nn == 0 && n == old(n) && err == old(err) && wr.got == old(wr.got)
        invariant Since(old(wr.log)) != [] ==> old(err).None? && |p| > buf.Length - old(n)
        invariant Since(old(wr.log)) == [] ==> buf[..n] == old(buf[..n])
        invariant Since(old(wr.log)) != [] ==> Since(old(wr.log))[0].p == old(Offer(p, true))
        decreases |p| - nn, |wr.plan|, n
      {
        var k := NextRound(p[nn..], true, old(wr.log), old(wr.plan));
        Extend(old(accepted), p, nn, k);
        nn := nn + k;
      }
      if err.Some? {
        return nn, err;
      }
      var k := Copy(p[nn..]);
      Extend(old(accepted), p, nn, k);
      nn := nn + k;
      return nn, None;
    }

    /** The same for a string, which goes straight to the sink only if that takes strings. */
    method WriteString(s: seq<byte>, stringWriter: bool) returns (nn: nat, e: Option<Error>)
      requires Valid()
      modifies this`n, this`err, this`accepted, buf, wr
      ensures Valid() && e == err && nn <= |s| && accepted == old(accepted) + s[..nn]
      ensures e.None? ==> nn == |s|
      ensures old(err).Some? ==> err == old(err) && nn == 0 && wr.got == old(wr.got)
      ensures Told(old(wr.log), old(wr.plan), old(err)) && Full(Since(old(wr.log)), buf.Length)
      ensures Since(old(wr.log)) == [] <==> old(err).Some? || |s| <= buf.Length - old(n)
      ensures Since(old(wr.log)) != [] ==> Since(old(wr.log))[0].p == old(Offer(s, stringWriter))
    {
      hide Told, Since, Full;
      ToldNothing();
      nn := 0;
      while |s| - nn > buf.Length - n && err.None?
        invariant Valid() && nn <= |s| && accepted == old(accepted) + s[..nn]
        invariant Told(old(wr.log), old(wr.plan), old(err)) && Full(Since(old(wr.log)), buf.Length)
        invariant Since(old(wr.log)) == [] ==> nn == 0 && n == old(n) && err == old(err) && wr.got == old(wr.got)
        invariant Since(old(wr.log)) != [] ==> old(err).None? && |s| > buf.Length - old(n)
        invariant Since(old(wr.log)) == [] ==> buf[..n] == old(buf[..n])
        invariant Since(old(wr.log)) != [] ==> Since(old(wr.log))[0].p == old(Offer(s, stringWriter))
        decreases |s| - nn, |wr.plan|, n
      {
        var k := NextRound(s[nn..], stringWriter, old(wr.log), old(wr.plan));
        Extend(old(accepted), s, nn, k);
        nn := nn + k;
      }
      if err.Some? {
        return nn, err;
      }
      var k := Copy(s[nn..]);
      Extend(old(accepted), s, nn, k);
      nn := nn + k;
      return nn, None;
    }

    method WriteByte(c: byte) returns (e: Option<Error>)
      requires Valid()
      modifies this`n, this`err, this`accepted, buf, wr
      ensures Valid() && e == err
      ensures accepted == if e.None? then old(accepted) + [c] else old(accepted)
      ensures old(err).Some? ==> err == old(err) && wr.got == old(wr.got)
      ensures Told(old(wr.log), old(wr.plan), old(err)) && Full(Since(old(wr.log)), buf.Length)
      ensures Since(old(wr.log)) == [] <==> old(err).Some? || old(n) < buf.Length
    {
      hide Told, Since, Follows, Explains;
      ToldNothing();
      if err.Some? {
        return err;
      }
      if buf.Length - n <= 0 {
        e := Flush();
        if e.Some? {
          return e;
        }
      }
      var k := Copy([c]);
      return None;
    }

    // WriteString after other calls.
    method WriteAfter(s: seq<byte>, stringWriter: bool, ghost log: seq<Call>, ghost plan: seq<Answer>)
      returns (nn: nat, e: Option<Error>)
      requires Valid() && err.None? && Told(log, plan, None)
      modifies this`n, this`err, this`accepted, buf, wr
      ensures Valid() && e == err && nn <= |s| && accepted == old(accepted) + s[..nn]
      ensures e.None? ==> nn == |s|
      ensures Told(log, plan, None)
    {
      hide Follows, Explains, Valid, Full;
      ghost var calls, mid := Since(log), wr.plan;
      nn, e := WriteString(s, stringWriter);
      ToldMore(log, plan, calls, mid, Since(old(wr.log)));
    }

    /** The encoding of a rune, whole or, with an error, possibly in part. */
    method WriteRune(r: int, stringWriter: bool) returns (size: nat, e: Option<Error>)
      requires Valid()
      modifies this`n, this`err, this`accepted, buf, wr
      ensures Valid() && e == err && size <= |Utf8.Encode(r)|
      ensures accepted == old(accepted) + Utf8.Encode(r)[..size]
      ensures e.None? ==> size == |Utf8.Encode(r)|
      ensures old(err).Some? ==> err == old(err) && wr.got == old(wr.got)
      ensures Told(old(wr.log), old(wr.plan), old(err))
      ensures old(n) + 4 <= buf.Length ==> Since(old(wr.log)) == []
    {
      var code := Utf8.Encode(r);
      if 0 <= r < 0x80 {
        assert code == [r] && code[..1] == code;
        e := WriteByte(r);
        size := if e.None? then 1 else 0;
        return;
      }
      hide Utf8.Encode, Told, Since;
      size, e := WriteCode(code, stringWriter);
    }

    // A rune of several bytes.
    method WriteCode(code: seq<byte>, stringWriter: bool) returns (size: nat, e: Option<Error>)
      requires Valid() && |code| <= 4
      modifies this`n, this`err, this`accepted, buf, wr
      ensures Valid() && e == err && size <= |code| && accepted == old(accepted) + code[..size]
      ensures e.None? ==> size == |code|
      ensures old(err).Some? ==> err == old(err) && wr.got == old(wr.got)
      ensures Told(old(wr.log), old(wr.plan), old(err))
      ensures old(n) + 4 <= buf.Length ==> Since(old(wr.log)) == []
    {
      hide Told, Since;
      ToldNothing();
      if err.Some? {
        return 0, err;
      }
      if buf.Length - n < 4 {
        e := Flush();
        if e.Some? {
          return 0, e;
        }
        if buf.Length - n < 4 {
          size, e := WriteAfter(code, stringWriter, old(wr.log), old(wr.plan));
          return;
        }
      }
      size := Copy(code);
      return size, None;
    }
  }

  /**
    A client that writes some pieces and flushes.  The sink holds a prefix of them, all of
    them if no error is reported, and a sink that takes everything causes none.
   */
  method WriteThrough(plan: seq<Answer>, pieces: seq<seq<byte>>, size: int) returns (got: seq<byte>, err: Option<Error>)
    ensures got <= Flatten(pieces)
    ensures err.None? ==> got == Flatten(pieces)
    ensures plan == [] ==> err.None?
  {
    hide Flatten, Explains, Follows, Full;
    var sink := new Sink(plan);
    var w := new Writer(sink, size);
    assert pieces[..0] == [];
    NothingFlat();
    var i := 0;
    while i < |pieces| && w.err.None?
      invariant 0 <= i <= |pieces| && fresh(w) && fresh(w.buf) && fresh(sink) && w.wr == sink
      invariant w.Valid() && w.base == [] && w.accepted <= Flatten(pieces[..i])
      invariant w.err.None? ==> w.accepted == Flatten(pieces[..i])
      invariant plan == [] ==> w.err.None? && sink.plan == []
    {
      assert pieces[..i + 1] == pieces[..i] + [pieces[i]];
      FlattenSnoc(pieces[..i], pieces[i]);
      ghost var log := sink.log;
      var n, e := w.Write(pieces[i]);
      if plan == [] {
        NoErrorFromNowhere(w.Since(log), sink.plan, w.buf.Length, w.err);
      }
      i := i + 1;
    }
    FlattenFront(pieces, i);
    assert w.err.None? ==> pieces[..i] == pieces;
    ghost var log := sink.log;
    err := w.Flush();
    if plan == [] {
      NoErrorFromNowhere(w.Since(log), sink.plan, w.buf.Length, w.err);
    }
    got := sink.got;
    assert w.base + w.accepted == w.accepted;
    assert got == w.accepted[..|got|];
  }

  lemma Extend(front: seq<byte>, p: seq<byte>, i: nat, k: nat)
    requires i + k <= |p|
    ensures (front + p[..i]) + p[i..][..k] == front + p[..i + k]
  {
    assert p[..i + k] == p[..i] + p[i..][..k];
  }
}
