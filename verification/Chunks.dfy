/**
  The readers behind bufio: the environment cuts its input as it likes, and mixes in
  empty reads and errors.
 */
module Chunks {
  import opened Bytes

  datatype Error = EOF | ErrTooLong | ErrBadReadCount | ErrNoProgress | Custom(code: int)

  // What the underlying reader will answer.  A chunk larger than the room offered is
  // handed out piecewise; Bad stands for an impossible count.
  datatype Answer = Good(bytes: seq<byte>, err: Option<Error>) | Bad

  // The bytes a plan delivers before its first error; a plan that ends means EOF.
  function Rest(plan: seq<Answer>): seq<byte> {
    if plan == [] || plan[0].Bad? then []
    else if plan[0].err.Some? then plan[0].bytes
    else plan[0].bytes + Rest(plan[1..])
  }

  // Everything a plan delivers, across its errors.
  function All(plan: seq<Answer>): seq<byte> {
    if plan == [] then [] else (if plan[0].Bad? then [] else plan[0].bytes) + All(plan[1..])
  }

  // A reader that never reports an impossible count.
  predicate Proper(plan: seq<Answer>) { forall i :: 0 <= i < |plan| ==> plan[i].Good? }

  function Size(plan: seq<Answer>): nat {
    if plan == [] then 0
    else 1 + (if plan[0].Bad? then 0 else |plan[0].bytes|) + Size(plan[1..])
  }

  // What lies ahead of someone who reads on: bytes, the error that ends them, and what
  // the reader will answer after that.
  datatype Outlook = Outlook(bytes: seq<byte>, end: Error, after: seq<Answer>)

  // A reader is given up after limit empty answers in a row, of which left remain.
  function Ahead(plan: seq<Answer>, limit: nat, left: nat): Outlook {
    if plan == [] then Outlook([], EOF, [])
    else if plan[0].Bad? then Outlook([], ErrBadReadCount, plan[1..])
    else if plan[0].err.Some? then Outlook(plan[0].bytes, plan[0].err.value, plan[1..])
    else if plan[0].bytes == [] then
      if left <= 1 then Outlook([], ErrNoProgress, plan[1..]) else Ahead(plan[1..], limit, left - 1)
    else Before(plan[0].bytes, Ahead(plan[1..], limit, limit))
  }

  function Before(bytes: seq<byte>, o: Outlook): Outlook { o.(bytes := bytes + o.bytes) }

  // The first answer that is not empty, cut to the room there is, and the plan left over.
  function Chunk(plan: seq<Answer>, room: nat, left: nat): (seq<byte>, Option<Error>, seq<Answer>) {
    var (n, bytes, err, rest) := Answered(plan, room);
    if n < 0 then ([], Some(ErrBadReadCount), rest)
    else if err.Some? || bytes != [] || plan == [] then (bytes, err, rest)
    else if left <= 1 then ([], Some(ErrNoProgress), rest)
    else Chunk(plan[1..], room, left - 1)
  }

  // One answer: the count, the bytes, the error, and the plan left over.
  function Answered(plan: seq<Answer>, room: nat): (int, seq<byte>, Option<Error>, seq<Answer>) {
    if plan == [] then (0, [], Some(EOF), plan)
    else if plan[0].Bad? then (-1, [], None, plan[1..])
    else
      var a := plan[0];
      if |a.bytes| <= room then (|a.bytes|, a.bytes, a.err, plan[1..])
      else (room, a.bytes[..room], None, [Good(a.bytes[room..], a.err)] + plan[1..])
  }

  // An answer is taken from what lies ahead.
  lemma AnsweredAhead(plan: seq<Answer>, room: nat, limit: nat, left: nat)
    requires room > 0
    ensures
      var (n, bytes, err, rest) := Answered(plan, room);
      && (n < 0 ==> n == -1 && bytes == [] && err.None? && Ahead(plan, limit, left) == Outlook([], ErrBadReadCount, rest))
      && (n >= 0 ==> n == |bytes| <= room)
      && (n >= 0 && err.Some? ==> Ahead(plan, limit, left) == Outlook(bytes, err.value, rest))
      && (n > 0 && err.None? ==> Ahead(plan, limit, left) == Before(bytes, Ahead(rest, limit, limit)))
      && (n == 0 && err.None? ==>
            plan != [] && rest == plan[1..] &&
            Ahead(plan, limit, left) == if left <= 1 then Outlook([], ErrNoProgress, rest) else Ahead(rest, limit, left - 1))
  {
    if plan != [] && plan[0].Good? && |plan[0].bytes| > room {
      var a := plan[0];
      var rest := [Good(a.bytes[room..], a.err)] + plan[1..];
      assert rest[1..] == plan[1..];
      assert a.bytes == a.bytes[..room] + a.bytes[room..];
      Reassociate(a.bytes[..room], a.bytes[room..], Ahead(plan[1..], limit, limit).bytes);
    }
  }

  lemma ChunkStep(plan: seq<Answer>, room: nat, left: nat)
    requires room > 0
    ensures
      var (n, bytes, err, rest) := Answered(plan, room);
      && (n >= 0 && (err.Some? || n > 0) ==> Chunk(plan, room, left) == (bytes, err, rest))
      && (n == 0 && err.None? ==>
            Chunk(plan, room, left) == if left <= 1 then ([], Some(ErrNoProgress), rest) else Chunk(rest, room, left - 1))
  {
  }

  // Nothing is lost or repeated, and something is used up.
  lemma AnsweredAll(plan: seq<Answer>, room: nat)
    ensures
      var (n, bytes, err, rest) := Answered(plan, room);
      && (n >= 0 ==> n == |bytes| <= room && All(plan) == bytes + All(rest))
      && (Proper(plan) ==> n >= 0 && Proper(rest))
      && (room > 0 && n >= 0 && err.None? ==> Size(rest) < Size(plan))
  {
    if plan != [] && plan[0].Good? && |plan[0].bytes| > room {
      var a := plan[0];
      var rest := [Good(a.bytes[room..], a.err)] + plan[1..];
      assert rest[1..] == plan[1..];
      assert a.bytes == a.bytes[..room] + a.bytes[room..];
      Reassociate(a.bytes[..room], a.bytes[room..], All(plan[1..]));
    }
  }

  // A reader that is not given up delivers everything up to its end.
  lemma {:induction false} AheadIsRest(plan: seq<Answer>, limit: nat, left: nat)
    requires Ahead(plan, limit, left).end == EOF
    ensures Ahead(plan, limit, left).bytes == Rest(plan)
  {
    if plan != [] && plan[0].Good? && plan[0].err.None? {
      if plan[0].bytes == [] {
        AheadIsRest(plan[1..], limit, left - 1);
        assert [] + Rest(plan[1..]) == Rest(plan[1..]);
      } else {
        AheadIsRest(plan[1..], limit, limit);
      }
    }
  }

  function Empties(k: nat): seq<Answer> { if k == 0 then [] else [Good([], None)] + Empties(k - 1) }

  // Empty answers in a row are skipped, until there are too many.
  lemma {:induction false} EmptyAnswers(k: nat, rest: seq<Answer>, limit: nat, left: nat)
    requires left >= 1
    ensures
      var ahead := Ahead(Empties(k) + rest, limit, left);
      if k >= left then ahead.bytes == [] && ahead.end == ErrNoProgress else ahead == Ahead(rest, limit, left - k)
  {
    if k == 0 {
      assert Empties(k) + rest == rest;
    } else {
      var plan := Empties(k) + rest;
      assert plan[0] == Good([], None) && plan[1..] == Empties(k - 1) + rest;
      if left > 1 {
        EmptyAnswers(k - 1, rest, limit, left - 1);
      }
    }
  }

  lemma {:induction false} EmptiesProper(k: nat, rest: seq<Answer>)
    requires Proper(rest)
    ensures Proper(Empties(k) + rest)
  {
    if k == 0 {
      assert Empties(k) + rest == rest;
    } else {
      EmptiesProper(k - 1, rest);
      assert Empties(k) + rest == [Good([], None)] + (Empties(k - 1) + rest);
    }
  }

  class Source {
    var plan: seq<Answer>

    constructor (plan: seq<Answer>)
      ensures this.plan == plan
    {
      this.plan := plan;
    }

    /** One Read into b[lo..]. */
    method Read(b: array<byte>, lo: nat) returns (n: int, err: Option<Error>)
      requires lo <= b.Length
      modifies this, b
      ensures -1 <= n <= b.Length - lo
      ensures (n, if n < 0 then [] else b[lo..lo + n], err, plan) == Answered(old(plan), b.Length - lo)
      ensures forall i :: 0 <= i < lo ==> b[i] == old(b[i])
    {
      var (count, bytes, e, rest) := Answered(plan, b.Length - lo);
      CopyTo(b, lo, bytes);
      plan := rest;
      return count, e;
    }
  }
}
