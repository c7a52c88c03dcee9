/**
  bytes.Buffer on values: what each operation does to the buffer, the byte queue its
  documentation describes, exactly when the two agree, and what growing costs.
 */
module ByteQueue {
  import opened Bytes
  import Utf8

  const SMALL_BUFFER_SIZE: nat := 64

  const OP_READ: int := -1
  const OP_INVALID: int := 0

  // The allocator may fail, or round a request up.
  datatype Alloc = Fails | Gives(slack: nat)

  // past is buf[:off], held is buf[off:], spare is cap - len; none means a nil slice.
  datatype State = State(past: seq<byte>, held: seq<byte>, spare: nat, lastRead: int, none: bool) {
    function Len(): nat { |past| + |held| }

    function Cap(): nat { Len() + spare }

    predicate Ok() { (none ==> Cap() == 0) && OP_READ <= lastRead <= 4 }
  }

  datatype Error = Nil | Eof | BadUnread

  datatype Reply = Reply(data: seq<byte>, err: Error) | Panic

  datatype Op =
    | Write(p: seq<byte>, alloc: Alloc)
    | Grow(n: int, alloc: Alloc)
    | Read(room: nat)
    | Next(n: int)
    | ReadByte
    | ReadRune
    | ReadBytes(delim: byte)
    | UnreadByte
    | UnreadRune
    | Truncate(n: int)
    | Reset

  // ---------------------------------------------------------------- the buffer

  function Emptied(s: State): State { State([], [], s.Cap(), OP_INVALID, s.none) }

  function Take(s: State, k: nat, last: int): State
    requires k <= |s.held|
  {
    s.(past := s.past + s.held[..k], held := s.held[k..], lastRead := last)
  }

  // The last operation does not matter to the next.
  lemma TakeAlike(s: State, k: nat, last: int)
    requires k <= |s.held|
    ensures Take(s.(lastRead := OP_INVALID), k, last) == Take(s, k, last)
  {
  }

  lemma TakeIs(s: State, front: seq<byte>, rest: seq<byte>, last: int)
    requires s.held == front + rest
    ensures Take(s, |front|, last) == State(s.past + front, rest, s.spare, last, s.none)
    ensures s.held[..|front|] == front
  {
    assert s.held[..|front|] == front && s.held[|front|..] == rest;
  }

  lemma EmptiedAlike(s: State)
    ensures Emptied(s.(lastRead := OP_INVALID)) == Emptied(s)
  {
  }

  function PutBack(s: State, k: nat): State
    requires k <= |s.past|
  {
    s.(past := s.past[..|s.past| - k], held := s.past[|s.past| - k..] + s.held, lastRead := OP_INVALID)
  }

  function Append(s: State, p: seq<byte>): State
    requires |p| <= s.spare
  {
    s.(held := s.held + p, spare := s.spare - |p|)
  }

  // The size growSlice asks for.
  function Wanted(s: State, n: nat): nat {
    var c := s.Len() + n;
    if c < 2 * (s.Cap() - |s.past|) then 2 * (s.Cap() - |s.past|) else c
  }

  // Where grow ends: what it does to the buffer, and whether it copies the held bytes.
  datatype Room = Resliced(s: State) | Small(s: State) | Slid(s: State) | Moved(s: State) | TooLarge(s: State)

  // grow first drops what has been read when nothing is left to read.
  function Settled(s: State): (t: State)
    requires s.Ok()
    ensures t.Ok() && t.held == s.held && t.lastRead in {OP_INVALID, s.lastRead}
  {
    if s.held == [] && s.past != [] then Emptied(s) else s
  }

  function Relocated(t: State, n: nat, alloc: Alloc): (r: Room)
    requires t.Ok() && n > t.spare
    ensures r.s.Ok() && r.s.held == t.held && r.s.lastRead == t.lastRead
    ensures !r.TooLarge? ==> n <= r.s.spare && r.s.past == []
  {
    if n <= t.Cap() / 2 - |t.held| then Slid(t.(past := [], spare := t.Cap() - |t.held|))
    else if t.Cap() > MAX_INT - t.Cap() - n || alloc.Fails? then TooLarge(t)
    else Moved(State([], t.held, Wanted(t, n) + alloc.slack - |t.held|, t.lastRead, false))
  }

  // grow, with the length put back where it was.
  function MakeRoom(s: State, n: nat, alloc: Alloc): (r: Room)
    requires s.Ok()
    ensures r.s.Ok() && r.s.held == s.held && r.s.lastRead in {OP_INVALID, s.lastRead}
    ensures !r.TooLarge? ==> n <= r.s.spare
    ensures r.Slid? || r.Moved? ==> r.s.past == []
  {
    var t := Settled(s);
    if n <= t.spare then Resliced(t)
    else if t.none && n <= SMALL_BUFFER_SIZE then Small(State([], [], SMALL_BUFFER_SIZE, t.lastRead, false))
    else Relocated(t, n, alloc)
  }

  /** The guard before growSlice is what keeps its sums within an int. */
  lemma WantedFits(s: State, n: nat)
    ensures s.Cap() <= MAX_INT - s.Cap() - n ==> s.Len() + n <= Wanted(s, n) <= MAX_INT
  {
  }

  function WriteRoom(s: State, n: nat, alloc: Alloc): (r: Room)
    requires s.Ok()
    ensures r.s.Ok() && r.s.held == s.held && r.s.lastRead in {OP_INVALID, s.lastRead}
    ensures !r.TooLarge? ==> n <= r.s.spare
  {
    if n <= s.spare then Resliced(s) else MakeRoom(s, n, alloc)
  }

  // Where the first delimiter is, or -1.
  function Delimiter(held: seq<byte>, delim: byte): (i: int)
    ensures -1 <= i < |held|
    ensures i >= 0 <==> delim in held
  {
    IndexByte(held, delim)
  }

  const DONE: Reply := Reply([], Nil)

  function Wrote(s: State, p: seq<byte>, alloc: Alloc): (r: (State, Reply))
    requires s.Ok()
    ensures r.0.Ok()
  {
    var room := WriteRoom(s.(lastRead := OP_INVALID), |p|, alloc);
    if room.TooLarge? then (room.s, Panic) else (Append(room.s, p), DONE)
  }

  function Grew(s: State, n: int, alloc: Alloc): (r: (State, Reply))
    requires s.Ok()
    ensures r.0.Ok()
  {
    if n < 0 then (s, Panic)
    else
      var room := MakeRoom(s, n, alloc);
      (room.s, if room.TooLarge? then Panic else DONE)
  }

  // Next, and Read when there is something to read.
  function Took(s: State, n: nat): (r: (State, Reply))
    requires s.Ok()
    ensures r.0.Ok() && r.1.Reply? && r.1.data + r.0.held == s.held
  {
    var k := Min(n, |s.held|);
    (Take(s, k, if k > 0 then OP_READ else OP_INVALID), Reply(s.held[..k], Nil))
  }

  function TookSome(s: State, room: nat): (r: (State, Reply))
    requires s.Ok()
    ensures r.0.Ok() && r.1.Reply? && r.1.data + r.0.held == s.held
  {
    if s.held == [] then (Emptied(s), if room == 0 then DONE else Reply([], Eof)) else Took(s, room)
  }

  function TookNext(s: State, n: int): (r: (State, Reply))
    requires s.Ok()
    ensures r.0.Ok() && (if n < 0 then r.1.Panic? && r.0.held == s.held else r.1.Reply? && r.1.data + r.0.held == s.held)
  {
    if n < 0 then (s.(lastRead := OP_INVALID), Panic) else Took(s, n)
  }

  function TookByte(s: State): (r: (State, Reply))
    requires s.Ok()
    ensures r.0.Ok() && r.1.Reply? && r.1.data + r.0.held == s.held
  {
    if s.held == [] then (Emptied(s), Reply([], Eof)) else Took(s, 1)
  }

  function TookRune(s: State): (r: (State, Reply))
    requires s.Ok()
    ensures r.0.Ok() && r.1.Reply? && r.1.data + r.0.held == s.held
  {
    if s.held == [] then (Emptied(s), Reply([], Eof))
    else
      var k := if s.held[0] < 0x80 then 1 else Utf8.Width(s.held);
      (Take(s, k, k), Reply(s.held[..k], Nil))
  }

  function TookLine(s: State, delim: byte): (r: (State, Reply))
    requires s.Ok()
    ensures r.0.Ok() && r.1.Reply? && r.1.data + r.0.held == s.held
  {
    var i := Delimiter(s.held, delim);
    var k := if i < 0 then |s.held| else i + 1;
    (Take(s, k, OP_READ), Reply(s.held[..k], if i < 0 then Eof else Nil))
  }

  function ByteUnread(s: State): (r: (State, Reply))
    requires s.Ok()
    ensures r.0.Ok()
  {
    if s.lastRead == OP_INVALID then (s, Reply([], BadUnread))
    else (PutBack(s, Min(1, |s.past|)), DONE)
  }

  function RuneUnread(s: State): (r: (State, Reply))
    requires s.Ok()
    ensures r.0.Ok()
  {
    if s.lastRead <= OP_INVALID then (s, Reply([], BadUnread))
    else (PutBack(s, if |s.past| >= s.lastRead then s.lastRead else 0), DONE)
  }

  function Truncated(s: State, n: int): (r: (State, Reply))
    requires s.Ok()
    ensures r.0.Ok()
  {
    if n == 0 then (Emptied(s), DONE)
    else if n < 0 || n > |s.held| then (s.(lastRead := OP_INVALID), Panic)
    else (s.(held := s.held[..n], spare := s.spare + |s.held| - n, lastRead := OP_INVALID), DONE)
  }

  function Step(s: State, op: Op): (r: (State, Reply))
    requires s.Ok()
    ensures r.0.Ok()
  {
    match op
    case Write(p, alloc) => Wrote(s, p, alloc)
    case Grow(n, alloc) => Grew(s, n, alloc)
    case Read(room) => TookSome(s, room)
    case Next(n) => TookNext(s, n)
    case ReadByte => TookByte(s)
    case ReadRune => TookRune(s)
    case ReadBytes(delim) => TookLine(s, delim)
    case UnreadByte => ByteUnread(s)
    case UnreadRune => RuneUnread(s)
    case Truncate(n) => Truncated(s, n)
    case Reset => (Emptied(s), DONE)
  }

  // ---------------------------------------------------------------- the documented queue

  // undo is what the last read returned, while it may still be put back.
  datatype Queue = Queue(held: seq<byte>, undo: seq<byte>, rune: bool)

  function Handed(q: Queue, k: nat, rune: bool): (Queue, Reply)
    requires k <= |q.held|
  {
    (Queue(q.held[k..], q.held[..k], rune), Reply(q.held[..k], Nil))
  }

  // refused: the buffer panicked with ErrTooLarge.
  function Ideal(q: Queue, op: Op, refused: bool): (Queue, Reply) {
    var done := Reply([], Nil);
    var eof := (Queue([], [], false), Reply([], Eof));
    match op
    case Write(p, _) =>
      if refused then (Queue(q.held, [], false), Panic) else (Queue(q.held + p, [], false), done)
    case Grow(n, _) => (q, if n < 0 || refused then Panic else done)
    case Read(room) =>
      if q.held == [] && room > 0 then eof else Handed(q, Min(room, |q.held|), false)
    case Next(n) =>
      if n < 0 then (Queue(q.held, [], false), Panic) else Handed(q, Min(n, |q.held|), false)
    case ReadByte => if q.held == [] then eof else Handed(q, 1, false)
    case ReadRune => if q.held == [] then eof else Handed(q, Utf8.Width(q.held), true)
    case ReadBytes(delim) =>
      if delim in q.held then Handed(q, Delimiter(q.held, delim) + 1, false)
      else (Queue([], [], false), Reply(q.held, Eof))
    case UnreadByte =>
      if q.undo == [] then (q, Reply([], BadUnread))
      else (Queue([q.undo[|q.undo| - 1]] + q.held, [], false), done)
    case UnreadRune =>
      if !q.rune then (q, Reply([], BadUnread)) else (Queue(q.undo + q.held, [], false), done)
    case Truncate(n) =>
      if n < 0 || n > |q.held| then (Queue(q.held, [], false), Panic)
      else (Queue(q.held[..n], [], false), done)
    case Reset => (Queue([], [], false), done)
  }

  // ---------------------------------------------------------------- where they part

  // What a caller can know about the unread state from the calls made and from Len,
  // Cap and Available: Lost, a Grow dropped what the last read returned; Phantom, a
  // ReadBytes ran out of input and still left something to unread.
  datatype Drift = Sync | Lost | Phantom

  // read is Cap() - Available() - Len(), and spare is Available().
  function Drifted(d: Drift, q: Queue, op: Op, read: nat, spare: nat, refused: bool): Drift {
    match op
    case Grow(n, _) =>
      if n < 0 then d
      else if q.held == [] && read > 0 then (if q.undo == [] then Sync else Lost)
      else if n > spare && !refused && q.undo != [] then Lost
      else d
    case ReadBytes(delim) => if delim in q.held then Sync else Phantom
    case UnreadRune => if q.rune then Sync else d
    case Write(_, _) => Sync
    case Read(_) => Sync
    case Next(_) => Sync
    case ReadByte => Sync
    case ReadRune => Sync
    case UnreadByte => Sync
    case Truncate(_) => Sync
    case Reset => Sync
  }

  predicate Misused(d: Drift, q: Queue, op: Op) {
    (op.UnreadByte? && d != Sync) || (op.UnreadRune? && d == Lost && q.rune)
  }

  predicate Refused(s: State, op: Op)
    requires s.Ok()
  {
    match op
    case Write(p, alloc) => WriteRoom(s.(lastRead := OP_INVALID), |p|, alloc).TooLarge?
    case Grow(n, alloc) => n >= 0 && MakeRoom(s, n, alloc).TooLarge?
    case Read(_) => false
    case Next(_) => false
    case ReadByte => false
    case ReadRune => false
    case ReadBytes(_) => false
    case UnreadByte => false
    case UnreadRune => false
    case Truncate(_) => false
    case Reset => false
  }

  predicate Related(s: State, q: Queue, d: Drift) {
    && s.held == q.held
    && (q.rune ==> q.undo != [])
    && match d
       case Sync =>
         && (s.lastRead == OP_INVALID <==> q.undo == [])
         && (s.lastRead > OP_INVALID <==> q.rune)
         && (q.rune ==> |q.undo| == s.lastRead)
         && EndsWith(s.past, q.undo)
       case Lost =>
         && q.undo != []
         && (s.lastRead == OP_INVALID || (s.past == [] && (s.lastRead > OP_INVALID <==> q.rune)))
       case Phantom => q.held == [] && q.undo == [] && s.lastRead == OP_READ
  }

  lemma StepOfUnreadByte(s: State, q: Queue, d: Drift)
    requires s.Ok() && Related(s, q, d)
    ensures
      var (s', r) := ByteUnread(s);
      var (q', r') := Ideal(q, UnreadByte, false);
      && (d != Sync <==> !(r == r' && s'.held == q'.held))
      && (d == Sync ==> Related(s', q', Sync))
  {
    var (s', r) := ByteUnread(s);
    var q' := Ideal(q, UnreadByte, false).0;
    if d == Lost && s.lastRead != OP_INVALID {
      assert s'.held == s.held;
    } else if d == Sync && q.undo != [] {
      assert s.past[|s.past| - 1] == q.undo[|q.undo| - 1];
      assert s'.held == q'.held;
    }
  }

  lemma StepOfUnreadRune(s: State, q: Queue, d: Drift)
    requires s.Ok() && Related(s, q, d)
    ensures
      var (s', r) := RuneUnread(s);
      var (q', r') := Ideal(q, UnreadRune, false);
      && (d == Lost && q.rune <==> !(r == r' && s'.held == q'.held))
      && (!(d == Lost && q.rune) ==> Related(s', q', if q.rune then Sync else d))
  {
    var s' := RuneUnread(s).0;
    if d == Lost && s.lastRead != OP_INVALID {
      assert s'.held == s.held;
    }
  }

  lemma StepOfGrow(s: State, q: Queue, d: Drift, n: int, alloc: Alloc)
    requires s.Ok() && Related(s, q, d)
    ensures
      var (s', r) := Step(s, Grow(n, alloc));
      var (q', r') := Ideal(q, Grow(n, alloc), Refused(s, Grow(n, alloc)));
      && r == r' && s'.held == q'.held
      && Related(s', q', Drifted(d, q, Grow(n, alloc), |s.past|, s.spare, Refused(s, Grow(n, alloc))))
  {
  }

  lemma StepOfWrite(s: State, q: Queue, d: Drift, p: seq<byte>, alloc: Alloc)
    requires s.Ok() && Related(s, q, d)
    ensures
      var (s', r) := Step(s, Write(p, alloc));
      var (q', r') := Ideal(q, Write(p, alloc), Refused(s, Write(p, alloc)));
      && r == r' && s'.held == q'.held
      && Related(s', q', Drifted(d, q, Write(p, alloc), |s.past|, s.spare, Refused(s, Write(p, alloc))))
  {
    hide MakeRoom;
  }

  lemma StepOfTruncate(s: State, q: Queue, d: Drift, n: int)
    requires s.Ok() && Related(s, q, d)
    ensures
      var (s', r) := Step(s, Truncate(n));
      var (q', r') := Ideal(q, Truncate(n), Refused(s, Truncate(n)));
      && r == r' && s'.held == q'.held
      && Related(s', q', Drifted(d, q, Truncate(n), |s.past|, s.spare, Refused(s, Truncate(n))))
  {
  }

  lemma TakeRelates(s: State, q: Queue, k: nat, last: int, rune: bool)
    requires s.held == q.held && k <= |s.held|
    requires last == if k == 0 then OP_INVALID else if rune then k else OP_READ
    requires rune ==> k > 0
    ensures
      var (q', r') := Handed(q, k, rune);
      && Related(Take(s, k, last), q', Sync)
      && Take(s, k, last).held == q'.held
      && r' == Reply(s.held[..k], Nil)
  {
  }

  lemma IdleRelates(s: State, q: Queue)
    requires s.held == q.held && s.lastRead == OP_INVALID && q.undo == [] && !q.rune
    ensures Related(s, q, Sync)
  {
  }

  lemma TookRelates(s: State, q: Queue, n: nat)
    requires s.Ok() && s.held == q.held
    ensures
      var (s', r) := Took(s, n);
      var (q', r') := Handed(q, Min(n, |q.held|), false);
      && r == r' && s'.held == q'.held && Related(s', q', Sync)
  {
    var k := Min(n, |s.held|);
    TakeRelates(s, q, k, if k == 0 then OP_INVALID else OP_READ, false);
  }

  lemma StepOfRead(s: State, q: Queue, d: Drift, room: nat)
    requires s.Ok() && Related(s, q, d)
    ensures
      var (s', r) := Step(s, Read(room));
      var (q', r') := Ideal(q, Read(room), Refused(s, Read(room)));
      && r == r' && s'.held == q'.held
      && Related(s', q', Drifted(d, q, Read(room), |s.past|, s.spare, Refused(s, Read(room))))
  {
    assert s.held == q.held;
    hide Related, Handed, Took;
    if s.held == [] {
      IdleRelates(Emptied(s), Queue([], [], false));
      EmptyHanded(q);
    } else {
      TookRelates(s, q, room);
    }
  }

  lemma StepOfReadByte(s: State, q: Queue, d: Drift)
    requires s.Ok() && Related(s, q, d)
    ensures
      var (s', r) := Step(s, ReadByte);
      var (q', r') := Ideal(q, ReadByte, Refused(s, ReadByte));
      && r == r' && s'.held == q'.held
      && Related(s', q', Drifted(d, q, ReadByte, |s.past|, s.spare, Refused(s, ReadByte)))
  {
    assert s.held == q.held;
    hide Related, Handed, Took;
    if s.held == [] {
      IdleRelates(Emptied(s), Queue([], [], false));
    } else {
      TookRelates(s, q, 1);
    }
  }

  lemma StepOfNext(s: State, q: Queue, d: Drift, n: int)
    requires s.Ok() && Related(s, q, d)
    ensures
      var (s', r) := Step(s, Next(n));
      var (q', r') := Ideal(q, Next(n), Refused(s, Next(n)));
      && r == r' && s'.held == q'.held
      && Related(s', q', Drifted(d, q, Next(n), |s.past|, s.spare, Refused(s, Next(n))))
  {
    assert s.held == q.held;
    hide Related, Handed, Took;
    if n < 0 {
      IdleRelates(s.(lastRead := OP_INVALID), Queue(q.held, [], false));
    } else {
      TookRelates(s, q, n);
    }
  }

  lemma StepOfReadRune(s: State, q: Queue, d: Drift)
    requires s.Ok() && Related(s, q, d)
    ensures
      var (s', r) := Step(s, ReadRune);
      var (q', r') := Ideal(q, ReadRune, Refused(s, ReadRune));
      && r == r' && s'.held == q'.held
      && Related(s', q', Drifted(d, q, ReadRune, |s.past|, s.spare, Refused(s, ReadRune)))
  {
    assert s.held == q.held;
    if s.held == [] {
      IdleRelates(Emptied(s), Queue([], [], false));
    } else {
      var k := Utf8.Width(s.held);
      assert s.held[0] < 0x80 ==> k == 1;
      TakeRelates(s, q, k, k, true);
    }
    hide Related, Utf8.Width, Take, Handed;
  }

  lemma StepOfReadBytes(s: State, q: Queue, d: Drift, delim: byte)
    requires s.Ok() && Related(s, q, d)
    ensures
      var (s', r) := Step(s, ReadBytes(delim));
      var (q', r') := Ideal(q, ReadBytes(delim), Refused(s, ReadBytes(delim)));
      && r == r' && s'.held == q'.held
      && Related(s', q', Drifted(d, q, ReadBytes(delim), |s.past|, s.spare, Refused(s, ReadBytes(delim))))
  {
    hide Take, Handed, Delimiter;
    var i := Delimiter(s.held, delim);
    if i >= 0 {
      TakeRelates(s, q, i + 1, OP_READ, false);
    } else {
      TakeAll(s, OP_READ);
    }
    hide EndsWith;
  }

  lemma TakeAll(s: State, last: int)
    ensures Take(s, |s.held|, last).held == [] && Take(s, |s.held|, last).lastRead == last
    ensures s.held[..|s.held|] == s.held
  {
  }

  lemma StepOfReset(s: State, q: Queue, d: Drift)
    requires s.Ok() && Related(s, q, d)
    ensures
      var (s', r) := Step(s, Reset);
      var (q', r') := Ideal(q, Reset, Refused(s, Reset));
      && r == r' && s'.held == q'.held
      && Related(s', q', Drifted(d, q, Reset, |s.past|, s.spare, Refused(s, Reset)))
  {
    IdleRelates(Emptied(s), Queue([], [], false));
  }

  lemma EmptyHanded(q: Queue)
    requires q.held == []
    ensures Handed(q, 0, false) == (Queue([], [], false), Reply([], Nil))
  {
  }

  /**
    The buffer and the queue answer alike and hold the same bytes after any call,
    unless the call is an unread whose read a Grow has dropped or a ReadBytes has
    left dangling, and then they always differ.
   */
  lemma StepAgrees(s: State, q: Queue, d: Drift, op: Op)
    requires s.Ok() && Related(s, q, d)
    ensures
      var (s', r) := Step(s, op);
      var (q', r') := Ideal(q, op, Refused(s, op));
      && (Misused(d, q, op) <==> !(r == r' && s'.held == q'.held))
      && (!Misused(d, q, op) ==> Related(s', q', Drifted(d, q, op, |s.past|, s.spare, Refused(s, op))))
  {
    hide Ideal, Related, Took, TookRune, TookLine, Wrote, Grew, ByteUnread, RuneUnread, Truncated;
    match op
    case Write(p, alloc) => StepOfWrite(s, q, d, p, alloc);
    case Grow(n, alloc) => StepOfGrow(s, q, d, n, alloc);
    case Read(room) => StepOfRead(s, q, d, room);
    case Next(n) => StepOfNext(s, q, d, n);
    case ReadByte => StepOfReadByte(s, q, d);
    case ReadRune => StepOfReadRune(s, q, d);
    case ReadBytes(delim) => StepOfReadBytes(s, q, d, delim);
    case UnreadByte => StepOfUnreadByte(s, q, d);
    case UnreadRune => StepOfUnreadRune(s, q, d);
    case Truncate(n) => StepOfTruncate(s, q, d, n);
    case Reset => StepOfReset(s, q, d);
  }

  // Every reply of a run, with the unread bytes after it.
  function Trace(s: State, ops: seq<Op>): seq<(Reply, seq<byte>)>
    requires s.Ok()
    decreases |ops|
  {
    if ops == [] then []
    else
      var (s', r) := Step(s, ops[0]);
      [(r, s'.held)] + Trace(s', ops[1..])
  }

  function Refusals(s: State, ops: seq<Op>): (r: seq<bool>)
    requires s.Ok()
    ensures |r| == |ops|
    decreases |ops|
  {
    if ops == [] then [] else [Refused(s, ops[0])] + Refusals(Step(s, ops[0]).0, ops[1..])
  }

  function IdealTrace(q: Queue, ops: seq<Op>, refusals: seq<bool>): seq<(Reply, seq<byte>)>
    requires |refusals| == |ops|
    decreases |ops|
  {
    if ops == [] then []
    else
      var (q', r) := Ideal(q, ops[0], refusals[0]);
      [(r, q'.held)] + IdealTrace(q', ops[1..], refusals[1..])
  }

  // No call of the run is an unread the caller should know to be stale.
  predicate Proper(s: State, q: Queue, d: Drift, ops: seq<Op>)
    requires s.Ok()
    decreases |ops|
  {
    ops == [] ||
    ( && !Misused(d, q, ops[0])
      && Proper(Step(s, ops[0]).0, Ideal(q, ops[0], Refused(s, ops[0])).0,
                Drifted(d, q, ops[0], |s.past|, s.spare, Refused(s, ops[0])), ops[1..]))
  }

  /** Over any run, the buffer is the documented queue exactly when no unread is stale. */
  lemma {:induction false} RunAgrees(s: State, q: Queue, d: Drift, ops: seq<Op>)
    requires s.Ok() && Related(s, q, d)
    ensures Trace(s, ops) == IdealTrace(q, ops, Refusals(s, ops)) <==> Proper(s, q, d, ops)
    decreases |ops|
  {
    if ops != [] {
      hide Step, Ideal, Misused, Related, Drifted, Refused;
      StepAgrees(s, q, d, ops[0]);
      var refused := Refused(s, ops[0]);
      var (s', r) := Step(s, ops[0]);
      var (q', r') := Ideal(q, ops[0], refused);
      var d' := Drifted(d, q, ops[0], |s.past|, s.spare, refused);
      var code, ideal := Trace(s', ops[1..]), IdealTrace(q', ops[1..], Refusals(s', ops[1..]));
      assert Refusals(s, ops)[1..] == Refusals(s', ops[1..]);
      Heads((r, s'.held), (r', q'.held), code, ideal);
      if !Misused(d, q, ops[0]) {
        RunAgrees(s', q', d', ops[1..]);
      }
    }
  }

  lemma Heads<T>(a: T, b: T, s: seq<T>, t: seq<T>)
    ensures [a] + s == [b] + t <==> a == b && s == t
  {
    if [a] + s == [b] + t {
      assert ([a] + s)[0] == ([b] + t)[0];
      assert ([a] + s)[1..] == s && ([b] + t)[1..] == t;
    }
  }

  predicate IsNew(s: State) { s.Ok() && s.past == [] && s.lastRead == OP_INVALID }

  /** From a new buffer, empty or over initial contents. */
  lemma NewAgrees(s: State, q: Queue, ops: seq<Op>)
    requires IsNew(s) && q == Queue(s.held, [], false)
    ensures Trace(s, ops) == IdealTrace(q, ops, Refusals(s, ops)) <==> Proper(s, q, Sync, ops)
  {
    RunAgrees(s, q, Sync, ops);
  }

  /** A Grow between a read and its unread: the unread reports success and restores nothing. */
  lemma GrowDropsUnread(s: State, a: byte, b: byte)
    requires s == State([], [a, b], 0, OP_INVALID, false)
    ensures
      var (s1, r1) := Step(s, ReadByte);
      var (s2, r2) := Step(s1, Grow(1, Gives(0)));
      var (s3, r3) := Step(s2, UnreadByte);
      && r1 == Reply([a], Nil) && r3 == Reply([], Nil)
      && s3.held == [b]
  {
    var s1 := Step(s, ReadByte).0;
    assert s1 == State([a], [b], 0, OP_READ, false);
    var s2 := Step(s1, Grow(1, Gives(0))).0;
    assert s2 == State([], [b], 2, OP_READ, false);
    assert PutBack(s2, 0).held == [b];
  }

  /** A ReadBytes that returned nothing but EOF leaves an earlier byte to be unread. */
  lemma EofLeavesUnread(s: State, a: byte, delim: byte)
    requires s == State([], [a], 0, OP_INVALID, false)
    ensures
      var (s1, r1) := Step(s, ReadByte);
      var (s2, r2) := Step(s1, ReadBytes(delim));
      var (s3, r3) := Step(s2, UnreadByte);
      && r2 == Reply([], Eof) && r3 == Reply([], Nil)
      && s3.held == [a]
  {
    var s1 := Step(s, ReadByte).0;
    assert s1 == State([a], [], 0, OP_READ, false);
    assert Step(s1, ReadBytes(delim)).0 == s1;
  }

  // ---------------------------------------------------------------- first in, first out

  predicate Streaming(ops: seq<Op>) {
    forall i :: 0 <= i < |ops| ==> !ops[i].Truncate? && !ops[i].Reset? && !ops[i].UnreadByte? && !ops[i].UnreadRune?
  }

  function Final(s: State, ops: seq<Op>): (t: State)
    requires s.Ok()
    ensures t.Ok()
    decreases |ops|
  {
    if ops == [] then s else Final(Step(s, ops[0]).0, ops[1..])
  }

  function Accepted(s: State, ops: seq<Op>): seq<byte>
    requires s.Ok()
    decreases |ops|
  {
    if ops == [] then []
    else
      (if ops[0].Write? && !Refused(s, ops[0]) then ops[0].p else []) + Accepted(Step(s, ops[0]).0, ops[1..])
  }

  function Delivered(s: State, ops: seq<Op>): seq<byte>
    requires s.Ok()
    decreases |ops|
  {
    if ops == [] then []
    else
      var (s', r) := Step(s, ops[0]);
      (if r.Panic? then [] else r.data) + Delivered(s', ops[1..])
  }

  lemma StepConserves(s: State, op: Op)
    requires s.Ok() && !op.Truncate? && !op.Reset? && !op.UnreadByte? && !op.UnreadRune?
    ensures
      var (s', r) := Step(s, op);
      (if r.Panic? then [] else r.data) + s'.held == s.held + (if op.Write? && !Refused(s, op) then op.p else [])
  {
    hide Took, TookRune, TookLine, MakeRoom;
  }

  /** Nothing written is lost, repeated or reordered, whatever growing moved. */
  lemma {:induction false} FirstInFirstOut(s: State, ops: seq<Op>)
    requires s.Ok() && Streaming(ops)
    ensures Delivered(s, ops) + Final(s, ops).held == s.held + Accepted(s, ops)
    decreases |ops|
  {
    if ops != [] {
      hide Step, Refused;
      StepConserves(s, ops[0]);
      var (s', r) := Step(s, ops[0]);
      FirstInFirstOut(s', ops[1..]);
      var out := if r.Panic? then [] else r.data;
      var p := if ops[0].Write? && !Refused(s, ops[0]) then ops[0].p else [];
      calc {
        Delivered(s, ops) + Final(s, ops).held;
        (out + Delivered(s', ops[1..])) + Final(s', ops[1..]).held;
        { Reassociate(out, Delivered(s', ops[1..]), Final(s', ops[1..]).held); }
        out + (s'.held + Accepted(s', ops[1..]));
        { Reassociate(out, s'.held, Accepted(s', ops[1..])); }
        (s.held + p) + Accepted(s', ops[1..]);
        { Reassociate(s.held, p, Accepted(s', ops[1..])); }
        s.held + Accepted(s, ops);
      }
    }
  }

  // ---------------------------------------------------------------- the cost of growing

  function RoomCost(r: Room): nat { if r.Slid? || r.Moved? then |r.s.held| else 0 }

  // Bytes grow copies, and bytes a call asks room for.
  function Cost(s: State, op: Op): nat
    requires s.Ok()
  {
    if op.Write? then RoomCost(WriteRoom(s.(lastRead := OP_INVALID), |op.p|, op.alloc))
    else if op.Grow? && op.n >= 0 then RoomCost(MakeRoom(s, op.n, op.alloc))
    else 0
  }

  function Asked(op: Op): nat {
    if op.Write? then |op.p| else if op.Grow? && op.n >= 0 then op.n else 0
  }

  function Potential(s: State): nat {
    s.Len() + (if 2 * s.Len() > s.Cap() then 2 * s.Len() - s.Cap() else 0)
  }

  function Extended(s: State, n: nat): State
    requires n <= s.spare
  {
    s.(held := s.held + seq(n, _ => 0), spare := s.spare - n)
  }

  lemma RelocationBound(t: State, n: nat, alloc: Alloc)
    requires t.Ok() && n > t.spare
    ensures
      var r := Relocated(t, n, alloc);
      && RoomCost(r) + Potential(r.s) <= Potential(t) + 3 * n
      && (!r.TooLarge? ==> RoomCost(r) + Potential(Extended(r.s, n)) <= Potential(t) + 3 * n)
  {
  }

  // Growing pays for its copies and for the length it is about to take.
  lemma RoomCostBound(s: State, n: nat, alloc: Alloc)
    requires s.Ok()
    ensures
      var r := MakeRoom(s, n, alloc);
      && RoomCost(r) + Potential(r.s) <= Potential(s) + 3 * n
      && (!r.TooLarge? ==> RoomCost(r) + Potential(Extended(r.s, n)) <= Potential(s) + 3 * n)
  {
    var t := Settled(s);
    assert Potential(t) <= Potential(s);
    hide Settled;
    if n > t.spare {
      RelocationBound(t, n, alloc);
      hide Relocated;
    }
  }

  lemma WriteCost(s: State, op: Op)
    requires s.Ok() && op.Write?
    ensures Cost(s, op) + Potential(Step(s, op).0) <= Potential(s) + 3 * |op.p|
  {
    var t := s.(lastRead := OP_INVALID);
    RoomCostBound(t, |op.p|, op.alloc);
    hide MakeRoom;
    var r := WriteRoom(t, |op.p|, op.alloc);
    assert Potential(t) == Potential(s);
  }

  lemma ReadCost(s: State, op: Op)
    requires s.Ok() && !op.Write? && !op.Grow?
    ensures Potential(Step(s, op).0) <= Potential(s)
  {
    hide WriteRoom, MakeRoom, Utf8.Width;
  }

  /** A call's copies, and what it adds to the potential, are at most three times what it asks for. */
  lemma StepCost(s: State, op: Op)
    requires s.Ok()
    ensures Cost(s, op) + Potential(Step(s, op).0) <= Potential(s) + 3 * Asked(op)
  {
    hide MakeRoom, WriteRoom;
    if op.Write? {
      WriteCost(s, op);
    } else if op.Grow? {
      if op.n >= 0 { RoomCostBound(s, op.n, op.alloc); }
    } else {
      ReadCost(s, op);
    }
  }

  function Copied(s: State, ops: seq<Op>): nat
    requires s.Ok()
    decreases |ops|
  {
    if ops == [] then 0 else Cost(s, ops[0]) + Copied(Step(s, ops[0]).0, ops[1..])
  }

  function AskedBy(ops: seq<Op>): nat {
    if ops == [] then 0 else Asked(ops[0]) + AskedBy(ops[1..])
  }

  /** Over any run of calls, all the copying grow does is linear in the bytes asked for. */
  lemma {:induction false} CopyingIsLinear(s: State, ops: seq<Op>)
    requires s.Ok()
    ensures Copied(s, ops) + Potential(Final(s, ops)) <= Potential(s) + 3 * AskedBy(ops)
    decreases |ops|
  {
    if ops != [] {
      hide Step, Cost, Asked, Potential;
      StepCost(s, ops[0]);
      CopyingIsLinear(Step(s, ops[0]).0, ops[1..]);
    }
  }

  /** From an empty buffer, grow copies at most three bytes for every byte written or reserved. */
  lemma AmortizedCopying(s: State, ops: seq<Op>)
    requires s.Ok() && s.Len() == 0
    ensures Copied(s, ops) <= 3 * AskedBy(ops)
  {
    assert Potential(s) == 0;
    hide Copied, AskedBy, Final;
    CopyingIsLinear(s, ops);
  }
}
