/**
  bytes.Buffer itself: an array, two positions and the last read operation, updated in
  place.  Every method is tied to the operation of ByteQueue.Step it implements.
 */
module Buffer {
  import opened Bytes
  import opened ByteQueue
  import Utf8

  class Buffer {
    var buf: array<byte>
    var len: nat
    var off: nat
    var lastRead: int
    var none: bool
    ghost var copied: nat

    ghost predicate Valid()
      reads this
    {
      && off <= len <= buf.Length
      && (none ==> buf.Length == 0)
      && OP_READ <= lastRead <= 4
    }

    ghost function Abs(): (s: State)
      requires Valid()
      reads this, buf
      ensures s.Ok()
    {
      State(buf[..off], buf[off..len], buf.Length - len, lastRead, none)
    }

    // The same, as if only the bytes below i were in use.
    ghost function Upto(i: nat): State
      requires Valid() && off <= i <= buf.Length
      reads this, buf
    {
      State(buf[..off], buf[off..i], buf.Length - i, lastRead, none)
    }

    lemma Shape()
      requires Valid()
      ensures
        var s := Abs();
        && |s.past| == off && |s.held| == len - off && s.spare == buf.Length - len
        && s.lastRead == lastRead && s.none == none
    {
    }

    // The zero value.
    constructor ()
      ensures Valid() && fresh(buf)
      ensures IsNew(Abs()) && Abs().Len() == 0 && copied == 0
    {
      buf := new byte[0];
      len, off, lastRead, none, copied := 0, 0, OP_INVALID, true, 0;
    }

    // NewBuffer takes the array over.
    constructor NewBuffer(b: array<byte>, n: nat)
      requires n <= b.Length
      ensures Valid() && buf == b
      ensures IsNew(Abs()) && Abs().held == b[..n] && copied == 0
    {
      buf := b;
      len, off, lastRead, none, copied := n, 0, OP_INVALID, false, 0;
    }

    method Reset()
      requires Valid()
      modifies this
      ensures Valid() && buf == old(buf) && copied == old(copied)
      ensures Abs() == Emptied(old(Abs()))
    {
      len, off, lastRead := 0, 0, OP_INVALID;
    }

    // b.lastRead = opInvalid
    method Invalidate()
      requires Valid()
      modifies this`lastRead
      ensures Valid() && Abs() == old(Abs()).(lastRead := OP_INVALID)
    {
      lastRead := OP_INVALID;
    }

    method Truncate(n: int) returns (ok: bool)
      requires Valid()
      modifies this
      ensures Valid() && buf == old(buf) && copied == old(copied)
      ensures (Abs(), if ok then DONE else Panic) == Truncated(old(Abs()), n)
    {
      if n == 0 {
        Reset();
        return true;
      }
      lastRead := OP_INVALID;
      if n < 0 || n > len - off {
        return false;
      }
      Narrow(buf, off, len, n);
      len := off + n;
      return true;
    }

    method TryGrowByReslice(n: nat) returns (i: nat, ok: bool)
      requires Valid()
      modifies this`len
      ensures Valid()
      ensures ok == (n <= buf.Length - old(len))
      ensures ok ==> i == old(len) && len == i + n && Upto(i) == old(Abs())
      ensures !ok ==> len == old(len) && Abs() == old(Abs())
    {
      if n <= buf.Length - len {
        i, ok := len, true;
        len := len + n;
      } else {
        i, ok := 0, false;
      }
    }

    // append and copy into a fresh array of the size asked for, plus the allocator's slack.
    method GrowSlice(n: nat, slack: nat) returns (b: array<byte>)
      requires Valid()
      ensures fresh(b) && b.Length == Wanted(Abs(), n) + slack
      ensures b[..len - off] == buf[off..len]
    {
      var c := (len - off) + (off + n);
      if c < 2 * (buf.Length - off) {
        c := 2 * (buf.Length - off);
      }
      b := new byte[c + slack];
      CopyTo(b, 0, buf[off..len]);
    }

    // An empty buffer is reset to recover space.
    method Settle()
      requires Valid()
      modifies this
      ensures Valid() && buf == old(buf) && copied == old(copied)
      ensures Abs() == Settled(old(Abs()))
    {
      if len == off && off != 0 {
        Reset();
      }
    }

    method AllocateSmall(n: nat)
      requires Valid() && none && n <= SMALL_BUFFER_SIZE
      modifies this`buf, this`len, this`none
      ensures Valid() && fresh(buf) && off == 0 && len == n
      ensures Upto(0) == State([], [], SMALL_BUFFER_SIZE, lastRead, false)
    {
      buf := new byte[SMALL_BUFFER_SIZE];
      len, none := n, false;
    }

    method SlideDown(n: nat)
      requires Valid() && n + (len - off) <= buf.Length
      modifies this`off, this`len, this`copied, buf
      ensures Valid() && off == 0 && len == old(len - off) + n && copied == old(copied) + old(len - off)
      ensures Upto(old(len - off)) == State([], old(Abs()).held, buf.Length - old(len - off), lastRead, none)
    {
      var m := len - off;
      CopyTo(buf, 0, buf[off..len]);
      copied := copied + m;
      off, len := 0, m + n;
      assert buf[off..m] == old(buf[off..len]);
    }

    method MoveUp(n: nat, slack: nat)
      requires Valid()
      modifies this`buf, this`off, this`len, this`none, this`copied
      ensures Valid() && fresh(buf) && off == 0 && len == old(len - off) + n && copied == old(copied) + old(len - off)
      ensures
        var m := old(len - off);
        Upto(m) == State([], old(Abs()).held, Wanted(old(Abs()), n) + slack - m, lastRead, false)
    {
      var m := len - off;
      var b := GrowSlice(n, slack);
      buf := b;
      none := false;
      copied := copied + m;
      off, len := 0, m + n;
      assert buf[off..m] == old(buf[off..len]);
    }

    // The last part of grow: slide down, or move to a larger array.
    method Relocate(n: nat, alloc: Alloc) returns (ok: bool)
      requires Valid() && n > buf.Length - len
      modifies this, buf
      ensures Valid() && (buf == old(buf) || fresh(buf))
      ensures
        var r := Relocated(old(Abs()), n, alloc);
        && ok == !r.TooLarge?
        && copied == old(copied) + RoomCost(r)
        && (!ok ==> Abs() == r.s)
        && (ok ==> off == 0 && len == old(len - off) + n && Upto(old(len - off)) == r.s)
    {
      hide Abs, Upto, Wanted;
      Shape();
      var m := len - off;
      var c := buf.Length;
      if n <= c / 2 - m {
        SlideDown(n);
      } else if c > MAX_INT - c - n || alloc.Fails? {
        return false;
      } else {
        MoveUp(n, alloc.slack);
      }
      return true;
    }

    /**
      grow: makes room for n more bytes and takes it; i is where they go.  The held bytes
      stay what they were, and copied counts every byte moved.
     */
    method Enlarge(n: nat, alloc: Alloc) returns (i: nat, ok: bool)
      requires Valid()
      modifies this, buf
      ensures Valid() && (buf == old(buf) || fresh(buf))
      ensures
        var r := MakeRoom(old(Abs()), n, alloc);
        && ok == !r.TooLarge?
        && copied == old(copied) + RoomCost(r)
        && (!ok ==> Abs() == r.s)
        && (ok ==> off <= i && len == i + n && Upto(i) == r.s)
    {
      hide Settled, Relocated, Step, Emptied, Abs, Upto;
      Settle();
      Shape();
      var m := len - off;
      i, ok := TryGrowByReslice(n);
      if ok {
        return;
      }
      if none && n <= SMALL_BUFFER_SIZE {
        AllocateSmall(n);
        return 0, true;
      }
      ok := Relocate(n, alloc);
      return m, ok;
    }

    method Grow(n: int, alloc: Alloc) returns (ok: bool)
      requires Valid()
      modifies this, buf
      ensures Valid() && (buf == old(buf) || fresh(buf))
      ensures (Abs(), if ok then DONE else Panic) == Grew(old(Abs()), n, alloc)
      ensures copied == old(copied) + Cost(old(Abs()), ByteQueue.Grow(n, alloc))
    {
      hide MakeRoom, Abs, Upto;
      if n < 0 {
        return false;
      }
      var m;
      m, ok := Enlarge(n, alloc);
      if ok {
        GiveBack(m);
      }
    }

    // b.buf = b.buf[:m]
    method GiveBack(m: nat)
      requires Valid() && off <= m <= len
      modifies this`len
      ensures Valid() && Abs() == old(Upto(m))
    {
      len := m;
    }

    // How every write begins: a reslice if that is enough, else grow.
    method Reserve(n: nat, alloc: Alloc) returns (i: nat, ok: bool)
      requires Valid()
      modifies this, buf
      ensures Valid() && (buf == old(buf) || fresh(buf))
      ensures
        var r := WriteRoom(old(Abs()).(lastRead := OP_INVALID), n, alloc);
        && ok == !r.TooLarge?
        && copied == old(copied) + RoomCost(r)
        && (!ok ==> Abs() == r.s)
        && (ok ==> off <= i && len == i + n && Upto(i) == r.s)
    {
      hide MakeRoom, Abs, Upto;
      Invalidate();
      Shape();
      i, ok := TryGrowByReslice(n);
      if !ok {
        i, ok := Enlarge(n, alloc);
      }
    }

    method Write(p: seq<byte>, alloc: Alloc) returns (n: nat, ok: bool)
      requires Valid()
      modifies this, buf
      ensures Valid() && (buf == old(buf) || fresh(buf))
      ensures (Abs(), if ok then DONE else Panic) == Wrote(old(Abs()), p, alloc)
      ensures copied == old(copied) + Cost(old(Abs()), ByteQueue.Write(p, alloc))
      ensures n == if ok then |p| else 0
    {
      hide WriteRoom, Upto;
      var m;
      m, ok := Reserve(|p|, alloc);
      if !ok {
        return 0, false;
      }
      Put(m, p);
      return |p|, true;
    }

    // Filling the room taken.
    method Put(m: nat, p: seq<byte>)
      requires Valid() && off <= m && m + |p| == len
      modifies buf
      ensures Valid() && Abs() == Append(old(Upto(m)), p)
    {
      CopyTo(buf, m, p);
      Place(off, m, p);
      assert buf[..off] == old(buf[..off]) && buf[off..m] == old(buf[off..m]);
    }

    lemma Place(lo: nat, m: nat, p: seq<byte>)
      requires lo <= m && m + |p| <= buf.Length && buf[m..m + |p|] == p
      ensures buf[lo..m + |p|] == buf[lo..m] + p
    {
    }

    method WriteByte(c: byte, alloc: Alloc) returns (ok: bool)
      requires Valid()
      modifies this, buf
      ensures Valid() && (buf == old(buf) || fresh(buf))
      ensures (Abs(), if ok then DONE else Panic) == Wrote(old(Abs()), [c], alloc)
      ensures copied == old(copied) + Cost(old(Abs()), ByteQueue.Write([c], alloc))
    {
      hide WriteRoom, Upto;
      var m;
      m, ok := Reserve(1, alloc);
      if ok {
        Put(m, [c]);
      }
    }

    lemma Advanced(k: nat, last: int)
      requires Valid() && k <= len - off
      ensures Take(Abs(), k, last) == State(buf[..off + k], buf[off + k..len], buf.Length - len, last, none)
      ensures Abs().held[..k] == buf[off..off + k]
    {
      AdvancedBy(k, last, buf[..off], buf[off..off + k], buf[off + k..len]);
    }

    // The same with the three parts named.
    lemma AdvancedBy(k: nat, last: int, past: seq<byte>, front: seq<byte>, rest: seq<byte>)
      requires Valid() && k <= len - off
      requires past == buf[..off] && front == buf[off..off + k] && rest == buf[off + k..len]
      ensures Take(Abs(), k, last) == State(buf[..off + k], rest, buf.Length - len, last, none)
      ensures Abs().held[..k] == front
    {
      hide Take;
      GlueFront(buf, off, off + k);
      Glue(buf, off, off + k, len);
      assert |front| == k;
      TakeIs(Abs(), front, rest, last);
    }

    // Moving off over k unread bytes.
    method Advance(k: nat, last: int) returns (data: seq<byte>)
      requires Valid() && k <= len - off && OP_READ <= last <= 4
      modifies this`off, this`lastRead
      ensures Valid() && Abs() == Take(old(Abs()), k, last)
      ensures data == old(Abs()).held[..k]
    {
      hide Take;
      Advanced(k, last);
      data := buf[off..off + k];
      off := off + k;
      lastRead := last;
    }

    method Retreat(k: nat)
      requires Valid() && k <= off
      modifies this`off, this`lastRead
      ensures Valid() && Abs() == PutBack(old(Abs()), k)
    {
      assert buf[..off - k] == buf[..off][..off - k];
      assert buf[off - k..len] == buf[..off][off - k..] + buf[off..len];
      off := off - k;
      lastRead := OP_INVALID;
    }

    method Read(room: nat) returns (p: seq<byte>, err: Error)
      requires Valid()
      modifies this
      ensures Valid() && buf == old(buf) && copied == old(copied)
      ensures (Abs(), Reply(p, err)) == TookSome(old(Abs()), room)
    {
      hide Abs, Take;
      Shape();
      Invalidate();
      if len <= off {
        Reset();
        EmptiedAlike(old(Abs()));
        return [], if room == 0 then Nil else Eof;
      }
      var n := Min(room, len - off);
      TakeAlike(old(Abs()), n, if n > 0 then OP_READ else OP_INVALID);
      p := Advance(n, if n > 0 then OP_READ else OP_INVALID);
      return p, Nil;
    }

    method Next(n: int) returns (data: seq<byte>, ok: bool)
      requires Valid()
      modifies this
      ensures Valid() && buf == old(buf) && copied == old(copied)
      ensures (Abs(), if ok then Reply(data, Nil) else Panic) == TookNext(old(Abs()), n)
    {
      hide Abs, Take;
      Shape();
      Invalidate();
      if n < 0 {
        return [], false;
      }
      var k := Min(n, len - off);
      TakeAlike(old(Abs()), k, if k > 0 then OP_READ else OP_INVALID);
      data := Advance(k, if k > 0 then OP_READ else OP_INVALID);
      return data, true;
    }

    method ReadByte() returns (c: byte, err: Error)
      requires Valid()
      modifies this
      ensures Valid() && buf == old(buf) && copied == old(copied)
      ensures (Abs(), Reply(if err == Nil then [c] else [], err)) == TookByte(old(Abs()))
    {
      if len <= off {
        Reset();
        return 0, Eof;
      }
      var data := Advance(1, OP_READ);
      assert data == [data[0]];
      return data[0], Nil;
    }

    method ReadRune() returns (r: int, size: nat, err: Error)
      requires Valid()
      modifies this
      ensures Valid() && buf == old(buf) && copied == old(copied)
      ensures size <= |old(Abs()).held|
      ensures (Abs(), Reply(old(Abs()).held[..size], err)) == TookRune(old(Abs()))
      ensures err == Nil ==> old(Abs()).held != [] && r == Utf8.Rune(old(Abs()).held)
    {
      if len <= off {
        Reset();
        return 0, 0, Eof;
      }
      Utf8.Ascii(buf[off..len]);
      hide Utf8.Width, Utf8.Rune;
      r, size := buf[off], 1;
      if r >= 0x80 {
        r, size := Utf8.Rune(buf[off..len]), Utf8.Width(buf[off..len]);
      }
      var data := Advance(size, size);
      return r, size, Nil;
    }

    method UnreadRune() returns (err: Error)
      requires Valid()
      modifies this
      ensures Valid() && buf == old(buf) && copied == old(copied)
      ensures (Abs(), Reply([], err)) == RuneUnread(old(Abs()))
    {
      if lastRead <= OP_INVALID {
        return BadUnread;
      }
      Retreat(if off >= lastRead then lastRead else 0);
      return Nil;
    }

    method UnreadByte() returns (err: Error)
      requires Valid()
      modifies this
      ensures Valid() && buf == old(buf) && copied == old(copied)
      ensures (Abs(), Reply([], err)) == ByteUnread(old(Abs()))
    {
      if lastRead == OP_INVALID {
        return BadUnread;
      }
      Retreat(if off > 0 then 1 else 0);
      return Nil;
    }

    method ReadBytes(delim: byte) returns (line: seq<byte>, err: Error)
      requires Valid()
      modifies this
      ensures Valid() && buf == old(buf) && copied == old(copied)
      ensures (Abs(), Reply(line, err)) == TookLine(old(Abs()), delim)
    {
      var i := Delimiter(buf[off..len], delim);
      hide Delimiter;
      var end := off + i + 1;
      err := Nil;
      if i < 0 {
        end := len;
        err := Eof;
      }
      line := Advance(end - off, OP_READ);
    }
  }
}
