/**
  What io.Pipe is for: a Write is handed over in full to readers that have the room, and a
  reader gets as much of it as it has room for.
 */
module PipeDelivery {
  import opened Bytes
  import opened Pipe
  import opened PipeProgress
  import opened Totals

  /** One rendezvous hands over the next bytes of the Write: it fills the reader or drains
      the writer, and touches nobody else. */
  lemma RendezvousDelivers(s: State, w: Id, r: Id)
    requires Inv(s) && Enabled(s, Rendezvous(w, r))
    ensures
      var t := Step(s, Rendezvous(w, r));
      var d, n, cap := s.calls[w].data, s.calls[w].n, s.calls[r].cap;
      && At(t, w) && t.calls[w] == WAck(d, n) && At(t, r) && t.calls[r].RHold?
      && var chunk := t.calls[r].got;
         && |chunk| <= cap && n + |chunk| <= |d|
         && (|chunk| == cap || n + |chunk| == |d|)
         && (forall i :: 0 <= i < |chunk| ==> chunk[i] == d[n + i])
         && t.log == s.log + [Handover(w, r, chunk)]
         && t.calls.Keys == s.calls.Keys && t.done == s.done
         && (forall c :: c in s.calls && c != w && c != r ==> t.calls[c] == s.calls[c])
  {
    assert Counted(s.calls[w]);
  }

  // The room of a reader that has got nothing yet.
  function RoomOf(c: Call): nat {
    match c
    case RStart(cap) => cap
    case RWait(cap) => cap
    case _ => 0
  }

  predicate Waiting(c: Call) { c.RStart? || c.RWait? }

  predicate Reading(c: Call) { c.RStart? || c.RWait? || c.RHold? }

  ghost function Room(s: State): nat { Total(s.calls, RoomOf, s.calls.Keys) }

  // An open pipe on which w is the only Write under way, and nobody is closing.
  ghost predicate OnlyWriter(s: State, w: Id, d: seq<byte>) {
    && !s.done && At(s, w) && s.calls[w].IsWriter() && s.calls[w].data == d
    && !s.calls[w].WErr? && !s.calls[w].WErr2? && (s.calls[w].WDone? ==> s.calls[w] == WDone(d, |d|, None))
    && (forall c :: At(s, c) && c != w ==> Reading(s.calls[c]) || s.calls[c].Finished())
  }

  // The readers there are have room for what is left, and the Write has somebody to meet.
  ghost predicate Served(s: State, w: Id)
    requires At(s, w) && s.calls[w].IsWriter()
  {
    && |s.calls[w].data| - |Sent(s, w)| <= Room(s)
    && (s.calls[w].WAck? || s.calls[w].WDone? || exists r :: At(s, r) && Waiting(s.calls[r]))
  }

  lemma {:induction false} SomeRoom(calls: map<Id, Call>, ids: set<Id>)
    requires ids <= calls.Keys && Total(calls, RoomOf, ids) > 0
    ensures exists r :: r in ids && RoomOf(calls[r]) > 0
    decreases |ids|
  {
    var r :| r in ids;
    TotalSplit(calls, RoomOf, ids, r);
    if RoomOf(calls[r]) == 0 {
      SomeRoom(calls, ids - {r});
    }
  }

  // What the invariant says about the Write.
  lemma OfferCounted(s: State, w: Id)
    requires Inv(s) && At(s, w) && s.calls[w].WOffer?
    ensures s.calls[w].n <= |s.calls[w].data|
  {
    assert Counted(s.calls[w]);
  }

  lemma AckPending(s: State, w: Id, r: Id)
    requires Inv(s) && Enabled(s, Acknowledge(w, r))
    ensures s.log != [] && |s.calls[r].got| == LastChunk(s.log) && s.calls[w].n + |s.calls[r].got| <= |s.calls[w].data|
  {
    assert PendingInv(s);
    hide LockInv, StreamInv, ReaderInv, ErrorInv, CountInv;
  }

  lemma AckEnabled(s: State, w: Id)
    requires Inv(s) && At(s, w) && s.calls[w].WAck?
    ensures s.log != [] && Enabled(s, Acknowledge(w, s.log[|s.log| - 1].reader))
  {
    assert PendingInv(s);
    hide LockInv, StreamInv, ReaderInv, ErrorInv, CountInv;
  }

  lemma LockFree(s: State, w: Id, d: seq<byte>)
    requires Inv(s) && OnlyWriter(s, w, d) && s.calls[w].WLock?
    ensures s.wrMu.None?
  {
    assert LockInv(s);
    hide PendingInv, StreamInv, ReaderInv, ErrorInv, CountInv;
  }

  // The steps there are.
  lemma OnlySteps(s: State, e: Event, w: Id, d: seq<byte>)
    requires OnlyWriter(s, w, d) && Enabled(s, e) && !e.Begin?
    ensures e.CheckOpen? || e == Lock(w) || (e.Rendezvous? && e.writer == w) || (e.Acknowledge? && e.writer == w)
  {
  }

  lemma CheckServed(s: State, id: Id, w: Id, d: seq<byte>)
    requires OnlyWriter(s, w, d) && Served(s, w) && Enabled(s, CheckOpen(id))
    ensures OnlyWriter(Step(s, CheckOpen(id)), w, d) && Served(Step(s, CheckOpen(id)), w)
  {
    var t := Step(s, CheckOpen(id));
    OneChanges(s.calls, t.calls, RoomOf, id);
    hide Total;
    if !s.calls[w].WAck? && !s.calls[w].WDone? {
      var r :| At(s, r) && Waiting(s.calls[r]);
      assert At(t, r) && Waiting(t.calls[r]);
    }
  }

  lemma LockServed(s: State, w: Id, d: seq<byte>)
    requires OnlyWriter(s, w, d) && Served(s, w) && Enabled(s, Lock(w))
    ensures OnlyWriter(Step(s, Lock(w)), w, d) && Served(Step(s, Lock(w)), w)
  {
    var t := Step(s, Lock(w));
    OneChanges(s.calls, t.calls, RoomOf, w);
    hide Total;
    var r :| At(s, r) && Waiting(s.calls[r]);
    assert At(t, r) && Waiting(t.calls[r]);
  }

  lemma MeetServed(s: State, w: Id, r: Id, d: seq<byte>)
    requires Inv(s) && OnlyWriter(s, w, d) && Served(s, w) && Enabled(s, Rendezvous(w, r))
    ensures OnlyWriter(Step(s, Rendezvous(w, r)), w, d) && Served(Step(s, Rendezvous(w, r)), w)
  {
    hide Inv, Total;
    var t := Step(s, Rendezvous(w, r));
    RendezvousDelivers(s, w, r);
    OfferCounted(s, w);
    hide Step;
    TwoChange(s.calls, t.calls, RoomOf, w, r);
    assert |Sent(t, w)| == |Sent(s, w)| + |t.calls[r].got|;
  }

  lemma AckServed(s: State, w: Id, r: Id, d: seq<byte>)
    requires Inv(s) && OnlyWriter(s, w, d) && Served(s, w) && Enabled(s, Acknowledge(w, r))
    ensures OnlyWriter(Step(s, Acknowledge(w, r)), w, d) && Served(Step(s, Acknowledge(w, r)), w)
  {
    hide Inv, Total;
    AckPending(s, w, r);
    var t := Step(s, Acknowledge(w, r));
    TwoChange(s.calls, t.calls, RoomOf, w, r);
    if !t.calls[w].WDone? {
      SomeRoom(t.calls, t.calls.Keys);
      var q :| q in t.calls.Keys && RoomOf(t.calls[q]) > 0;
      assert At(t, q) && Waiting(t.calls[q]);
    }
  }

  lemma StepServed(s: State, e: Event, w: Id, d: seq<byte>)
    requires Inv(s) && OnlyWriter(s, w, d) && Served(s, w) && Enabled(s, e) && !e.Begin?
    ensures OnlyWriter(Step(s, e), w, d) && Served(Step(s, e), w)
  {
    OnlySteps(s, e, w, d);
    hide Inv, Step, Served, OnlyWriter;
    if e.CheckOpen? {
      CheckServed(s, e.id, w, d);
    } else if e.Lock? {
      LockServed(s, w, d);
    } else if e.Rendezvous? {
      MeetServed(s, w, e.reader, d);
    } else {
      AckServed(s, w, e.reader, d);
    }
  }

  // What has been handed over since only w was writing.
  ghost predicate Streamed(s: State, w: Id, before: seq<byte>)
    requires At(s, w) && s.calls[w].IsWriter()
  {
    Delivered(s.log) == before + Sent(s, w)
  }

  lemma MeetStreamed(s: State, w: Id, r: Id, before: seq<byte>)
    requires Inv(s) && Enabled(s, Rendezvous(w, r)) && Streamed(s, w, before)
    ensures Streamed(Step(s, Rendezvous(w, r)), w, before)
  {
    var t := Step(s, Rendezvous(w, r));
    assert CountInv(s);
    hide Inv, Sent;
    SentGrows(s, w, r);
    assert t.log[..|t.log| - 1] == s.log;
    Reassociate(before, Sent(s, w), t.log[|s.log|].chunk);
  }

  lemma StepStreamed(s: State, e: Event, w: Id, d: seq<byte>, before: seq<byte>)
    requires Inv(s) && OnlyWriter(s, w, d) && Enabled(s, e) && !e.Begin? && Streamed(s, w, before)
    requires OnlyWriter(Step(s, e), w, d)
    ensures Streamed(Step(s, e), w, before)
  {
    hide Inv, Delivered;
    OnlySteps(s, e, w, d);
    if e.Rendezvous? {
      MeetStreamed(s, w, e.reader, before);
    } else if e.Acknowledge? {
      AckPending(s, w, e.reader);
    }
  }

  lemma {:induction false} RunServed(s: State, es: seq<Event>, t: State, w: Id, d: seq<byte>, before: seq<byte>)
    requires Inv(s) && OnlyWriter(s, w, d) && Served(s, w) && Streamed(s, w, before)
    requires Run(s, es, t) && NoBegin(es)
    ensures Inv(t) && OnlyWriter(t, w, d) && Served(t, w) && Streamed(t, w, before)
    decreases |es|
  {
    if es != [] {
      assert !es[0].Begin?;
      StepServed(s, es[0], w, d);
      StepStreamed(s, es[0], w, d, before);
      hide Inv, Step, Served, Streamed, Enabled;
      StepKeeps(s, es[0]);
      RestBegins(es);
      RunServed(Step(s, es[0]), es[1..], t, w, d, before);
    }
  }

  lemma RestBegins(es: seq<Event>)
    requires es != [] && NoBegin(es)
    ensures NoBegin(es[1..])
  {
  }

  // Until the only Write has returned, somebody can go on.
  lemma CanGoOn(t: State, w: Id, d: seq<byte>) returns (e: Event)
    requires Inv(t) && OnlyWriter(t, w, d) && Served(t, w) && !t.calls[w].WDone?
    ensures Enabled(t, e) && !e.Begin?
  {
    hide Inv;
    var c := t.calls[w];
    if c.WStart? {
      e := CheckOpen(w);
    } else if c.WLock? {
      LockFree(t, w, d);
      e := Lock(w);
    } else if c.WAck? {
      AckEnabled(t, w);
      e := Acknowledge(w, t.log[|t.log| - 1].reader);
    } else {
      var r :| At(t, r) && Waiting(t.calls[r]);
      e := if t.calls[r].RWait? then Rendezvous(w, r) else CheckOpen(r);
    }
  }

  // Before a Write has handed over anything.
  predicate Fresh(c: Call) { c.WStart? || c.WLock? }

  /**
    On an open pipe, a Write that is the only one under way, with readers that have room
    for all of it, has returned its full count and no error in any run that cannot go on;
    and what was handed over meanwhile is what it wrote.
   */
  lemma WriteCompletes(s: State, es: seq<Event>, t: State, w: Id, d: seq<byte>, r: Id)
    requires Reachable(s) && OnlyWriter(s, w, d) && Fresh(s.calls[w])
    requires At(s, r) && Waiting(s.calls[r]) && |d| <= Room(s)
    requires Run(s, es, t) && NoBegin(es) && Stuck(t)
    ensures t.calls.Keys == s.calls.Keys && t.calls[w] == WDone(d, |d|, None)
    ensures Delivered(t.log) == Delivered(s.log) + d
  {
    ReachableInv(s);
    BeginServed(s, w, d, r);
    RunRanks(s, es, t);
    hide Inv, Step, Enabled, Delivered, Served, OnlyWriter;
    RunServed(s, es, t, w, d, Delivered(s.log));
    EndsServed(t, w, d, Delivered(s.log));
  }

  lemma BeginServed(s: State, w: Id, d: seq<byte>, r: Id)
    requires OnlyWriter(s, w, d) && Fresh(s.calls[w]) && At(s, r) && Waiting(s.calls[r]) && |d| <= Room(s)
    ensures Served(s, w) && Streamed(s, w, Delivered(s.log))
  {
    hide Delivered, Total;
  }

  lemma EndsServed(t: State, w: Id, d: seq<byte>, before: seq<byte>)
    requires Inv(t) && OnlyWriter(t, w, d) && Served(t, w) && Streamed(t, w, before) && Stuck(t)
    ensures t.calls[w] == WDone(d, |d|, None) && Delivered(t.log) == before + d
  {
    hide Inv, Enabled, Delivered, Served;
    if !t.calls[w].WDone? {
      var e := CanGoOn(t, w, d);
    }
    assert d[..|d|] == d;
  }

  // ---- One writer, one reader ----

  // What the reader gets: all there is, or all it has room for.
  predicate Share(got: seq<byte>, d: seq<byte>, cap: nat) {
    if |d| <= cap then got == d else got == d[..cap]
  }

  // How the two calls move together.
  ghost predicate Pair(s: State, w: Id, r: Id, d: seq<byte>, cap: nat) {
    && !s.done && w != r && At(s, w) && At(s, r)
    && (forall c :: At(s, c) && c != w && c != r ==> s.calls[c].Finished())
    && var a, b := s.calls[w], s.calls[r];
       || ((a == WStart(d) || a == WLock(d) || a == WOffer(d, 0)) && (b == RStart(cap) || b == RWait(cap)))
       || (a == WAck(d, 0) && b.RHold? && Share(b.got, d, cap))
       || (b.RDone? && b.err.None? && Share(b.got, d, cap) && a == if |d| <= cap then WDone(d, |d|, None) else WOffer(d, cap))
  }

  lemma StepPair(s: State, e: Event, w: Id, r: Id, d: seq<byte>, cap: nat)
    requires Pair(s, w, r, d, cap) && Enabled(s, e) && !e.Begin?
    ensures Pair(Step(s, e), w, r, d, cap)
  {
    PairSteps(s, e, w, r, d, cap);
    if e.Rendezvous? {
      PairMeets(s, w, r, d, cap);
    } else if e.Acknowledge? {
      PairAcknowledges(s, w, r, d, cap);
    }
  }

  lemma PairSteps(s: State, e: Event, w: Id, r: Id, d: seq<byte>, cap: nat)
    requires Pair(s, w, r, d, cap) && Enabled(s, e) && !e.Begin?
    ensures e.CheckOpen? || e.Lock? || e == Rendezvous(w, r) || e == Acknowledge(w, r)
  {
  }

  lemma PairAcknowledges(s: State, w: Id, r: Id, d: seq<byte>, cap: nat)
    requires Pair(s, w, r, d, cap) && Enabled(s, Acknowledge(w, r))
    ensures Pair(Step(s, Acknowledge(w, r)), w, r, d, cap)
  {
  }

  lemma PairMeets(s: State, w: Id, r: Id, d: seq<byte>, cap: nat)
    requires Pair(s, w, r, d, cap) && Enabled(s, Rendezvous(w, r))
    ensures Pair(Step(s, Rendezvous(w, r)), w, r, d, cap)
  {
    assert d[0..] == d && d[..|d|] == d;
  }

  lemma {:induction false} RunPair(s: State, es: seq<Event>, t: State, w: Id, r: Id, d: seq<byte>, cap: nat)
    requires Pair(s, w, r, d, cap) && Run(s, es, t) && NoBegin(es)
    ensures Pair(t, w, r, d, cap)
    decreases |es|
  {
    if es != [] {
      assert !es[0].Begin?;
      hide Pair, Step, Enabled;
      StepPair(s, es[0], w, r, d, cap);
      RestBegins(es);
      RunPair(Step(s, es[0]), es[1..], t, w, r, d, cap);
    }
  }

  /**
    A Write and a Read alone on an open pipe: in any run that cannot go on, the Read has
    returned the whole Write, and the Write its full count and no error; or the Read has
    been filled, and the Write waits to hand over the rest.
   */
  lemma ReadTakesItsShare(s: State, es: seq<Event>, t: State, w: Id, r: Id, d: seq<byte>, cap: nat)
    requires Reachable(s) && !s.done && At(s, w) && At(s, r) && s.calls[w] == WStart(d) && s.calls[r] == RStart(cap)
    requires forall c :: At(s, c) && c != w && c != r ==> s.calls[c].Finished()
    requires Run(s, es, t) && NoBegin(es) && Stuck(t)
    ensures At(t, w) && At(t, r)
    ensures |d| <= cap ==> t.calls[r] == RDone(d, None) && t.calls[w] == WDone(d, |d|, None)
    ensures |d| > cap ==> t.calls[r] == RDone(d[..cap], None) && t.calls[w] == WOffer(d, cap)
  {
    assert Pair(s, w, r, d, cap);
    hide Reachable, Run, NoBegin, Stuck, Pair;
    RunPair(s, es, t, w, r, d, cap);
    ReachesInv(s, es, t);
    PairEnds(t, w, r, d, cap);
  }

  lemma ReachesInv(s: State, es: seq<Event>, t: State)
    requires Reachable(s) && Run(s, es, t)
    ensures Inv(t)
  {
    ReachableInv(s);
    hide Inv;
    RunKeeps(s, es, t);
  }

  lemma PairEnds(t: State, w: Id, r: Id, d: seq<byte>, cap: nat)
    requires Inv(t) && Pair(t, w, r, d, cap) && Stuck(t)
    ensures At(t, w) && At(t, r)
    ensures |d| <= cap ==> t.calls[r] == RDone(d, None) && t.calls[w] == WDone(d, |d|, None)
    ensures |d| > cap ==> t.calls[r] == RDone(d[..cap], None) && t.calls[w] == WOffer(d, cap)
  {
    hide Inv, Enabled;
    if !t.calls[r].RDone? {
      var e := PairGoesOn(t, w, r, d, cap);
    }
  }

  lemma PairGoesOn(t: State, w: Id, r: Id, d: seq<byte>, cap: nat) returns (e: Event)
    requires Inv(t) && Pair(t, w, r, d, cap) && !t.calls[r].RDone?
    ensures Enabled(t, e) && !e.Begin?
  {
    var a, b := t.calls[w], t.calls[r];
    if a.WAck? {
      e := Acknowledge(w, r);
    } else if b.RStart? {
      e := CheckOpen(r);
    } else if a.WStart? {
      e := CheckOpen(w);
    } else if a.WOffer? {
      e := Rendezvous(w, r);
    } else {
      PairLockFree(t, w, r, d, cap);
      e := Lock(w);
    }
  }

  lemma PairLockFree(s: State, w: Id, r: Id, d: seq<byte>, cap: nat)
    requires Inv(s) && Pair(s, w, r, d, cap) && s.calls[w].WLock?
    ensures s.wrMu.None?
  {
    assert LockInv(s);
    hide PendingInv, StreamInv, ReaderInv, ErrorInv, CountInv;
  }
}
