/**
  Closing an io.Pipe: which error a close stores, and which one the calls report.
 */
module PipeClosing {
  import opened Bytes
  import opened Pipe

  // Once a close has returned, the pipe is closed.
  ghost predicate Closed(s: State) { forall c :: At(s, c) && s.calls[c].CDone? ==> s.done }

  lemma StepClosed(s: State, e: Event)
    requires Enabled(s, e) && Closed(s)
    ensures Closed(Step(s, e))
  {
  }

  lemma {:induction false} RunClosed(s: State, es: seq<Event>, t: State)
    requires Closed(s) && Run(s, es, t)
    ensures Closed(t)
    decreases |es|
  {
    if es != [] {
      hide Step, Enabled, Closed;
      StepClosed(s, es[0]);
      RunClosed(Step(s, es[0]), es[1..], t);
    }
  }

  /** A close that has returned has closed the pipe. */
  lemma CloseCloses(s: State, c: Id)
    requires Reachable(s) && At(s, c) && s.calls[c].CDone?
    ensures s.done && (s.rerr.Some? || s.werr.Some?)
  {
    var es :| Run(INIT, es, s);
    RunClosed(INIT, es, s);
    CloseHasError(s);
  }

  lemma CloseHasError(s: State)
    requires Reachable(s)
    ensures s.done ==> s.rerr.Some? || s.werr.Some?
  {
    ReachableInv(s);
    assert ErrorInv(s);
    hide LockInv, PendingInv, CountInv, ReaderInv, StreamInv;
  }

  /**
    The first close of a side decides its error for good: the error it was given, or EOF
    for the writing side and ErrClosedPipe for the reading side.
   */
  lemma FirstCloseStays(s: State, id: Id, side: bool, why: Option<Error>, es: seq<Event>, u: State)
    requires Enabled(s, Store(id)) && s.calls[id] == CStore(side, why) && Run(Step(s, Store(id)), es, u)
    ensures side && s.werr.None? ==> u.werr == (if why.Some? then why else Some(EOF))
    ensures !side && s.rerr.None? ==> u.rerr == (if why.Some? then why else Some(ErrClosedPipe))
    ensures s.werr.Some? ==> u.werr == s.werr
    ensures s.rerr.Some? ==> u.rerr == s.rerr
  {
    var t := Step(s, Store(id));
    StepLater(s, Store(id));
    WrittenOnce(t, es, u);
  }

  /** Readers of a pipe that only its writer has closed report that close's error, EOF if
      it gave none; and writers of one that only its reader has closed, ErrClosedPipe. */
  lemma CloseReachesOtherSide(s: State, id: Id, side: bool, why: Option<Error>, es: seq<Event>, u: State, c: Id)
    requires Reachable(s) && Enabled(s, Store(id)) && s.calls[id] == CStore(side, why)
    requires Run(Step(s, Store(id)), es, u) && At(u, c)
    ensures side && s.werr.None? && u.rerr.None? && u.calls[c].RDone? && u.calls[c].err.Some? ==>
      u.calls[c].err == if why.Some? then why else Some(EOF)
    ensures !side && s.rerr.None? && u.werr.None? && u.calls[c].WDone? && u.calls[c].err.Some? ==>
      u.calls[c].err == if why.Some? then why else Some(ErrClosedPipe)
  {
    hide Step, Enabled;
    FirstCloseStays(s, id, side, why, es, u);
    var before :| Run(INIT, before, s);
    assert Run(s, [Store(id)] + es, u) by {
      assert ([Store(id)] + es)[1..] == es;
    }
    RunsJoin(INIT, before, s, [Store(id)] + es, u);
    assert Reachable(u);
    CloseErrorsExplained(u, c);
  }

  // A call whose own side is closed and that has not looked at the errors before that.
  ghost predicate OwnClosed(s: State, c: Id) {
    At(s, c) &&
    match s.calls[c]
    case RErr2(seen) => s.rerr.Some? && seen.Some?
    case RDone(got, err) => err.Some? ==> err == Some(ErrClosedPipe)
    case WErr2(_, _, _, seen) => s.werr.Some? && seen.Some?
    case WDone(_, _, err) => err.Some? ==> err == Some(ErrClosedPipe)
    case call => if call.IsWriter() then s.werr.Some? else s.rerr.Some?
  }

  lemma StepOwnClosed(s: State, e: Event, c: Id)
    requires Enabled(s, e) && OwnClosed(s, c)
    ensures OwnClosed(Step(s, e), c)
  {
    hide OwnClosed, Step, Enabled;
    if e.Store? {
      StoreOwnClosed(s, e.id, c);
    } else if e.LoadOwn? || e.LoadOther? {
      LoadOwnClosed(s, e, c);
    } else if e.Rendezvous? || e.Acknowledge? {
      MeetOwnClosed(s, e, c);
    } else {
      MoveOwnClosed(s, e, c);
    }
  }

  lemma StoreOwnClosed(s: State, id: Id, c: Id)
    requires Enabled(s, Store(id)) && OwnClosed(s, c)
    ensures OwnClosed(Step(s, Store(id)), c)
  {
  }

  lemma LoadOwnClosed(s: State, e: Event, c: Id)
    requires Enabled(s, e) && OwnClosed(s, c) && (e.LoadOwn? || e.LoadOther?)
    ensures OwnClosed(Step(s, e), c)
  {
  }

  lemma MeetOwnClosed(s: State, e: Event, c: Id)
    requires Enabled(s, e) && OwnClosed(s, c) && (e.Rendezvous? || e.Acknowledge?)
    ensures OwnClosed(Step(s, e), c)
  {
  }

  lemma MoveOwnClosed(s: State, e: Event, c: Id)
    requires Enabled(s, e) && OwnClosed(s, c) && (e.Begin? || e.CheckOpen? || e.SeeDone? || e.Lock? || e.CloseDone?)
    ensures OwnClosed(Step(s, e), c)
  {
  }

  lemma {:induction false} RunOwnClosed(s: State, es: seq<Event>, t: State, c: Id)
    requires OwnClosed(s, c) && Run(s, es, t)
    ensures OwnClosed(t, c)
    decreases |es|
  {
    if es != [] {
      hide Step, Enabled, OwnClosed;
      StepOwnClosed(s, es[0], c);
      RunOwnClosed(Step(s, es[0]), es[1..], t, c);
    }
  }

  /** A Read on a reading side that is closed already, and a Write on a writing side that
      is, fail with ErrClosedPipe or not at all, whatever the other side says. */
  lemma OwnSideWins(s: State, c: Id, es: seq<Event>, t: State)
    requires At(s, c) && Run(s, es, t)
    requires (s.calls[c].RStart? && s.rerr.Some?) || (s.calls[c].WStart? && s.werr.Some?)
    ensures At(t, c)
    ensures t.calls[c].RDone? && t.calls[c].err.Some? ==> t.calls[c].err == Some(ErrClosedPipe)
    ensures t.calls[c].WDone? && t.calls[c].err.Some? ==> t.calls[c].err == Some(ErrClosedPipe)
  {
    RunOwnClosed(s, es, t, c);
  }

  // A call that began on a closed pipe.
  predicate Refused(c: Call) {
    match c
    case RStart(_) => true
    case RErr => true
    case RErr2(_) => true
    case RDone(got, err) => got == [] && err.Some?
    case WStart(_) => true
    case WErr(_, n, locked) => n == 0 && !locked
    case WErr2(_, n, locked, _) => n == 0 && !locked
    case WDone(_, n, err) => n == 0 && err.Some?
    case _ => false
  }

  lemma {:induction false} RunRefused(s: State, es: seq<Event>, t: State, c: Id)
    requires s.done && At(s, c) && Refused(s.calls[c]) && Run(s, es, t)
    ensures At(t, c) && Refused(t.calls[c])
    decreases |es|
  {
    if es != [] {
      RunRefused(Step(s, es[0]), es[1..], t, c);
    }
  }

  /** A call that begins on a closed pipe moves no bytes and fails. */
  lemma ClosedForGood(s: State, c: Id, es: seq<Event>, t: State)
    requires s.done && At(s, c) && (s.calls[c].RStart? || s.calls[c].WStart?) && Run(s, es, t)
    ensures At(t, c)
    ensures t.calls[c].RDone? ==> t.calls[c].got == [] && t.calls[c].err.Some?
    ensures t.calls[c].WDone? ==> t.calls[c].n == 0 && t.calls[c].err.Some?
  {
    RunRefused(s, es, t, c);
  }
}
