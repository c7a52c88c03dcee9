/**
  AfterFunc: once a cancellation has returned, the functions waiting for it have been
  started, unless they were stopped before.
 */
module ContextAfter {
  import opened Bytes
  import opened Context

  // The function of c is due: c is cancelled, and its function neither started nor stopped.
  predicate Due(s: State, c: nat) {
    && c < |s.cells| == |s.shape| && s.shape[c].kind.After?
    && s.cells[c].attached && s.cells[c].err.Some? && s.cells[c].once.Idle?
  }

  // Frames i and i + 1 of t hold the context above c, and will start c's function.
  predicate Posted(s: State, t: Tid, i: nat, c: nat) {
    && c < |s.shape| && i + 1 < |Stack(s, t)|
    && Stack(s, t)[i].Hold? && Above(s, c) == Some(Stack(s, t)[i].c)
    && Stack(s, t)[i + 1] == Post(c)
  }

  ghost predicate WillStart(s: State, c: nat) { exists t: Tid, i: nat :: Posted(s, t, i, c) }

  // A cancel that comes down from above has its Post below it; one that was called on an
  // AfterFunc's context comes from its stop function.
  predicate EntryOk(s: State, t: Tid, i: nat)
    requires i < |Stack(s, t)|
  {
    var a := Stack(s, t)[i];
    a.Enter? && a.c < |s.cells| == |s.shape| ==>
      if a.direct then s.shape[a.c].kind.After? ==> !s.cells[a.c].once.Idle?
      else i > 0 && Stack(s, t)[i - 1] == Post(a.c)
  }

  ghost predicate Entries(s: State) {
    forall t: Tid, i: nat :: i < |Stack(s, t)| ==> EntryOk(s, t, i)
  }

  ghost predicate Punctual(s: State) { Entries(s) && forall c: nat :: Due(s, c) ==> WillStart(s, c) }

  // ---------------------------------------------------------------- what a step leaves alone

  lemma PostStarts(s: State, t: Tid, x: bool)
    requires WellFormed(s) && Enabled(s, Go(t, x)) && Top(s, t).Post?
    ensures s.shape[Top(s, t).c].kind.After? ==> !GoStep(s, t, x).cells[Top(s, t).c].once.Idle?
  {
  }

  lemma PostedStays(s: State, e: Event, u: Tid, i: nat, c: nat)
    requires Inv(s) && WellFormed(s) && Enabled(s, e) && Posted(s, u, i, c) && s.shape[c].kind.After?
    ensures Posted(Step(s, e), u, i, c) || !Due(Step(s, e), c)
  {
    hide Inv, Step, Enabled;
    AboveSame(s, e, c);
    if e.Go? && e.t == u {
      StepIsGo(s, e);
      if i + 1 < |Stack(s, u)| - 1 {
        FrameOk(s, u, |Stack(s, u)| - 1);
        FrameStays(s, u, e.expired, i);
        FrameStays(s, u, e.expired, i + 1);
      } else {
        PostStarts(s, u, e.expired);
      }
    } else if e.Descend? && e.t == u {
      TopHolds(s, u, e.child);
      DescendStays(s, u, e.child, i);
      DescendStays(s, u, e.child, i + 1);
    } else {
      StandsStill(s, e, u);
    }
  }

  // ---------------------------------------------------------------- entries

  // What an entry says about its frames stays true where they stay.
  lemma OnceLater(s: State, e: Event, c: nat)
    requires Inv(s) && WellFormed(s) && Enabled(s, e) && c < |s.cells| && !s.cells[c].once.Idle?
    ensures !Step(s, e).cells[c].once.Idle?
  {
    StepLater(s, e);
    hide Inv, Step, Enabled;
    assert Keeps(s.cells[c], Step(s, e).cells[c]);
  }

  lemma EntryStays(s: State, e: Event, t: Tid, i: nat)
    requires Inv(s) && WellFormed(s) && Enabled(s, e) && i < |Stack(s, t)| && EntryOk(s, t, i)
    requires
      var st := Stack(Step(s, e), t);
      i < |st| && st[i] == Stack(s, t)[i] && (i > 0 ==> st[i - 1] == Stack(s, t)[i - 1])
    ensures EntryOk(Step(s, e), t, i)
  {
    hide Inv, Step, Enabled;
    FrameOk(s, t, i);
    var a := Stack(s, t)[i];
    SameLengths(s, e);
    if a.Enter? {
      AboveSame(s, e, a.c);
      if !s.cells[a.c].once.Idle? {
        OnceLater(s, e, a.c);
      }
    }
  }

  // The stack a step pushes.
  predicate FreshEntries(s: State, t: Tid, from: nat) {
    forall i: nat :: from <= i < |Stack(s, t)| ==> EntryOk(s, t, i)
  }

  lemma StartEntries(s: State, e: Event, t: Tid)
    requires WellFormed(s) && Enabled(s, e)
    requires (e.CancelCall? || e.Fire? || e.StopCall? || e.Derive?) && e.t == t
    ensures FreshEntries(Step(s, e), t, 0)
  {
  }

  lemma GoEntries(s: State, t: Tid, x: bool)
    requires WellFormed(s) && Enabled(s, Go(t, x)) && ActOk(s, t, Stack(s, t), |Stack(s, t)| - 1)
    ensures FreshEntries(GoStep(s, t, x), t, |Stack(s, t)| - 1)
  {
  }

  lemma DescendEntries(s: State, t: Tid, child: nat)
    requires WellFormed(s) && Enabled(s, Descend(t, child))
    ensures FreshEntries(Step(s, Descend(t, child)), t, |Stack(s, t)| - 1)
  {
  }

  lemma EntriesKept(s: State, e: Event)
    requires Inv(s) && WellFormed(s) && Enabled(s, e) && Entries(s)
    ensures Entries(Step(s, e))
  {
    hide Inv, Step, Enabled, EntryOk, GoStep, ActOk;
    var s' := Step(s, e);
    forall t: Tid, i: nat | i < |Stack(s', t)|
      ensures EntryOk(s', t, i)
    {
      if e.Go? && e.t == t {
        StepIsGo(s, e);
        var n := |Stack(s, t)| - 1;
        FrameOk(s, t, n);
        GoEntries(s, t, e.expired);
        if i < n {
          FrameStays(s, t, e.expired, i);
          if i > 0 { FrameStays(s, t, e.expired, i - 1); }
          EntryStays(s, e, t, i);
        }
      } else if e.Descend? && e.t == t {
        TopHolds(s, t, e.child);
        DescendEntries(s, t, e.child);
        if i < |Stack(s, t)| - 1 {
          DescendStays(s, t, e.child, i);
          if i > 0 { DescendStays(s, t, e.child, i - 1); }
          EntryStays(s, e, t, i);
        }
      } else if (e.CancelCall? || e.Fire? || e.StopCall? || e.Derive?) && e.t == t {
        StartEntries(s, e, t);
      } else {
        OtherStack(s, e, t);
        EntryStays(s, e, t, i);
      }
    }
  }

  // ---------------------------------------------------------------- every step keeps it

  // A function that becomes due will be started by the cancel that came down from above.
  lemma BecomesDue(s: State, e: Event, c: nat)
    requires Inv(s) && WellFormed(s) && Enabled(s, e) && Entries(s) && !Due(s, c) && Due(Step(s, e), c)
    ensures WillStart(Step(s, e), c)
  {
    hide Inv, Step, Enabled, GoStep;
    SameLengths(s, e);
    DueIsOld(s, e, c);
    AboveSame(s, e, c);
    if s.cells[c].err.Some? {
      DueOnlyByError(s, e, c);
    } else {
      FirstCancelWins(s, e, c);
      StepIsGo(s, e);
      var t, n := e.t, |Stack(s, e.t)| - 1;
      FrameOk(s, t, n);
      assert EntryOk(s, t, n);
      DueByEnter(s, t, e.expired, c);
      assert Posted(Step(s, e), t, n - 2, c);
    }
  }

  lemma DueIsOld(s: State, e: Event, c: nat)
    requires WellFormed(s) && Enabled(s, e) && Due(Step(s, e), c)
    ensures c < |s.cells|
  {
  }

  lemma DueOnlyByError(s: State, e: Event, c: nat)
    requires Inv(s) && WellFormed(s) && Enabled(s, e) && c < |s.cells| && s.cells[c].err.Some?
    ensures Due(Step(s, e), c) ==> Due(s, c)
  {
    CellAt(s, c);
    hide Inv;
    AboveSame(s, e, c);
    if !s.cells[c].once.Idle? {
      OnceLater(s, e, c);
    }
  }

  lemma DueByEnter(s: State, t: Tid, x: bool, c: nat)
    requires WellFormed(s) && Enabled(s, Go(t, x)) && c < |s.cells| && Top(s, t).c == c
    requires s.cells[c].err.None? && Due(GoStep(s, t, x), c)
    requires ActOk(s, t, Stack(s, t), |Stack(s, t)| - 1) && EntryOk(s, t, |Stack(s, t)| - 1)
    ensures |Stack(s, t)| >= 3 && Posted(GoStep(s, t, x), t, |Stack(s, t)| - 3, c)
  {
    var n := |Stack(s, t)| - 1;
    assert Top(s, t).Enter?;
    assert !Top(s, t).direct;
    var st := Pop(s, t) + [Hold(c, s.cells[c].children, Top(s, t).err, Top(s, t).cause, Top(s, t).remove)];
    assert Stack(GoStep(s, t, x), t) == st;
    assert st[n - 2] == Stack(s, t)[n - 2] && st[n - 1] == Stack(s, t)[n - 1];
  }

  lemma StepPunctual(s: State, e: Event)
    requires Inv(s) && WellFormed(s) && Enabled(s, e) && Punctual(s)
    ensures Punctual(Step(s, e))
  {
    hide Inv, Step, Enabled, Due, Posted, Entries;
    EntriesKept(s, e);
    forall c: nat | Due(Step(s, e), c)
      ensures WillStart(Step(s, e), c)
    {
      if Due(s, c) {
        var t: Tid, i: nat :| Posted(s, t, i, c);
        DueKind(s, c);
        PostedStays(s, e, t, i, c);
      } else {
        BecomesDue(s, e, c);
      }
    }
  }

  lemma DueKind(s: State, c: nat)
    requires Due(s, c)
    ensures c < |s.shape| && s.shape[c].kind.After?
  {
  }

  lemma {:induction false} RunPunctual(s: State, es: seq<Event>, u: State)
    requires Inv(s) && WellFormed(s) && Punctual(s) && Run(s, es, u)
    ensures Punctual(u)
    decreases |es|
  {
    if es != [] {
      hide Inv, WellFormed, Punctual, Enabled, Step;
      StepKeeps(s, es[0]);
      StepPunctual(s, es[0]);
      RunPunctual(Step(s, es[0]), es[1..], u);
    }
  }

  // ---------------------------------------------------------------- what callers see

  // While a function is due, the context above it is locked.
  lemma DueIsLocked(s: State, c: nat)
    requires Inv(s) && Punctual(s) && Due(s, c)
    ensures Above(s, c).Some? && s.cells[Above(s, c).value].mu.Some?
  {
    assert WillStart(s, c);
    var t: Tid, i: nat :| Posted(s, t, i, c);
    FrameOk(s, t, i);
  }

  lemma ReachablePunctual(s: State)
    requires Reachable(s)
    ensures Punctual(s)
  {
    InitInv();
    var es :| Run(INIT, es, s);
    RunPunctual(INIT, es, s);
  }

  /**
    When a cancel of p has returned, the function of every AfterFunc below p and not
    behind WithoutCancel has been started, or had been stopped.
   */
  lemma AfterFuncRuns(s: State, es: seq<Event>, u: State, t: Tid, p: nat, why: Option<Error>, n: nat)
    requires Reachable(s) && WellFormed(s) && Enabled(s, CancelCall(t, p, why))
    requires Run(Step(s, CancelCall(t, p, why)), es, u) && Stack(u, t) == []
    requires n < |u.cells| == |u.shape| && u.cells[n].attached && Descends(u.shape, n, p) && u.shape[n].kind.After?
    ensures u.cells[n].once.Started? || u.cells[n].once.Stopped?
  {
    hide Step, Enabled, Due, Punctual;
    var e := CancelCall(t, p, why);
    CancelReturnsAfterAll(s, es, u, t, p, why, n);
    ReachesEnd(s, e, es, u);
    ReachableInv(u);
    ReachablePunctual(u);
    if u.cells[n].once.Idle? {
      NowDue(u, n);
      DueIsLocked(u, n);
      ParentReports(s, es, u, t, p, why, n);
    }
  }

  lemma NowDue(u: State, n: nat)
    requires n < |u.cells| == |u.shape| && u.cells[n].attached && u.shape[n].kind.After? && Reports(u, n)
    ensures u.cells[n].once.Idle? ==> Due(u, n)
  {
  }

  // The context above is reported settled as well, so nothing below it is due.
  lemma ParentReports(s: State, es: seq<Event>, u: State, t: Tid, p: nat, why: Option<Error>, n: nat)
    requires Reachable(s) && WellFormed(s) && Enabled(s, CancelCall(t, p, why))
    requires Run(Step(s, CancelCall(t, p, why)), es, u) && Stack(u, t) == []
    requires n < |u.cells| == |u.shape| && u.cells[n].attached && Descends(u.shape, n, p) && u.shape[n].kind.After?
    requires Inv(u)
    ensures Above(u, n).Some? ==> u.cells[Above(u, n).value].mu.None?
  {
    var m := u.shape[n].parent;
    CellAt(u, n);
    assert s.shape[p].kind.Cancel? || s.shape[p].kind.Timer?;
    NotAfter(s, es, u, t, p, why);
    assert n != p;
    assert Descends(u.shape, m, p);
    hide Inv, Step, Enabled;
    CancelReturnsAfterAll(s, es, u, t, p, why, m);
  }

  lemma NotAfter(s: State, es: seq<Event>, u: State, t: Tid, p: nat, why: Option<Error>)
    requires Reachable(s) && WellFormed(s) && Enabled(s, CancelCall(t, p, why))
    requires Run(Step(s, CancelCall(t, p, why)), es, u)
    ensures p < |u.shape| && !u.shape[p].kind.After?
  {
    ReachableInv(s);
    StepKeeps(s, CancelCall(t, p, why));
    NeverRewritten(Step(s, CancelCall(t, p, why)), es, u);
  }
}
