/**
  Cancelling releases what a context holds: its timer is stopped and its parent forgets
  it; and nothing waiting for a context starts before it is cancelled.
 */
module ContextRelease {
  import opened Bytes
  import opened Context

  // What lies below a cancel that is about to start.
  predicate EnterOk(st: seq<Act>, i: nat)
    requires i < |st|
  {
    st[i].Enter? ==>
      var c := st[i].c;
      && (!st[i].direct ==> !st[i].remove)
      && (if st[i].direct && !st[i].remove then i > 1 && st[i - 1] == Remove(c) && st[i - 2] == Post(c)
          else i > 0 && st[i - 1] == Post(c))
  }

  // What follows a cancel follows it: it is over, or about to start.
  predicate PostOk(s: State, st: seq<Act>, i: nat)
    requires i < |st|
  {
    st[i].Post? && st[i].c < |s.cells| ==>
      || s.cells[st[i].c].err.Some?
      || (i + 1 < |st| && st[i + 1].Enter? && st[i + 1].c == st[i].c)
      || (i + 2 < |st| && st[i + 2].Enter? && st[i + 2].c == st[i].c)
  }

  ghost predicate Frames(s: State) {
    forall t: Tid, i: nat :: i < |Stack(s, t)| ==> EnterOk(Stack(s, t), i) && PostOk(s, Stack(s, t), i)
  }

  predicate CellSound(s: State, c: nat)
    requires c < |s.cells| == |s.shape|
  {
    && (s.cells[c].once.Started? ==> s.cells[c].err.Some?)
    && (s.cells[c].timer ==> s.shape[c].kind.Timer? && s.cells[c].attached)
  }

  ghost predicate AllSound(s: State) {
    |s.cells| == |s.shape| && forall c: nat :: c < |s.cells| ==> CellSound(s, c)
  }

  predicate PostAt(s: State, t: Tid, i: nat, c: nat) { i < |Stack(s, t)| && Stack(s, t)[i] == Post(c) }

  predicate RemoveAt(s: State, t: Tid, i: nat, k: nat) {
    i < |Stack(s, t)| &&
    var a := Stack(s, t)[i];
    a == Remove(k) || (a.Hold? && a.c == k && a.remove)
  }

  ghost predicate Posting(s: State, c: nat) { exists t: Tid, i: nat :: PostAt(s, t, i, c) }
  ghost predicate Removing(s: State, k: nat) { exists t: Tid, i: nat :: RemoveAt(s, t, i, k) }

  // A cancelled context with a timer.
  predicate Ticking(s: State, c: nat) { c < |s.cells| && s.cells[c].timer && s.cells[c].err.Some? }

  // A cancelled context that its parent, which is not, still knows.
  predicate Leaking(s: State, p: nat, k: nat) {
    p < |s.cells| && k < |s.cells| && k in s.cells[p].children && s.cells[k].err.Some? && s.cells[p].err.None?
  }

  ghost predicate Tidy(s: State) {
    && Frames(s) && AllSound(s) && Watched(s)
    && (forall c: nat :: Ticking(s, c) ==> Posting(s, c))
    && (forall p: nat, k: nat :: Leaking(s, p, k) ==> Removing(s, k))
  }

  // ---------------------------------------------------------------- frames

  predicate MovesTop(e: Event, t: Tid) { (e.Go? || e.Descend?) && e.t == t }

  lemma FrameKept(s: State, e: Event, t: Tid, i: nat)
    requires Inv(s) && WellFormed(s) && Enabled(s, e) && i < |Stack(s, t)|
    requires MovesTop(e, t) ==> i < |Stack(s, t)| - 1
    ensures i < |Stack(Step(s, e), t)| && Stack(Step(s, e), t)[i] == Stack(s, t)[i]
  {
    hide Inv, Step, Enabled;
    if e.Go? && e.t == t {
      StepIsGo(s, e);
      FrameOk(s, t, |Stack(s, t)| - 1);
      FrameStays(s, t, e.expired, i);
    } else if e.Descend? && e.t == t {
      TopHolds(s, t, e.child);
      DescendStays(s, t, e.child, i);
    } else {
      StandsStill(s, e, t);
    }
  }

  // A cancel that is about to start is on top.
  lemma EnterOnTop(s: State, t: Tid, i: nat)
    requires Inv(s) && i < |Stack(s, t)| && Stack(s, t)[i].Enter?
    ensures i == |Stack(s, t)| - 1
  {
    FrameOk(s, t, i);
  }

  predicate FreshFrames(s: State, t: Tid, from: nat) {
    forall i: nat :: from <= i < |Stack(s, t)| ==> EnterOk(Stack(s, t), i) && PostOk(s, Stack(s, t), i)
  }

  lemma StartFrames(s: State, e: Event, t: Tid)
    requires WellFormed(s) && Enabled(s, e)
    requires (e.CancelCall? || e.Fire? || e.StopCall? || e.Derive?) && e.t == t
    ensures FreshFrames(Step(s, e), t, 0)
  {
  }

  lemma GoFrames(s: State, t: Tid, x: bool)
    requires WellFormed(s) && Enabled(s, Go(t, x)) && ActOk(s, t, Stack(s, t), |Stack(s, t)| - 1)
    ensures FreshFrames(GoStep(s, t, x), t, |Stack(s, t)| - 1)
  {
  }

  lemma DescendFrames(s: State, t: Tid, child: nat)
    requires WellFormed(s) && Enabled(s, Descend(t, child))
    ensures FreshFrames(Step(s, Descend(t, child)), t, |Stack(s, t)| - 1)
  {
  }

  // A step does not undo a cancellation.
  lemma ErrKept(s: State, e: Event, c: nat)
    requires Inv(s) && WellFormed(s) && Enabled(s, e) && c < |s.cells|
    ensures c < |Step(s, e).cells| && (s.cells[c].err.Some? ==> Step(s, e).cells[c].err.Some?)
  {
    hide Inv, Step, Enabled;
    StepLater(s, e);
    assert Keeps(s.cells[c], Step(s, e).cells[c]);
  }

  lemma EnterCancels(s: State, t: Tid, x: bool)
    requires WellFormed(s) && Enabled(s, Go(t, x)) && Top(s, t).Enter?
    ensures GoStep(s, t, x).cells[Top(s, t).c].err.Some?
  {
  }

  // A frame that is not on top stays in order.
  lemma FrameStaysOk(s: State, e: Event, t: Tid, i: nat)
    requires Inv(s) && WellFormed(s) && Enabled(s, e) && Frames(s) && i < |Stack(s, t)|
    requires MovesTop(e, t) ==> i < |Stack(s, t)| - 1
    ensures
      var st := Stack(Step(s, e), t);
      i < |st| && EnterOk(st, i) && PostOk(Step(s, e), st, i)
  {
    var s', st := Step(s, e), Stack(s, t);
    assert EnterOk(st, i) && PostOk(s, st, i);
    hide Inv, Step, Enabled, Frames;
    FrameKept(s, e, t, i);
    if i > 0 { FrameKept(s, e, t, i - 1); }
    if i > 1 { FrameKept(s, e, t, i - 2); }
    if st[i].Post? {
      PostStaysOk(s, e, t, i);
    }
  }

  lemma PostStaysOk(s: State, e: Event, t: Tid, i: nat)
    requires Inv(s) && WellFormed(s) && Enabled(s, e) && i < |Stack(s, t)| && Stack(s, t)[i].Post?
    requires PostOk(s, Stack(s, t), i) && (MovesTop(e, t) ==> i < |Stack(s, t)| - 1)
    requires i < |Stack(Step(s, e), t)| && Stack(Step(s, e), t)[i] == Stack(s, t)[i]
    ensures PostOk(Step(s, e), Stack(Step(s, e), t), i)
  {
    hide Inv, Step, Enabled;
    var st := Stack(s, t);
    FrameOk(s, t, i);
    var c := st[i].c;
    if s.cells[c].err.Some? {
      ErrKept(s, e, c);
    } else {
      var j := if i + 1 < |st| && st[i + 1].Enter? && st[i + 1].c == c then i + 1 else i + 2;
      EnterOnTop(s, t, j);
      if e.Go? && e.t == t {
        StepIsGo(s, e);
        EnterCancels(s, t, e.expired);
      } else if e.Descend? && e.t == t {
        TopHolds(s, t, e.child);
      } else {
        StandsStill(s, e, t);
      }
    }
  }

  lemma FramesKept(s: State, e: Event)
    requires Inv(s) && WellFormed(s) && Enabled(s, e) && Frames(s)
    ensures Frames(Step(s, e))
  {
    hide Inv, Step, Enabled, EnterOk, PostOk, GoStep, ActOk;
    var s' := Step(s, e);
    forall t: Tid, i: nat | i < |Stack(s', t)|
      ensures EnterOk(Stack(s', t), i) && PostOk(s', Stack(s', t), i)
    {
      if e.Go? && e.t == t {
        StepIsGo(s, e);
        FrameOk(s, t, |Stack(s, t)| - 1);
        GoFrames(s, t, e.expired);
        if i < |Stack(s, t)| - 1 { FrameStaysOk(s, e, t, i); }
      } else if e.Descend? && e.t == t {
        TopHolds(s, t, e.child);
        DescendFrames(s, t, e.child);
        if i < |Stack(s, t)| - 1 { FrameStaysOk(s, e, t, i); }
      } else if (e.CancelCall? || e.Fire? || e.StopCall? || e.Derive?) && e.t == t {
        StartFrames(s, e, t);
      } else {
        OtherStack(s, e, t);
        FrameStaysOk(s, e, t, i);
      }
    }
  }

  // ---------------------------------------------------------------- cells

  lemma CellsKept(s: State, e: Event)
    requires Inv(s) && WellFormed(s) && Enabled(s, e) && Frames(s) && AllSound(s)
    ensures AllSound(Step(s, e))
  {
    var s' := Step(s, e);
    SameLengths(s, e);
    hide Inv, Step, Enabled, CellSound, Frames;
    forall c: nat | c < |s'.cells|
      ensures CellSound(s', c)
    {
      if c < |s.cells| {
        CellKept(s, e, c);
      } else {
        NewCell(s, e, c);
      }
    }
  }

  lemma NewCell(s: State, e: Event, c: nat)
    requires WellFormed(s) && Enabled(s, e) && |s.cells| <= c < |Step(s, e).cells| == |Step(s, e).shape|
    ensures CellSound(Step(s, e), c)
  {
  }

  lemma CellKept(s: State, e: Event, c: nat)
    requires Inv(s) && WellFormed(s) && Enabled(s, e) && Frames(s) && AllSound(s) && c < |s.cells|
    requires |Step(s, e).cells| == |Step(s, e).shape| >= |s.cells|
    ensures CellSound(Step(s, e), c)
  {
    AboveSame(s, e, c);
    ErrKept(s, e, c);
    assert CellSound(s, c);
    if e.Go? {
      GoCell(s, e.t, e.expired, c);
    } else {
      OtherCell(s, e, c);
    }
  }

  lemma OtherCell(s: State, e: Event, c: nat)
    requires WellFormed(s) && Enabled(s, e) && !e.Go? && c < |s.cells|
    ensures
      var x, y := s.cells[c], Step(s, e).cells[c];
      y.timer == x.timer && y.attached == x.attached && y.err == x.err && (y.once.Started? ==> x.once.Started?)
  {
  }

  lemma GoCell(s: State, t: Tid, x: bool, c: nat)
    requires Inv(s) && WellFormed(s) && Enabled(s, Go(t, x)) && Frames(s) && c < |s.cells| && CellSound(s, c)
    ensures
      var y := GoStep(s, t, x).cells[c];
      && (y.once.Started? ==> y.err.Some?)
      && (y.timer ==> s.shape[c].kind.Timer? && y.attached)
  {
    var st := Stack(s, t);
    assert PostOk(s, st, |st| - 1);
    hide Inv, Frames;
    FrameOk(s, t, |st| - 1);
    if Top(s, t).Attaching() {
      AttachCell(s, t, x, c);
    } else {
      WorkCell(s, t, x, c);
    }
  }

  lemma AttachCell(s: State, t: Tid, x: bool, c: nat)
    requires WellFormed(s) && Enabled(s, Go(t, x)) && c < |s.cells| && CellSound(s, c) && Top(s, t).Attaching()
    ensures
      var y := GoStep(s, t, x).cells[c];
      (y.once.Started? ==> y.err.Some?) && (y.timer ==> s.shape[c].kind.Timer? && y.attached)
  {
  }

  lemma WorkCell(s: State, t: Tid, x: bool, c: nat)
    requires WellFormed(s) && Enabled(s, Go(t, x)) && c < |s.cells| && CellSound(s, c) && !Top(s, t).Attaching()
    requires ActOk(s, t, Stack(s, t), |Stack(s, t)| - 1) && PostOk(s, Stack(s, t), |Stack(s, t)| - 1)
    ensures
      var y := GoStep(s, t, x).cells[c];
      (y.once.Started? ==> y.err.Some?) && (y.timer ==> s.shape[c].kind.Timer? && y.attached)
  {
  }

  // ---------------------------------------------------------------- timers

  // What waits below the top stays there; a Post on top stops the timer.
  lemma PostStays(s: State, e: Event, t: Tid, i: nat, c: nat)
    requires Inv(s) && WellFormed(s) && Enabled(s, e) && AllSound(s) && PostAt(s, t, i, c) && c < |s.cells|
    ensures PostAt(Step(s, e), t, i, c) || !Ticking(Step(s, e), c)
  {
    assert CellSound(s, c);
    hide Inv, Step, Enabled, AllSound;
    if MovesTop(e, t) && i == |Stack(s, t)| - 1 {
      if e.Go? {
        StepIsGo(s, e);
        PostStops(s, t, e.expired);
      } else {
        TopHolds(s, t, e.child);
      }
    } else {
      FrameKept(s, e, t, i);
    }
  }

  lemma PostStops(s: State, t: Tid, x: bool)
    requires WellFormed(s) && Enabled(s, Go(t, x)) && Top(s, t).Post? && CellSound(s, Top(s, t).c)
    ensures !GoStep(s, t, x).cells[Top(s, t).c].timer
  {
  }

  // A timer that is ticking on a cancelled context.
  lemma TickKept(s: State, e: Event, c: nat)
    requires Inv(s) && WellFormed(s) && Enabled(s, e) && Tidy(s) && Ticking(Step(s, e), c)
    ensures Posting(Step(s, e), c)
  {
    var s' := Step(s, e);
    TickIsOld(s, e, c);
    assert CellSound(s, c);
    if Ticking(s, c) {
      assert Posting(s, c);
      var t: Tid, i: nat :| PostAt(s, t, i, c);
      hide Tidy, Inv, Step, Enabled;
      PostStays(s, e, t, i, c);
    } else {
      assert Frames(s);
      hide Tidy, Inv, Step, Enabled;
      NewTick(s, e, c);
    }
  }

  lemma TickIsOld(s: State, e: Event, c: nat)
    requires WellFormed(s) && Enabled(s, e) && Ticking(Step(s, e), c)
    ensures c < |s.cells|
  {
  }

  lemma NewTick(s: State, e: Event, c: nat)
    requires Inv(s) && WellFormed(s) && Enabled(s, e) && Frames(s) && c < |s.cells| && CellSound(s, c)
    requires !Ticking(s, c) && Ticking(Step(s, e), c)
    ensures Posting(Step(s, e), c)
  {
    hide Inv, Step, Enabled, GoStep, Frames;
    if s.cells[c].err.Some? {
      NoNewTimer(s, e, c);
    } else {
      FirstCancelWins(s, e, c);
      StepIsGo(s, e);
      var t, n := e.t, |Stack(s, e.t)| - 1;
      assert EnterOk(Stack(s, t), n) by { FrameIn(s, t, n); }
      FrameOk(s, t, n);
      if Top(s, t).Enter? {
        var j := if Stack(s, t)[n - 1] == Post(c) then n - 1 else n - 2;
        FrameKept(s, e, t, j);
        assert PostAt(Step(s, e), t, j, c);
      } else {
        NoTimerYet(s, t, e.expired, c);
      }
    }
  }

  lemma FrameIn(s: State, t: Tid, i: nat)
    requires Frames(s) && i < |Stack(s, t)|
    ensures EnterOk(Stack(s, t), i) && PostOk(s, Stack(s, t), i)
  {
  }

  // A timer is only armed on a context that is not cancelled.
  lemma NoNewTimer(s: State, e: Event, c: nat)
    requires WellFormed(s) && Enabled(s, e) && c < |s.cells| && s.cells[c].err.Some?
    ensures Step(s, e).cells[c].timer ==> s.cells[c].timer
  {
  }

  lemma NoTimerYet(s: State, t: Tid, x: bool, c: nat)
    requires WellFormed(s) && Enabled(s, Go(t, x)) && c < |s.cells| && CellSound(s, c) && Top(s, t).c == c
    requires s.cells[c].err.None? && !Top(s, t).Enter? && GoStep(s, t, x).cells[c].err.Some?
    requires ActOk(s, t, Stack(s, t), |Stack(s, t)| - 1)
    ensures !GoStep(s, t, x).cells[c].timer
  {
  }

  // ---------------------------------------------------------------- children

  lemma LeakIsOld(s: State, e: Event, p: nat, k: nat)
    requires Inv(s) && WellFormed(s) && Enabled(s, e) && Leaking(Step(s, e), p, k)
    ensures p < |s.cells| && k < |s.cells| && s.cells[p].err.None? && Above(s, k) == Some(p)
  {
    var s' := Step(s, e);
    StepKeeps(s, e);
    CellAt(s', p);
    assert Linked(s', k, p);
    NewIsChildless(s, e, p);
    NewIsUncancelled(s, e, k);
    hide Inv, Step, Enabled;
    ErrKept(s, e, p);
    AboveSame(s, e, k);
  }

  lemma NewIsChildless(s: State, e: Event, p: nat)
    requires WellFormed(s) && Enabled(s, e) && p < |Step(s, e).cells|
    ensures p >= |s.cells| ==> Step(s, e).cells[p].children == {}
  {
  }

  lemma NewIsUncancelled(s: State, e: Event, k: nat)
    requires WellFormed(s) && Enabled(s, e) && k < |Step(s, e).cells|
    ensures k >= |s.cells| ==> Step(s, e).cells[k].err.None?
  {
  }

  // Only Register adds a child, and one that is not cancelled.
  lemma ChildIsOld(s: State, e: Event, p: nat, k: nat)
    requires Inv(s) && WellFormed(s) && Enabled(s, e) && p < |s.cells| && k < |s.cells|
    requires k in Step(s, e).cells[p].children && Step(s, e).cells[k].err.Some?
    ensures k in s.cells[p].children
  {
    hide Inv;
    if e.Go? {
      hide Step, Enabled;
      StepIsGo(s, e);
      CellAt(s, k);
      FrameOk(s, e.t, |Stack(s, e.t)| - 1);
      if Top(s, e.t).Register? {
        RegisterChild(s, e.t, e.expired, p, k);
      } else {
        OtherChild(s, e.t, e.expired, p);
      }
    } else {
      StartChild(s, e, p);
    }
  }

  lemma StartChild(s: State, e: Event, p: nat)
    requires WellFormed(s) && Enabled(s, e) && !e.Go? && p < |s.cells|
    ensures Step(s, e).cells[p].children == s.cells[p].children
  {
  }

  lemma OtherChild(s: State, t: Tid, x: bool, p: nat)
    requires WellFormed(s) && Enabled(s, Go(t, x)) && p < |s.cells| && !Top(s, t).Register?
    ensures GoStep(s, t, x).cells[p].children <= s.cells[p].children
  {
  }

  lemma RegisterChild(s: State, t: Tid, x: bool, p: nat, k: nat)
    requires WellFormed(s) && Enabled(s, Go(t, x)) && Top(s, t).Register? && p < |s.cells| && k < |s.cells|
    requires CellOk(s, k) && ActOk(s, t, Stack(s, t), |Stack(s, t)| - 1)
    requires k in GoStep(s, t, x).cells[p].children && GoStep(s, t, x).cells[k].err.Some?
    ensures k in s.cells[p].children
  {
  }

  lemma RemoveStays(s: State, e: Event, t: Tid, i: nat, p: nat, k: nat)
    requires Inv(s) && WellFormed(s) && Enabled(s, e) && RemoveAt(s, t, i, k) && Leaking(Step(s, e), p, k)
    requires p < |s.cells| && k < |s.cells| && Above(s, k) == Some(p) && s.cells[p].err.None?
    ensures RemoveAt(Step(s, e), t, i, k)
  {
    hide Inv, Step, Enabled;
    if MovesTop(e, t) && i == |Stack(s, t)| - 1 {
      if e.Go? {
        StepIsGo(s, e);
        CellAt(s, p);
        RemoveOnTop(s, t, e.expired, p, k);
      } else {
        TopHolds(s, t, e.child);
        DescendHolds(s, t, e.child);
      }
    } else {
      FrameKept(s, e, t, i);
    }
  }

  lemma RemoveOnTop(s: State, t: Tid, x: bool, p: nat, k: nat)
    requires WellFormed(s) && Enabled(s, Go(t, x)) && RemoveAt(s, t, |Stack(s, t)| - 1, k)
    requires p < |s.cells| && k < |s.cells| && Above(s, k) == Some(p) && s.cells[p].err.None? && CellOk(s, p)
    requires k in GoStep(s, t, x).cells[p].children
    ensures RemoveAt(GoStep(s, t, x), t, |Stack(s, t)| - 1, k)
  {
  }

  lemma DescendHolds(s: State, t: Tid, child: nat)
    requires WellFormed(s) && Enabled(s, Descend(t, child))
    ensures
      var n, st := |Stack(s, t)| - 1, Stack(Step(s, Descend(t, child)), t);
      n < |st| && st[n].Hold? && st[n].c == Top(s, t).c && st[n].remove == Top(s, t).remove
  {
  }

  lemma LeakKept(s: State, e: Event, p: nat, k: nat)
    requires Inv(s) && WellFormed(s) && Enabled(s, e) && Tidy(s) && Leaking(Step(s, e), p, k)
    ensures Removing(Step(s, e), k)
  {
    LeakIsOld(s, e, p, k);
    ChildIsOld(s, e, p, k);
    if s.cells[k].err.Some? {
      assert Leaking(s, p, k);
      assert Removing(s, k);
      var t: Tid, i: nat :| RemoveAt(s, t, i, k);
      hide Tidy, Inv, Step, Enabled;
      RemoveStays(s, e, t, i, p, k);
    } else {
      assert Frames(s);
      CellAt(s, p);
      hide Tidy, Inv, Step, Enabled;
      NewLeak(s, e, p, k);
    }
  }

  lemma NewLeak(s: State, e: Event, p: nat, k: nat)
    requires Inv(s) && WellFormed(s) && Enabled(s, e) && Frames(s) && p < |s.cells| && k < |s.cells|
    requires k in s.cells[p].children && Linked(s, k, p) && s.cells[p].err.None?
    requires s.cells[k].err.None? && Step(s, e).cells[k].err.Some?
    ensures Removing(Step(s, e), k)
  {
    hide Inv, Step, Enabled, GoStep, Frames;
    FirstCancelWins(s, e, k);
    StepIsGo(s, e);
    var t, n := e.t, |Stack(s, e.t)| - 1;
    assert EnterOk(Stack(s, t), n) by { FrameIn(s, t, n); }
    FrameOk(s, t, n);
    assert Top(s, t).Enter?;
    if !Top(s, t).direct {
      FrameOk(s, t, n - 2);
    } else if Top(s, t).remove {
      EnterHolds(s, t, e.expired);
      assert RemoveAt(Step(s, e), t, n, k);
    } else {
      FrameKept(s, e, t, n - 1);
      assert RemoveAt(Step(s, e), t, n - 1, k);
    }
  }

  lemma EnterHolds(s: State, t: Tid, x: bool)
    requires WellFormed(s) && Enabled(s, Go(t, x)) && Top(s, t).Enter? && s.cells[Top(s, t).c].err.None?
    ensures
      var n, st := |Stack(s, t)| - 1, Stack(GoStep(s, t, x), t);
      n < |st| && st[n].Hold? && st[n].c == Top(s, t).c && st[n].remove == Top(s, t).remove
  {
  }

  // ---------------------------------------------------------------- deadlines

  // A context with a deadline that nothing watches.
  predicate Unarmed(s: State, c: nat) {
    && c < |s.cells| == |s.shape| && s.shape[c].kind.Timer?
    && s.cells[c].attached && s.cells[c].err.None? && !s.cells[c].timer
  }

  // t is about to arm the timer of c, or to cancel c because it is late.
  predicate ArmAt(s: State, t: Tid, c: nat) {
    Stack(s, t) != [] && (Top(s, t) == Arm(c) || (Top(s, t).Enter? && Top(s, t).c == c))
  }

  ghost predicate Arming(s: State, c: nat) { exists t: Tid :: ArmAt(s, t, c) }

  ghost predicate Watched(s: State) { forall c: nat :: Unarmed(s, c) ==> Arming(s, c) }

  lemma ArmStays(s: State, e: Event, t: Tid, c: nat)
    requires Inv(s) && WellFormed(s) && Enabled(s, e) && ArmAt(s, t, c) && Unarmed(Step(s, e), c)
    ensures ArmAt(Step(s, e), t, c)
  {
    hide Inv, Step, Enabled;
    FrameOk(s, t, |Stack(s, t)| - 1);
    if e.Go? && e.t == t {
      StepIsGo(s, e);
      if Top(s, t).Enter? {
        EnterCancels(s, t, e.expired);
      } else {
        ArmMoves(s, t, e.expired);
      }
    } else if e.Descend? && e.t == t {
      TopHolds(s, t, e.child);
    } else {
      StandsStill(s, e, t);
    }
  }

  lemma ArmMoves(s: State, t: Tid, x: bool)
    requires WellFormed(s) && Enabled(s, Go(t, x)) && Top(s, t).Arm? && Unarmed(GoStep(s, t, x), Top(s, t).c)
    ensures ArmAt(GoStep(s, t, x), t, Top(s, t).c)
  {
  }

  lemma NewlyUnarmed(s: State, e: Event, c: nat)
    requires Inv(s) && WellFormed(s) && Enabled(s, e) && Frames(s) && !Unarmed(s, c) && Unarmed(Step(s, e), c)
    ensures Arming(Step(s, e), c)
  {
    hide Inv, Frames;
    UnarmedByGo(s, e, c);
    hide Step, Enabled;
    StepIsGo(s, e);
    var n := |Stack(s, e.t)| - 1;
    AboveSame(s, e, c);
    ErrKept(s, e, c);
    FrameOk(s, e.t, n);
    FrameIn(s, e.t, n);
    GoUnarmed(s, e.t, e.expired, c);
    assert ArmAt(Step(s, e), e.t, c);
  }

  lemma UnarmedByGo(s: State, e: Event, c: nat)
    requires WellFormed(s) && Enabled(s, e) && !Unarmed(s, c) && Unarmed(Step(s, e), c)
    ensures e.Go? && c < |s.cells|
  {
  }

  lemma GoUnarmed(s: State, t: Tid, x: bool, c: nat)
    requires WellFormed(s) && Enabled(s, Go(t, x)) && c < |s.cells| && !Unarmed(s, c) && Unarmed(GoStep(s, t, x), c)
    requires ActOk(s, t, Stack(s, t), |Stack(s, t)| - 1) && PostOk(s, Stack(s, t), |Stack(s, t)| - 1)
    requires s.cells[c].err.None?
    ensures ArmAt(GoStep(s, t, x), t, c)
  {
  }

  lemma WatchedKept(s: State, e: Event)
    requires Inv(s) && WellFormed(s) && Enabled(s, e) && Frames(s) && Watched(s)
    ensures Watched(Step(s, e))
  {
    hide Inv, Step, Enabled, Frames, Unarmed, ArmAt;
    forall c: nat | Unarmed(Step(s, e), c)
      ensures Arming(Step(s, e), c)
    {
      if Unarmed(s, c) {
        assert Arming(s, c);
        var t: Tid :| ArmAt(s, t, c);
        ArmStays(s, e, t, c);
      } else {
        NewlyUnarmed(s, e, c);
      }
    }
  }

  // ---------------------------------------------------------------- every step keeps it

  lemma StepTidy(s: State, e: Event)
    requires Inv(s) && WellFormed(s) && Enabled(s, e) && Tidy(s)
    ensures Tidy(Step(s, e))
  {
    var s' := Step(s, e);
    FramesKept(s, e);
    CellsKept(s, e);
    WatchedKept(s, e);
    hide Inv, Step, Enabled, Frames, AllSound, Watched, Ticking, Leaking, Posting, Removing;
    forall c: nat | Ticking(s', c)
      ensures Posting(s', c)
    {
      TickKept(s, e, c);
    }
    forall p: nat, k: nat | Leaking(s', p, k)
      ensures Removing(s', k)
    {
      LeakKept(s, e, p, k);
    }
  }

  lemma {:induction false} RunTidy(s: State, es: seq<Event>, u: State)
    requires Inv(s) && WellFormed(s) && Tidy(s) && Run(s, es, u)
    ensures Tidy(u)
    decreases |es|
  {
    if es != [] {
      hide Inv, WellFormed, Tidy, Enabled, Step;
      StepKeeps(s, es[0]);
      StepTidy(s, es[0]);
      RunTidy(Step(s, es[0]), es[1..], u);
    }
  }

  lemma ReachableTidy(s: State)
    requires Reachable(s)
    ensures Tidy(s)
  {
    InitInv();
    var es :| Run(INIT, es, s);
    assert Tidy(INIT);
    hide Tidy;
    RunTidy(INIT, es, s);
  }

  /** A function waiting for a context is never started before that is cancelled. */
  lemma NotBeforeCancelled(s: State, c: nat)
    requires Reachable(s) && c < |s.cells| && s.cells[c].once.Started?
    ensures s.cells[c].err.Some?
  {
    ReachableTidy(s);
    assert CellSound(s, c);
  }

  /**
    Cancelling releases: while no cancel is under way, a cancelled context has no timer
    running and is not known to a parent that is not cancelled itself.
   */
  lemma CancelReleases(s: State, c: nat)
    requires Reachable(s) && c < |s.cells| && s.cells[c].err.Some? && forall t :: Stack(s, t) == []
    ensures !s.cells[c].timer
    ensures forall p :: 0 <= p < |s.cells| && c in s.cells[p].children ==> s.cells[p].err.Some?
  {
    ReachableTidy(s);
    NothingPending(s, c);
    hide Posting, Removing, Frames, AllSound, Watched;
    assert !Ticking(s, c);
    forall p | 0 <= p < |s.cells| && c in s.cells[p].children
      ensures s.cells[p].err.Some?
    {
      assert !Leaking(s, p, c);
    }
  }

  /** A deadline is watched: while no call is under way, the timer of a context that has
      one and is not cancelled is running, and may fire. */
  lemma DeadlineIsWatched(s: State, c: nat, t: Tid)
    requires Reachable(s) && WellFormed(s) && c < |s.cells| && s.shape[c].kind.Timer? && s.cells[c].attached
    requires s.cells[c].err.None? && forall u :: Stack(s, u) == []
    ensures s.cells[c].timer && Enabled(s, Fire(t, c))
  {
    ReachableTidy(s);
    NothingPending(s, c);
    hide Posting, Removing, Frames, AllSound, Arming;
    assert !Unarmed(s, c);
  }

  lemma NothingPending(s: State, c: nat)
    requires forall t :: Stack(s, t) == []
    ensures !Posting(s, c) && !Removing(s, c) && !Arming(s, c)
  {
  }
}
