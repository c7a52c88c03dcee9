/**
  What a cancellation writes: the error and the cause that a context reports are those of
  the call, timer or stop function whose goroutine cancelled it first.
 */
module ContextOrigin {
  import opened Bytes
  import opened Context

  predicate By(e: Event, t: Tid) { !e.NewPlain? && !e.Touch? && e.t == t }

  predicate Others(es: seq<Event>, t: Tid) { forall i :: 0 <= i < |es| ==> !By(es[i], t) }

  // What a thread is about to do does not change while only others move.
  lemma {:induction false} OthersLeave(s: State, es: seq<Event>, u: State, t: Tid)
    requires Run(s, es, u) && Others(es, t)
    ensures Stack(u, t) == Stack(s, t)
    decreases |es|
  {
    if es != [] {
      assert !By(es[0], t);
      hide Step, Enabled;
      OtherStack(s, es[0], t);
      RestOthers(es, t);
      OthersLeave(Step(s, es[0]), es[1..], u, t);
    }
  }

  lemma RestOthers(es: seq<Event>, t: Tid)
    requires es != [] && Others(es, t)
    ensures Others(es[1..], t)
  {
  }

  // The next step of t, once it is taken, is about to cancel c with this error and cause.
  predicate AboutTo(s: State, t: Tid, c: nat, err: Error, cause: Error) {
    Stack(s, t) != [] && Top(s, t).Enter? && Top(s, t).c == c && Top(s, t).err == err && Top(s, t).cause == cause
  }

  // t takes its next step in m, after others have moved, and is the first to cancel c.
  ghost predicate First(s: State, es: seq<Event>, m: State, t: Tid, x: bool, c: nat) {
    && Run(s, es, m) && Others(es, t)
    && WellFormed(m) && Enabled(m, Go(t, x)) && c < |m.cells| && m.cells[c].err.None?
  }

  lemma FirstWrites(s: State, es: seq<Event>, m: State, t: Tid, x: bool, c: nat, err: Error, cause: Error, fs: seq<Event>, u: State)
    requires Inv(s) && WellFormed(s) && AboutTo(s, t, c, err, cause)
    requires First(s, es, m, t, x, c) && Run(Step(m, Go(t, x)), fs, u)
    ensures c < |u.cells| && u.cells[c].err == Some(err) && u.cells[c].cause == Some(cause)
  {
    OthersLeave(s, es, m, t);
    EnterWrites(m, t, x);
    hide Inv, Step, Enabled;
    RunKeeps(s, es, m);
    StepKeeps(m, Go(t, x));
    NeverRewritten(Step(m, Go(t, x)), fs, u);
    assert Keeps(Step(m, Go(t, x)).cells[c], u.cells[c]);
  }

  lemma EnterWrites(m: State, t: Tid, x: bool)
    requires WellFormed(m) && Enabled(m, Go(t, x)) && Top(m, t).Enter? && m.cells[Top(m, t).c].err.None?
    ensures
      var a, m' := Top(m, t), Step(m, Go(t, x));
      a.c < |m'.cells| && m'.cells[a.c].err == Some(a.err) && m'.cells[a.c].cause == Some(a.cause)
  {
  }

  /** A CancelFunc whose call is the first to cancel p: p reports Canceled for good, and
      the cause that the call gave, or Canceled if it gave none. */
  lemma CancelGivesCause(s: State, t: Tid, p: nat, why: Option<Error>, es: seq<Event>, m: State, x: bool, fs: seq<Event>, u: State)
    requires Reachable(s) && WellFormed(s) && Enabled(s, CancelCall(t, p, why))
    requires First(Step(s, CancelCall(t, p, why)), es, m, t, x, p) && Run(Step(m, Go(t, x)), fs, u)
    ensures p < |u.cells| && u.cells[p].err == Some(Canceled)
    ensures u.cells[p].cause == if why.Some? then why else Some(Canceled)
  {
    ReachableInv(s);
    StepKeeps(s, CancelCall(t, p, why));
    var cause := if why.Some? then why.value else Canceled;
    assert AboutTo(Step(s, CancelCall(t, p, why)), t, p, Canceled, cause);
    hide Inv, Step, Enabled, First;
    FirstWrites(Step(s, CancelCall(t, p, why)), es, m, t, x, p, Canceled, cause, fs, u);
  }

  // The cause of a missed deadline, as the context was derived.
  function Late(late: Option<Error>): Error { if late.Some? then late.value else DeadlineExceeded }

  /** A timer whose firing is the first to cancel p: p reports DeadlineExceeded for good,
      and the cause given with its deadline, or DeadlineExceeded if there was none. */
  lemma FiringGivesLate(s: State, t: Tid, p: nat, es: seq<Event>, m: State, x: bool, fs: seq<Event>, u: State)
    requires Reachable(s) && WellFormed(s) && Enabled(s, Fire(t, p))
    requires First(Step(s, Fire(t, p)), es, m, t, x, p) && Run(Step(m, Go(t, x)), fs, u)
    ensures p < |u.cells| && u.cells[p].err == Some(DeadlineExceeded) && u.cells[p].cause == Some(Late(s.shape[p].late))
  {
    ReachableInv(s);
    StepKeeps(s, Fire(t, p));
    var cause := Late(s.shape[p].late);
    assert AboutTo(Step(s, Fire(t, p)), t, p, DeadlineExceeded, cause);
    hide Inv, Step, Enabled, First;
    FirstWrites(Step(s, Fire(t, p)), es, m, t, x, p, DeadlineExceeded, cause, fs, u);
  }

  /** The same for a deadline that has passed when the context is derived. */
  lemma ExpiryGivesLate(s: State, t: Tid, p: nat, es: seq<Event>, m: State, x: bool, fs: seq<Event>, u: State)
    requires Reachable(s) && WellFormed(s) && Enabled(s, Go(t, true)) && Top(s, t) == Arm(p)
    requires First(Step(s, Go(t, true)), es, m, t, x, p) && Run(Step(m, Go(t, x)), fs, u)
    ensures p < |s.shape| && p < |u.cells|
    ensures u.cells[p].err == Some(DeadlineExceeded) && u.cells[p].cause == Some(Late(s.shape[p].late))
  {
    ReachableInv(s);
    StepKeeps(s, Go(t, true));
    assert p < |s.cells|;
    var cause := Late(s.shape[p].late);
    assert AboutTo(Step(s, Go(t, true)), t, p, DeadlineExceeded, cause);
    hide Inv, Step, Enabled, First;
    FirstWrites(Step(s, Go(t, true)), es, m, t, x, p, DeadlineExceeded, cause, fs, u);
  }

  /** A stop function that is the first to cancel its context: Canceled, with no other
      cause; and the function it stops is marked so, never started. */
  lemma StopGivesCanceled(s: State, t: Tid, p: nat, es: seq<Event>, m: State, x: bool, fs: seq<Event>, u: State)
    requires Reachable(s) && WellFormed(s) && Enabled(s, StopCall(t, p))
    requires First(Step(s, StopCall(t, p)), es, m, t, x, p) && Run(Step(m, Go(t, x)), fs, u)
    ensures p < |u.cells| && u.cells[p].err == Some(Canceled) && u.cells[p].cause == Some(Canceled)
  {
    ReachableInv(s);
    StepKeeps(s, StopCall(t, p));
    assert AboutTo(Step(s, StopCall(t, p)), t, p, Canceled, Canceled);
    hide Inv, Step, Enabled, First;
    FirstWrites(Step(s, StopCall(t, p)), es, m, t, x, p, Canceled, Canceled, fs, u);
  }

  /** A function that was stopped is never started. */
  lemma StoppedForGood(s: State, t: Tid, p: nat, es: seq<Event>, u: State)
    requires Reachable(s) && WellFormed(s) && Enabled(s, StopCall(t, p)) && Run(Step(s, StopCall(t, p)), es, u)
    ensures p < |u.cells| && u.cells[p].once.Stopped?
  {
    ReachableInv(s);
    var m := Step(s, StopCall(t, p));
    StepKeeps(s, StopCall(t, p));
    assert p < |m.cells| && m.cells[p].once.Stopped?;
    hide Inv, Step, Enabled;
    NeverRewritten(m, es, u);
    assert Keeps(m.cells[p], u.cells[p]);
  }

  /** A derived context keeps its kind, its parent and the cause given for its deadline. */
  lemma DerivedAsGiven(s: State, t: Tid, kind: Kind, parent: nat, why: Option<Error>, es: seq<Event>, u: State)
    requires Reachable(s) && WellFormed(s) && Enabled(s, Derive(t, kind, parent, why))
    requires Run(Step(s, Derive(t, kind, parent, why)), es, u)
    ensures |s.cells| < |u.shape|
    ensures
      var shape := u.shape[|s.cells|];
      shape.kind == kind && shape.parent == parent && shape.late == why
  {
    ReachableInv(s);
    var e := Derive(t, kind, parent, why);
    StepKeeps(s, e);
    assert |Step(s, e).shape| == |s.cells| + 1;
    NeverRewritten(Step(s, e), es, u);
    assert u.shape[|s.cells|] == Step(s, e).shape[|s.cells|];
  }
}
