/**
  Package context never deadlocks: a cancel holds its own lock while it takes its
  children's, and lets go before it takes its parent's.
 */
module ContextProgress {
  import opened Bytes
  import opened Context

  // Frame i of thread t holds the lock of c.
  predicate HoldsAt(s: State, t: Tid, i: nat, c: nat) {
    i < |Stack(s, t)| && Stack(s, t)[i].Hold? && Stack(s, t)[i].c == c
  }

  ghost predicate Holds(s: State, t: Tid, c: nat) { exists i: nat :: HoldsAt(s, t, i, c) }

  // Above a frame that holds a lock there is only work on contexts further down, none of
  // which will come back for its parent's lock.
  predicate Below(a: Act, b: Act) {
    a.Hold? ==> b.c > a.c && (b.Post? || ((b.Hold? || b.Enter?) && !b.remove))
  }

  ghost predicate Nested(st: seq<Act>) { forall i, j :: 0 <= i < j < |st| ==> Below(st[i], st[j]) }

  ghost predicate Held(s: State) {
    forall c :: 0 <= c < |s.cells| && s.cells[c].mu.Some? ==> Holds(s, s.cells[c].mu.value, c)
  }

  ghost predicate AllNested(s: State) { forall t :: t in s.threads ==> Nested(s.threads[t]) }

  ghost predicate Orderly(s: State) { Held(s) && AllNested(s) }

  // ---------------------------------------------------------------- every step keeps it

  // Only t moves; locks held by others stay as they were.
  ghost predicate OnlyMoves(s: State, s': State, t: Tid, st: seq<Act>) {
    && s'.threads == s.threads[t := st]
    && (forall c :: 0 <= c < |s'.cells| && s'.cells[c].mu.Some? && s'.cells[c].mu != Some(t) ==>
          c < |s.cells| && s'.cells[c].mu == s.cells[c].mu)
  }

  lemma MoveKeeps(s: State, s': State, t: Tid, st: seq<Act>)
    requires Orderly(s) && OnlyMoves(s, s', t, st) && Nested(st)
    requires forall c :: 0 <= c < |s'.cells| && s'.cells[c].mu == Some(t) ==> Holds(s', t, c)
    ensures Orderly(s')
  {
    forall c | 0 <= c < |s'.cells| && s'.cells[c].mu.Some?
      ensures Holds(s', s'.cells[c].mu.value, c)
    {
      var u := s'.cells[c].mu.value;
      if u != t {
        assert Holds(s, u, c);
        var i: nat :| HoldsAt(s, u, i, c);
        assert HoldsAt(s', u, i, c);
      }
    }
  }

  lemma NoLocks(s: State, t: Tid)
    requires Held(s) && forall i :: 0 <= i < |Stack(s, t)| ==> !Stack(s, t)[i].Hold?
    ensures forall c :: 0 <= c < |s.cells| ==> s.cells[c].mu != Some(t)
  {
  }

  // A thread without Hold frames owns no lock, and may start anything that holds none.
  lemma FreshStack(s: State, s': State, t: Tid, st: seq<Act>)
    requires Orderly(s) && OnlyMoves(s, s', t, st)
    requires forall i :: 0 <= i < |Stack(s, t)| ==> !Stack(s, t)[i].Hold?
    requires forall i :: 0 <= i < |st| ==> !st[i].Hold?
    requires forall c :: 0 <= c < |s'.cells| && s'.cells[c].mu == Some(t) ==> c < |s.cells| && s.cells[c].mu == Some(t)
    ensures Orderly(s')
  {
    NoLocks(s, t);
    MoveKeeps(s, s', t, st);
  }

  // The frames below the top stay; locks of t stay with them.
  lemma TopChanges(s: State, s': State, t: Tid, st: seq<Act>)
    requires Orderly(s) && OnlyMoves(s, s', t, st) && Nested(st)
    requires Stack(s, t) != [] && |st| >= |Stack(s, t)| - 1 && st[..|Stack(s, t)| - 1] == Pop(s, t)
    requires forall c :: 0 <= c < |s'.cells| && s'.cells[c].mu == Some(t) ==>
      (c < |s.cells| && s.cells[c].mu == Some(t) && !(Top(s, t).Hold? && Top(s, t).c == c)) || Holds(s', t, c)
    ensures Orderly(s')
  {
    forall c | 0 <= c < |s'.cells| && s'.cells[c].mu == Some(t)
      ensures Holds(s', t, c)
    {
      if !Holds(s', t, c) {
        assert Holds(s, t, c);
        var i: nat :| HoldsAt(s, t, i, c);
        assert i < |Stack(s, t)| - 1;
        assert st[i] == Pop(s, t)[i];
        assert HoldsAt(s', t, i, c);
      }
    }
    MoveKeeps(s, s', t, st);
  }

  lemma NestedPrefix(st: seq<Act>, k: nat)
    requires Nested(st) && k <= |st|
    ensures Nested(st[..k])
  {
  }

  // A new top below which everything holds only ancestors.
  lemma NestedPush(st: seq<Act>, a: Act)
    requires Nested(st) && forall i :: 0 <= i < |st| ==> Below(st[i], a)
    ensures Nested(st + [a])
  {
  }

  lemma OrderlyEnter(s: State, t: Tid, x: bool)
    requires Inv(s) && WellFormed(s) && Enabled(s, Go(t, x)) && Orderly(s) && Top(s, t).Enter?
    ensures Orderly(GoStep(s, t, x))
  {
    var s', st, a := GoStep(s, t, x), Stack(s, t), Top(s, t);
    var p := Pop(s, t);
    assert Nested(st);
    NestedPrefix(st, |st| - 1);
    if s.cells[a.c].err.Some? {
      TopChanges(s, s', t, p);
    } else {
      var h := Hold(a.c, s.cells[a.c].children, a.err, a.cause, a.remove);
      forall i | 0 <= i < |p|
        ensures Below(p[i], h)
      {
        assert Below(st[i], st[|st| - 1]);
      }
      NestedPush(p, h);
      assert HoldsAt(s', t, |p|, a.c);
      TopChanges(s, s', t, p + [h]);
    }
  }

  lemma OrderlyHold(s: State, t: Tid, x: bool)
    requires Inv(s) && WellFormed(s) && Enabled(s, Go(t, x)) && Orderly(s) && Top(s, t).Hold?
    ensures Orderly(GoStep(s, t, x))
  {
    var s', st, a := GoStep(s, t, x), Stack(s, t), Top(s, t);
    var p := Pop(s, t);
    assert Nested(st);
    NestedPrefix(st, |st| - 1);
    if a.remove {
      forall i | 0 <= i < |p|
        ensures Below(p[i], Remove(a.c))
      {
        assert Below(st[i], st[|st| - 1]);
      }
      NestedPush(p, Remove(a.c));
      TopChanges(s, s', t, p + [Remove(a.c)]);
    } else {
      TopChanges(s, s', t, p);
    }
  }

  lemma OrderlyDescend(s: State, t: Tid, child: nat)
    requires Inv(s) && WellFormed(s) && Enabled(s, Descend(t, child)) && Orderly(s)
    ensures Orderly(Step(s, Descend(t, child)))
  {
    var s', st, a := Step(s, Descend(t, child)), Stack(s, t), Top(s, t);
    var p, n := Pop(s, t), |st| - 1;
    assert Nested(st);
    assert ActOk(s, t, st, n);
    assert Linked(s, child, a.c);
    AboveBelow(s, child);
    NestedPrefix(st, n);
    var h, post, enter := a.(todo := a.todo - {child}), Post(child), Enter(child, a.err, a.cause, false, false);
    forall i | 0 <= i < n
      ensures Below(p[i], h) && Below(p[i], post) && Below(p[i], enter)
    {
      assert Below(st[i], st[n]);
    }
    NestedPush(p, h);
    NestedPush(p + [h], post);
    NestedPush(p + [h] + [post], enter);
    assert p + [h] + [post] + [enter] == p + [h, post, enter];
    assert HoldsAt(s', t, n, a.c);
    TopChanges(s, s', t, p + [h, post, enter]);
  }

  lemma OrderlyPop(s: State, t: Tid, x: bool)
    requires Inv(s) && WellFormed(s) && Enabled(s, Go(t, x)) && Orderly(s)
    requires Top(s, t).Remove? || Top(s, t).Post?
    ensures Orderly(GoStep(s, t, x))
  {
    var s', st := GoStep(s, t, x), Stack(s, t);
    assert Nested(st);
    NestedPrefix(st, |st| - 1);
    TopChanges(s, s', t, Pop(s, t));
  }

  lemma OrderlyAlone(s: State, t: Tid, x: bool)
    requires Inv(s) && WellFormed(s) && Enabled(s, Go(t, x)) && Orderly(s)
    requires Top(s, t).Attaching() || Top(s, t).Arm?
    ensures Orderly(GoStep(s, t, x))
  {
    var s', st := GoStep(s, t, x), Stack(s, t);
    assert ActOk(s, t, st, |st| - 1);
    FreshStack(s, s', t, Stack(s', t));
  }

  lemma StepOrderly(s: State, e: Event)
    requires Inv(s) && WellFormed(s) && Enabled(s, e) && Orderly(s)
    ensures Orderly(Step(s, e))
  {
    if e.Go? {
      var a := Top(s, e.t);
      if a.Enter? {
        OrderlyEnter(s, e.t, e.expired);
      } else if a.Hold? {
        OrderlyHold(s, e.t, e.expired);
      } else if a.Remove? || a.Post? {
        OrderlyPop(s, e.t, e.expired);
      } else {
        OrderlyAlone(s, e.t, e.expired);
      }
    } else if e.Descend? {
      OrderlyDescend(s, e.t, e.child);
    } else {
      OrderlyStart(s, e);
    }
  }

  lemma OrderlyStart(s: State, e: Event)
    requires WellFormed(s) && Enabled(s, e) && Orderly(s) && !e.Go? && !e.Descend?
    ensures Orderly(Step(s, e))
  {
    var s' := Step(s, e);
    if e.NewPlain? || e.Touch? {
      forall c | 0 <= c < |s'.cells| && s'.cells[c].mu.Some?
        ensures Holds(s', s'.cells[c].mu.value, c)
      {
        var u := s'.cells[c].mu.value;
        assert Holds(s, u, c);
        var i: nat :| HoldsAt(s, u, i, c);
        assert HoldsAt(s', u, i, c);
      }
    } else {
      FreshStack(s, s', e.t, Stack(s', e.t));
    }
  }

  lemma {:induction false} RunOrderly(s: State, es: seq<Event>, u: State)
    requires Inv(s) && WellFormed(s) && Orderly(s) && Run(s, es, u)
    ensures Orderly(u)
    decreases |es|
  {
    if es != [] {
      hide Inv, WellFormed, Orderly, Enabled, Step;
      StepKeeps(s, es[0]);
      StepOrderly(s, es[0]);
      RunOrderly(Step(s, es[0]), es[1..], u);
    }
  }

  // ---------------------------------------------------------------- somebody can move

  ghost predicate CanMove(s: State)
    requires WellFormed(s)
  {
    exists e :: Enabled(s, e) && (e.Go? || e.Descend?)
  }

  // The thread that holds a lock can move, or waits for one further down whose holder can.
  lemma HolderMoves(s: State, t: Tid, i: nat, c: nat)
    requires Inv(s) && WellFormed(s) && Orderly(s) && c < |s.cells| && HoldsAt(s, t, i, c)
    ensures CanMove(s)
    decreases |s.cells| - c, 0
  {
    var st, a := Stack(s, t), Top(s, t);
    assert Nested(st);
    if a.Hold? {
      if a.todo == {} {
        assert Enabled(s, Go(t, false));
      } else {
        var child :| child in a.todo;
        assert Enabled(s, Descend(t, child));
      }
    } else {
      assert Below(st[i], st[|st| - 1]);
      WaitsFor(s, t, a.c);
    }
  }

  // t needs the lock of c for its next step.
  lemma WaitsFor(s: State, t: Tid, c: nat)
    requires Inv(s) && WellFormed(s) && Orderly(s) && c < |s.cells|
    requires Stack(s, t) != [] && (Free(s, c) ==> Enabled(s, Go(t, false)))
    ensures CanMove(s)
    decreases |s.cells| - c, 1
  {
    if Free(s, c) {
      assert Enabled(s, Go(t, false));
    } else {
      var u := s.cells[c].mu.value;
      assert Holds(s, u, c);
      var i: nat :| HoldsAt(s, u, i, c);
      HolderMoves(s, u, i, c);
    }
  }

  /** No deadlock: while any call is under way, some goroutine can take a step. */
  lemma NoDeadlock(s: State, t: Tid)
    requires Reachable(s) && WellFormed(s) && Stack(s, t) != []
    ensures CanMove(s)
  {
    InitInv();
    ReachableInv(s);
    var es :| Run(INIT, es, s);
    assert Orderly(INIT);
    RunOrderly(INIT, es, s);
    var st, a := Stack(s, t), Top(s, t);
    var n := |st| - 1;
    assert ActOk(s, t, st, n);
    if a.Hold? {
      HolderMoves(s, t, n, a.c);
    } else if a.Check? {
      assert Enabled(s, Go(t, false));
    } else if a.Enter? || a.Post? || a.Arm? {
      WaitsFor(s, t, a.c);
    } else {
      var up := Above(s, a.c);
      if up.None? {
        assert Enabled(s, Go(t, false));
      } else {
        WaitsFor(s, t, up.value);
      }
    }
  }
}
