/**
  Every cancellation comes to its end: without new calls a run of package context takes
  a bounded number of steps, and it can only stop with every call returned.
 */
module ContextEnds {
  import opened Context
  import opened ContextProgress
  import opened Totals

  // How far an activation is from its end.  A Hold still has to descend into each child
  // that is left, which takes four steps.
  function ActRank(a: Act): nat {
    match a
    case Load(_) => 9
    case Check(_) => 8
    case ReadErr(_) => 7
    case ReadCause(_, _) => 6
    case Register(_) => 6
    case Arm(_) => 5
    case Enter(_, _, _, _, _) => 2
    case Hold(_, todo, _, _, _) => 2 + 4 * |todo|
    case Remove(_) => 1
    case Post(_) => 1
  }

  function StackRank(st: seq<Act>): nat {
    if st == [] then 0 else StackRank(st[..|st| - 1]) + ActRank(st[|st| - 1])
  }

  lemma {:induction false} StackRankOf(a: seq<Act>, b: seq<Act>)
    ensures StackRank(a + b) == StackRank(a) + StackRank(b)
    decreases |b|
  {
    if b == [] {
      assert a + b == a;
    } else {
      var front := b[..|b| - 1];
      assert (a + b)[..|a + b| - 1] == a + front;
      StackRankOf(a, front);
    }
  }

  // The contexts not cancelled yet.
  function Live(cells: seq<Cell>): nat {
    if cells == [] then 0
    else Live(cells[..|cells| - 1]) + if cells[|cells| - 1].err.None? then 1 else 0
  }

  lemma {:induction false} LiveUpdate(cells: seq<Cell>, c: nat, x: Cell)
    requires c < |cells|
    ensures Live(cells[c := x]) == Live(cells) - (if cells[c].err.None? then 1 else 0) + (if x.err.None? then 1 else 0)
    decreases |cells|
  {
    var n, after := |cells| - 1, cells[c := x];
    if c == n {
      assert after[..n] == cells[..n];
    } else {
      assert after[..n] == cells[..n][c := x];
      LiveUpdate(cells[..n], c, x);
    }
  }

  lemma {:induction false} Few(todo: set<nat>, n: nat)
    requires forall k :: k in todo ==> k < n
    ensures |todo| <= n
  {
    if n == 0 {
      assert todo == {};
    } else {
      Few(todo - {n - 1}, n - 1);
    }
  }

  // A cancel that wins has at most every context as a child.
  function PerContext(s: State): nat { 4 * |s.cells| + 1 }

  ghost function Rank(s: State): nat {
    PerContext(s) * Live(s.cells) + Total(s.threads, StackRank, s.threads.Keys)
  }

  // A step of t that cancels `hits` contexts changes the rank by what it does to t's stack.
  lemma Moves(s: State, s': State, t: Tid, st: seq<Act>, hits: nat)
    requires t in s.threads && s'.threads == s.threads[t := st]
    requires |s'.cells| == |s.cells| && Live(s'.cells) + hits == Live(s.cells)
    requires StackRank(st) < StackRank(s.threads[t]) + hits * PerContext(s)
    ensures Rank(s') < Rank(s) && s'.threads.Keys == s.threads.Keys
  {
    hide Live, StackRank;
    OneChanges(s.threads, s'.threads, StackRank, t);
    Distribute(PerContext(s), Live(s'.cells), hits);
  }

  lemma Distribute(k: nat, a: nat, b: nat)
    ensures k * (a + b) == k * a + b * k
  {
  }

  // The stack that t is left with, above what stays of it.
  lemma TopRank(s: State, t: Tid, above: seq<Act>)
    requires Stack(s, t) != []
    ensures StackRank(Stack(s, t)) == StackRank(Pop(s, t)) + ActRank(Top(s, t))
    ensures StackRank(Pop(s, t) + above) == StackRank(Pop(s, t)) + StackRank(above)
    ensures Pop(s, t) + [] == Pop(s, t)
  {
    StackRankOf(Pop(s, t), above);
  }

  lemma SomeRanks()
    ensures StackRank([]) == 0
    ensures forall a :: StackRank([a]) == ActRank(a)
    ensures forall a, b :: StackRank([a, b]) == ActRank(a) + ActRank(b)
    ensures forall a, b, c :: StackRank([a, b, c]) == ActRank(a) + ActRank(b) + ActRank(c)
  {
    hide ActRank;
    forall a, b, c
      ensures StackRank([a]) == ActRank(a)
      ensures StackRank([a, b]) == ActRank(a) + ActRank(b)
      ensures StackRank([a, b, c]) == ActRank(a) + ActRank(b) + ActRank(c)
    {
      assert [a][..0] == [] && [a, b][..1] == [a] && [a, b, c][..2] == [a, b];
    }
  }

  lemma EnterRanks(s: State, t: Tid, x: bool)
    requires Inv(s) && WellFormed(s) && Enabled(s, Go(t, x)) && Top(s, t).Enter?
    ensures Rank(GoStep(s, t, x)) < Rank(s)
  {
    hide Live, StackRank, Rank;
    var s', a, y := GoStep(s, t, x), Top(s, t), s.cells[Top(s, t).c];
    SomeRanks();
    if y.err.Some? {
      TopRank(s, t, []);
      Moves(s, s', t, Pop(s, t), 0);
    } else {
      assert CellOk(s, a.c);
      Few(y.children, |s.cells|);
      var h := Hold(a.c, y.children, a.err, a.cause, a.remove);
      TopRank(s, t, [h]);
      LiveUpdate(s.cells, a.c, s'.cells[a.c]);
      Moves(s, s', t, Pop(s, t) + [h], 1);
    }
  }

  // A step that takes the top off, or puts something of a lower rank in its place.
  lemma PopRanks(s: State, t: Tid, x: bool)
    requires Inv(s) && WellFormed(s) && Enabled(s, Go(t, x)) && (Top(s, t).Hold? || Top(s, t).Remove? || Top(s, t).Post?)
    ensures Rank(GoStep(s, t, x)) < Rank(s)
  {
    hide Live, StackRank, Rank;
    var s', a := GoStep(s, t, x), Top(s, t);
    var above := if a.Hold? && a.remove then [Remove(a.c)] else [];
    SomeRanks();
    TopRank(s, t, above);
    var c := if a.Remove? && Above(s, a.c).Some? then Above(s, a.c).value else a.c;
    LiveUpdate(s.cells, c, s'.cells[c]);
    assert s'.cells == s.cells[c := s'.cells[c]];
    Moves(s, s', t, Pop(s, t) + above, 0);
  }

  lemma DescendRanks(s: State, t: Tid, child: nat)
    requires Inv(s) && WellFormed(s) && Enabled(s, Descend(t, child))
    ensures Rank(Step(s, Descend(t, child))) < Rank(s)
  {
    hide Live, StackRank, Rank;
    var s', a := Step(s, Descend(t, child)), Top(s, t);
    var h, post, enter := a.(todo := a.todo - {child}), Post(child), Enter(child, a.err, a.cause, false, false);
    SomeRanks();
    TopRank(s, t, [h, post, enter]);
    Moves(s, s', t, Pop(s, t) + [h, post, enter], 0);
  }

  // A step that leaves t with less to do, and may cancel something besides.
  lemma MovesOn(s: State, s': State, t: Tid, st: seq<Act>)
    requires t in s.threads && s'.threads == s.threads[t := st]
    requires |s'.cells| == |s.cells| && Live(s'.cells) <= Live(s.cells)
    requires StackRank(st) < StackRank(s.threads[t])
    ensures Rank(s') < Rank(s)
  {
    hide Live, StackRank, Rank;
    var hits := Live(s.cells) - Live(s'.cells);
    assert hits * PerContext(s) >= 0;
    Moves(s, s', t, st, hits);
  }

  // A context that is being attached.
  lemma AttachRanks(s: State, t: Tid, x: bool)
    requires Inv(s) && WellFormed(s) && Enabled(s, Go(t, x)) && Top(s, t).Attaching()
    ensures Rank(GoStep(s, t, x)) < Rank(s)
  {
    hide Live, Rank, StackRank;
    var s' := GoStep(s, t, x);
    AttachStack(s, t, x);
    AttachLive(s, t, x);
    hide Inv, Enabled, GoStep;
    MovesOn(s, s', t, Stack(s', t));
  }

  lemma AttachStack(s: State, t: Tid, x: bool)
    requires Inv(s) && WellFormed(s) && Enabled(s, Go(t, x)) && Top(s, t).Attaching()
    ensures
      var s' := GoStep(s, t, x);
      s'.threads == s.threads[t := Stack(s', t)] && StackRank(Stack(s', t)) < StackRank(s.threads[t])
  {
    hide StackRank;
    var st := Stack(s, t);
    assert ActOk(s, t, st, |st| - 1);
    hide Inv;
    assert st == [Top(s, t)];
    SomeRanks();
  }

  lemma AttachLive(s: State, t: Tid, x: bool)
    requires WellFormed(s) && Enabled(s, Go(t, x)) && Top(s, t).Attaching()
    ensures
      var s' := GoStep(s, t, x);
      |s'.cells| == |s.cells| && Live(s'.cells) <= Live(s.cells)
  {
    hide Live;
    var a := Top(s, t);
    var s', up := GoStep(s, t, x), Above(s, a.c);
    var cells := if up.Some? then s.cells[up.value := s'.cells[up.value]] else s.cells;
    if up.Some? {
      LiveUpdate(s.cells, up.value, s'.cells[up.value]);
    }
    LiveUpdate(cells, a.c, s'.cells[a.c]);
    assert s'.cells == cells[a.c := s'.cells[a.c]];
  }

  // The deadline of a context that has been attached.
  lemma ArmRanks(s: State, t: Tid, x: bool)
    requires Inv(s) && WellFormed(s) && Enabled(s, Go(t, x)) && Top(s, t).Arm?
    ensures Rank(GoStep(s, t, x)) < Rank(s)
  {
    hide Live, Rank, StackRank;
    var s', st, c := GoStep(s, t, x), Stack(s, t), Top(s, t).c;
    assert ActOk(s, t, st, |st| - 1);
    assert st == [Top(s, t)] && Pop(s, t) == [];
    hide Inv;
    SomeRanks();
    LiveUpdate(s.cells, c, s'.cells[c]);
    assert s'.cells == s.cells[c := s'.cells[c]];
    MovesOn(s, s', t, Stack(s', t));
  }

  predicate Moving(e: Event) { e.Go? || e.Descend? }

  /** Every step but the start of a call brings the calls nearer their end. */
  lemma StepRanks(s: State, e: Event)
    requires Inv(s) && WellFormed(s) && Enabled(s, e) && Moving(e)
    ensures Rank(Step(s, e)) < Rank(s)
  {
    hide Rank;
    if e.Descend? {
      DescendRanks(s, e.t, e.child);
    } else {
      var a := Top(s, e.t);
      if a.Enter? {
        EnterRanks(s, e.t, e.expired);
      } else if a.Hold? || a.Remove? || a.Post? {
        PopRanks(s, e.t, e.expired);
      } else if a.Arm? {
        ArmRanks(s, e.t, e.expired);
      } else {
        AttachRanks(s, e.t, e.expired);
      }
    }
  }

  lemma {:induction false} RunRanks(s: State, es: seq<Event>, u: State)
    requires Inv(s) && WellFormed(s) && Run(s, es, u) && forall i :: 0 <= i < |es| ==> Moving(es[i])
    ensures |es| + Rank(u) <= Rank(s)
    decreases |es|
  {
    if es != [] {
      hide Inv, WellFormed, Enabled, Step, Rank, Moving;
      StepKeeps(s, es[0]);
      StepRanks(s, es[0]);
      RunRanks(Step(s, es[0]), es[1..], u);
    }
  }

  /**
    Without new calls every run is bounded, however the goroutines take turns; and one
    that cannot go on has returned from every call, so no cancel is left waiting.
   */
  lemma EveryCallReturns(s: State, es: seq<Event>, u: State)
    requires Reachable(s) && Run(s, es, u) && forall i :: 0 <= i < |es| ==> Moving(es[i])
    ensures |es| <= Rank(s) && WellFormed(u)
    ensures !CanMove(u) ==> forall t :: Stack(u, t) == []
  {
    hide Inv, WellFormed, Enabled, Step, Rank, Moving;
    ReachableInv(s);
    RunRanks(s, es, u);
    var before :| Run(INIT, before, s);
    RunsJoin(INIT, before, s, es, u);
    assert Reachable(u);
    ReachableInv(u);
    if !CanMove(u) {
      forall t
        ensures Stack(u, t) == []
      {
        if Stack(u, t) != [] {
          NoDeadlock(u, t);
        }
      }
    }
  }
}
