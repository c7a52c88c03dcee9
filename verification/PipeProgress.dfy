/**
  io.Pipe lets go: without new calls every run ends, and after a Close it can only end
  with every call returned.
 */
module PipeProgress {
  import opened Pipe
  import opened Totals

  // How far a call is from its end.  A writer that comes back for another reader has
  // used one up.
  function Rank(c: Call): nat {
    match c
    case WStart(_) => 8
    case WLock(_) => 7
    case WOffer(_, _) => 5
    case WAck(_, _) => 6
    case WErr(_, _, _) => 4
    case WErr2(_, _, _, _) => 2
    case WDone(_, _, _) => 0
    case RStart(_) => 9
    case RWait(_) => 8
    case RHold(_) => 6
    case RErr => 2
    case RErr2(_) => 1
    case RDone(_, _) => 0
    case CStore(_, _) => 2
    case CClose => 1
    case CDone => 0
  }

  const STEPS_PER_CALL: nat := 9

  /** Every step but the start of a call brings the calls nearer their end. */
  lemma StepRanks(s: State, e: Event)
    requires Enabled(s, e) && !e.Begin?
    ensures
      var t := Step(s, e);
      t.calls.Keys == s.calls.Keys && Total(t.calls, Rank, t.calls.Keys) < Total(s.calls, Rank, s.calls.Keys)
  {
    hide Total;
    if e.Rendezvous? || e.Acknowledge? {
      hide Rank;
      MeetingRanks(s, e);
    } else {
      OneChanges(s.calls, Step(s, e).calls, Rank, e.id);
    }
  }

  lemma MeetingRanks(s: State, e: Event)
    requires Enabled(s, e) && (e.Rendezvous? || e.Acknowledge?)
    ensures
      var t := Step(s, e);
      t.calls.Keys == s.calls.Keys && Total(t.calls, Rank, t.calls.Keys) < Total(s.calls, Rank, s.calls.Keys)
  {
    hide Total;
    TwoChange(s.calls, Step(s, e).calls, Rank, e.writer, e.reader);
  }

  predicate NoBegin(es: seq<Event>) { forall i :: 0 <= i < |es| ==> !es[i].Begin? }

  lemma {:induction false} RunRanks(s: State, es: seq<Event>, t: State)
    requires Run(s, es, t) && NoBegin(es)
    ensures t.calls.Keys == s.calls.Keys && |es| + Total(t.calls, Rank, t.calls.Keys) <= Total(s.calls, Rank, s.calls.Keys)
    ensures s.done ==> t.done
    decreases |es|
  {
    if es != [] {
      assert !es[0].Begin?;
      StepRanks(s, es[0]);
      StepLater(s, es[0]);
      hide Total, Step, Enabled;
      assert forall i :: 0 <= i < |es[1..]| ==> es[1..][i] == es[i + 1];
      RunRanks(Step(s, es[0]), es[1..], t);
    }
  }

  ghost predicate Stuck(s: State) { forall e :: Enabled(s, e) ==> e.Begin? }

  /**
    Without new calls a run takes at most nine steps for each call there is; once the
    pipe is closed, a run that cannot go on has returned from every one of them.
   */
  lemma CloseEnds(s: State, es: seq<Event>, t: State)
    requires Reachable(s) && Run(s, es, t) && NoBegin(es)
    ensures |es| <= STEPS_PER_CALL * |s.calls|
    ensures t.calls.Keys == s.calls.Keys
    ensures s.done && Stuck(t) ==> forall c :: c in t.calls ==> t.calls[c].Finished()
  {
    hide Total, Rank, Step, Enabled, Reachable;
    RunRanks(s, es, t);
    BoundRanks(s);
    if s.done && Stuck(t) {
      ReachesOn(s, es, t);
      forall c | c in t.calls
        ensures t.calls[c].Finished()
      {
        if !t.calls[c].Finished() {
          CloseUnblocks(t, c);
        }
      }
    }
  }

  lemma BoundRanks(s: State)
    ensures Total(s.calls, Rank, s.calls.Keys) <= STEPS_PER_CALL * |s.calls|
  {
    TotalBound(s.calls, Rank, s.calls.Keys, STEPS_PER_CALL);
    assert |s.calls.Keys| == |s.calls|;
  }

  lemma ReachesOn(s: State, es: seq<Event>, t: State)
    requires Reachable(s) && Run(s, es, t)
    ensures Reachable(t)
  {
    hide Step, Enabled;
    var before :| Run(INIT, before, s);
    RunsJoin(INIT, before, s, es, t);
  }
}
