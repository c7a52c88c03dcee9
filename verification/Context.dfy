/**
  The cancellation tree of package context, for the context types the package
  itself defines.  Goroutines run the source's critical sections as steps; cancel
  keeps its node locked while it descends into the children, so a thread carries a
  stack of activations.  A run is any interleaving of enabled steps.
 */
module Context {
  import opened Bytes

  type Tid = nat

  datatype Error = Canceled | DeadlineExceeded | Custom(code: int)

  datatype Kind = Background | WithoutCancel | Value | Cancel | Timer | After
  {
    predicate Cancelable() { Cancel? || Timer? || After? }
  }

  // What never changes about a context; `late` is the cause given for a deadline.
  datatype Shape = Shape(kind: Kind, parent: nat, late: Option<Error>)

  // The lazily created done channel; Shared is the package's closedchan.
  datatype Chan = Unset | Open | Closed | Shared

  datatype Once = Idle | Started | Stopped

  // The mutable part of a context.  `builder` is the thread that creates it, `closes`
  // counts close(done), and `propagated` records that err came from the parent.
  datatype Cell = Cell(
    attached: bool, builder: Tid, err: Option<Error>, cause: Option<Error>, done: Chan, closes: nat,
    children: set<nat>, mu: Option<Tid>, propagated: bool, timer: bool, once: Once)
  {
    predicate Settled() { err.Some? && mu.None? }
  }

  const FRESH := Cell(false, 0, None, None, Unset, 0, {}, None, false, false, Idle)

  datatype Act =
    | Load(c: nat)                       // propagateCancel: parent.Done()
    | Check(c: nat)                      // select on the parent's channel
    | ReadErr(c: nat)                    // parent.Err()
    | ReadCause(c: nat, err: Error)      // Cause(parent), then child.cancel
    | Register(c: nat)                   // the block under p.mu
    | Arm(c: nat)                        // WithDeadlineCause after propagateCancel
    | Enter(c: nat, err: Error, cause: Error, direct: bool, remove: bool)
    | Hold(c: nat, todo: set<nat>, err: Error, cause: Error, remove: bool)
    | Remove(c: nat)                     // removeChild(c.Context, c)
    | Post(c: nat)                       // stop the timer, or run once.Do(go f)
  {
    predicate Attaching() { Load? || Check? || ReadErr? || ReadCause? || Register? }
    predicate Works(n: nat) { (Enter? || Hold?) && c == n }
  }

  datatype State = State(shape: seq<Shape>, cells: seq<Cell>, threads: map<Tid, seq<Act>>)

  const INIT := State([Shape(Background, 0, None)], [FRESH.(attached := true)], map[])

  // value(c, &cancelCtxKey): the innermost cancelCtx at or above n; a WithoutCancel or
  // the background hides what is above.
  function Enclosing(shape: seq<Shape>, n: nat): (r: Option<nat>)
    ensures r.Some? ==> r.value <= n && r.value < |shape|
                        && (shape[r.value].kind.Cancel? || shape[r.value].kind.Timer?)
    decreases n
  {
    if n >= |shape| then None
    else if shape[n].kind.Cancel? || shape[n].kind.Timer? then Some(n)
    else if shape[n].kind.Value? && shape[n].parent < n then Enclosing(shape, shape[n].parent)
    else None
  }

  // The context whose cancellation reaches c.
  function Above(s: State, c: nat): Option<nat>
    requires c < |s.shape|
  {
    if s.shape[c].kind.Cancelable() then Enclosing(s.shape, s.shape[c].parent) else None
  }

  function Stack(s: State, t: Tid): seq<Act> { if t in s.threads then s.threads[t] else [] }

  function Cause(err: Error, cause: Option<Error>): Error { if cause.None? then err else cause.value }

  // ---- Steps ----

  datatype Event =
    | NewPlain(kind: Kind, parent: nat)              // WithValue, WithoutCancel, Background
    | Touch(c: nat)                                  // Done() by a user
    | Derive(t: Tid, kind: Kind, parent: nat, why: Option<Error>)
    | CancelCall(t: Tid, c: nat, why: Option<Error>) // a CancelFunc or CancelCauseFunc
    | Fire(t: Tid, c: nat)                           // the timer's goroutine
    | StopCall(t: Tid, c: nat)                       // the stop function of AfterFunc
    | Go(t: Tid, expired: bool)                      // the next step of thread t
    | Descend(t: Tid, child: nat)                    // cancel's loop picks a child

  function Top(s: State, t: Tid): Act
    requires Stack(s, t) != []
  {
    Stack(s, t)[|Stack(s, t)| - 1]
  }

  predicate Free(s: State, c: nat) { c < |s.cells| ==> s.cells[c].mu.None? }

  predicate UpFree(s: State, c: nat) {
    c < |s.shape| && Above(s, c).Some? ==> Free(s, Above(s, c).value)
  }

  ghost predicate WellFormed(s: State) {
    && |s.shape| == |s.cells|
    && (forall c :: 0 <= c < |s.shape| && !s.shape[c].kind.Background? ==> s.shape[c].parent < c)
    && (forall t, i :: t in s.threads && 0 <= i < |s.threads[t]| ==> s.threads[t][i].c < |s.cells|)
  }

  ghost predicate Enabled(s: State, e: Event)
    requires WellFormed(s)
  {
    match e
    case NewPlain(kind, parent) =>
      parent < |s.cells| && s.cells[parent].attached && !s.shape[parent].kind.After? && !kind.Cancelable()
    case Touch(c) => c < |s.cells| && s.shape[c].kind.Cancelable() && s.cells[c].attached
                     && s.cells[c].mu.None?
    case Derive(t, kind, parent, why) =>
      Stack(s, t) == [] && parent < |s.cells| && s.cells[parent].attached
      && !s.shape[parent].kind.After? && kind.Cancelable()
    case CancelCall(t, c, why) =>
      Stack(s, t) == [] && c < |s.cells| && s.cells[c].attached
      && (s.shape[c].kind.Cancel? || (s.shape[c].kind.Timer? && why.None?))
    case Fire(t, c) =>
      Stack(s, t) == [] && c < |s.cells| && s.shape[c].kind.Timer? && s.cells[c].attached && s.cells[c].timer
    case StopCall(t, c) =>
      Stack(s, t) == [] && c < |s.cells| && s.shape[c].kind.After? && s.cells[c].attached && s.cells[c].once.Idle?
    case Descend(t, child) =>
      Stack(s, t) != [] && Top(s, t).Hold? && child in Top(s, t).todo
    case Go(t, expired) =>
      Stack(s, t) != [] &&
      var a := Top(s, t);
      match a
      case Load(c) => Above(s, c).Some? && s.cells[Above(s, c).value].done.Unset? ==> UpFree(s, c)
      case Check(c) => true
      case ReadErr(c) => UpFree(s, c)
      case ReadCause(c, _) => UpFree(s, c)
      case Register(c) => UpFree(s, c)
      case Arm(c) => expired || Free(s, c)
      case Enter(c, _, _, _, _) => Free(s, c)
      case Hold(c, todo, _, _, _) => todo == {}
      case Remove(c) => UpFree(s, c) || s.cells[Above(s, c).value].done.Shared?
      case Post(c) => Free(s, c)
  }

  function Put(s: State, t: Tid, st: seq<Act>): State { s.(threads := s.threads[t := st]) }

  function Set(s: State, c: nat, x: Cell): State
    requires c < |s.cells|
  {
    s.(cells := s.cells[c := x])
  }

  function Pop(s: State, t: Tid): seq<Act>
    requires Stack(s, t) != []
  {
    Stack(s, t)[..|Stack(s, t)| - 1]
  }

  function Closing(d: Chan): Chan { if d.Unset? then Shared else Closed }

  // The writes of the first cancel that reaches x.
  function Cancelled(x: Cell, err: Error, cause: Error, propagated: bool): Cell {
    x.(err := Some(err), cause := Some(cause), done := Closing(x.done),
       closes := if x.done.Unset? then x.closes else x.closes + 1, propagated := propagated)
  }

  // child.cancel on a child no other goroutine knows yet.
  function CancelledFresh(k: Kind, x: Cell, err: Error, cause: Error): Cell {
    Cancelled(x, err, cause, true).(attached := true, once := if k.After? then Started else x.once)
  }

  // cancel(true, err, cause) for each kind of canceler.
  function CancelStack(kind: Kind, c: nat, err: Error, cause: Error): seq<Act> {
    if kind.Cancel? then [Post(c), Enter(c, err, cause, true, true)]
    else [Post(c), Remove(c), Enter(c, err, cause, true, false)]
  }

  function AfterAttach(s: State, c: nat): seq<Act>
    requires c < |s.shape|
  {
    if s.shape[c].kind.Timer? then [Arm(c)] else []
  }

  function Step(s: State, e: Event): State
    requires WellFormed(s) && Enabled(s, e)
  {
    match e
    case NewPlain(kind, parent) =>
      s.(shape := s.shape + [Shape(kind, parent, None)], cells := s.cells + [FRESH.(attached := true)])
    case Touch(c) =>
      if s.cells[c].done.Unset? then Set(s, c, s.cells[c].(done := Open)) else s
    case Derive(t, kind, parent, why) =>
      Put(s.(shape := s.shape + [Shape(kind, parent, why)], cells := s.cells + [FRESH.(builder := t)]),
          t, [Load(|s.cells|)])
    case CancelCall(t, c, why) =>
      Put(s, t, CancelStack(s.shape[c].kind, c, Canceled, Cause(Canceled, why)))
    case Fire(t, c) =>
      Put(s, t, CancelStack(Timer, c, DeadlineExceeded, Cause(DeadlineExceeded, s.shape[c].late)))
    case StopCall(t, c) =>
      Put(Set(s, c, s.cells[c].(once := Stopped)), t, CancelStack(After, c, Canceled, Canceled))
    case Descend(t, child) =>
      var a := Top(s, t);
      Put(s, t, Pop(s, t) + [a.(todo := a.todo - {child}), Post(child), Enter(child, a.err, a.cause, false, false)])
    case Go(t, expired) => GoStep(s, t, expired)
  }

  function GoStep(s: State, t: Tid, expired: bool): State
    requires WellFormed(s) && Enabled(s, Go(t, expired))
  {
    var a := Top(s, t);
    var x := s.cells[a.c];
    var up := Above(s, a.c);
    match a
    case Load(c) =>
      if up.None? then Put(Set(s, c, x.(attached := true)), t, AfterAttach(s, c))
      else if s.cells[up.value].done.Unset? then
        Put(Set(s, up.value, s.cells[up.value].(done := Open)), t, [Check(c)])
      else Put(s, t, [Check(c)])
    case Check(c) =>
      if up.Some? && (s.cells[up.value].done.Closed? || s.cells[up.value].done.Shared?)
      then Put(s, t, [ReadErr(c)]) else Put(s, t, [Register(c)])
    case ReadErr(c) =>
      if up.Some? && s.cells[up.value].err.Some? then Put(s, t, [ReadCause(c, s.cells[up.value].err.value)])
      else s
    case ReadCause(c, err) =>
      var cause := if up.Some? && s.cells[up.value].cause.Some? then s.cells[up.value].cause.value else err;
      Put(Set(s, c, CancelledFresh(s.shape[c].kind, x, err, cause)), t, AfterAttach(s, c))
    case Register(c) =>
      if up.None? then s
      else
        var y := s.cells[up.value];
        if y.err.Some? then
          Put(Set(s, c, CancelledFresh(s.shape[c].kind, x, y.err.value, Cause(y.err.value, y.cause))), t, AfterAttach(s, c))
        else
          Put(Set(Set(s, up.value, y.(children := y.children + {c})), c, x.(attached := true)), t, AfterAttach(s, c))
    case Arm(c) =>
      if expired then Put(s, t, CancelStack(Timer, c, DeadlineExceeded, Cause(DeadlineExceeded, s.shape[c].late)))
      else Put(Set(s, c, if x.err.None? then x.(timer := true) else x), t, Pop(s, t))
    case Enter(c, err, cause, direct, remove) =>
      if x.err.Some? then Put(s, t, Pop(s, t))
      else Put(Set(s, c, Cancelled(x, err, cause, !direct).(mu := Some(t))), t,
               Pop(s, t) + [Hold(c, x.children, err, cause, remove)])
    case Hold(c, todo, err, cause, remove) =>
      Put(Set(s, c, x.(children := {}, mu := None)), t,
          if remove then Pop(s, t) + [Remove(c)] else Pop(s, t))
    case Remove(c) =>
      if up.None? || s.cells[up.value].done.Shared? then Put(s, t, Pop(s, t))
      else
        var y := s.cells[up.value];
        Put(Set(s, up.value, y.(children := y.children - {c})), t, Pop(s, t))
    case Post(c) =>
      var y := if s.shape[c].kind.Timer? then x.(timer := false)
               else if s.shape[c].kind.After? && x.once.Idle? then x.(once := Started) else x;
      Put(Set(s, c, y), t, Pop(s, t))
  }

  // ---- The invariant ----

  // k is a registered context that p's cancellation must reach.
  predicate Linked(s: State, k: nat, p: nat) {
    k < |s.shape| == |s.cells| && s.cells[k].attached && Above(s, k) == Some(p)
  }

  // err and cause of c are those of the context above it.
  predicate Inherits(s: State, c: nat)
    requires |s.shape| == |s.cells| && c < |s.cells|
  {
    var up := Above(s, c);
    up.Some? && s.cells[up.value].err == s.cells[c].err && s.cells[up.value].cause == s.cells[c].cause
  }

  ghost predicate CellOk(s: State, c: nat)
    requires |s.shape| == |s.cells| && c < |s.cells|
  {
    var x := s.cells[c];
    && (!s.shape[c].kind.Background? ==>
          var up := s.shape[c].parent; up < c && s.cells[up].attached && !s.shape[up].kind.After?)
    && (x.err.Some? <==> x.cause.Some?)
    && (x.err.Some? <==> x.done.Closed? || x.done.Shared?)
    && x.closes == (if x.done.Closed? then 1 else 0)
    && (!s.shape[c].kind.Cancelable() ==> x.attached && x.err.None?)
    && (!x.attached ==> x.err.None? && x.mu.None? && x.children == {} && x.once.Idle?)
    && (forall k: nat :: k in x.children ==> Linked(s, k, c))
    && (x.propagated ==> x.err.Some? && Inherits(s, c))
  }

  // Registered with the parent until settled; settled once the parent is.
  ghost predicate TreeOk(s: State, c: nat, p: nat)
    requires c < |s.cells| && p < |s.cells|
  {
    && (s.cells[p].err.None? ==> c in s.cells[p].children || s.cells[c].Settled())
    && (s.cells[p].Settled() ==> s.cells[c].Settled())
  }

  ghost predicate ActOk(s: State, t: Tid, st: seq<Act>, i: nat)
    requires |s.shape| == |s.cells| && i < |st|
  {
    var a := st[i];
    a.c < |s.cells| && s.shape[a.c].kind.Cancelable() &&
    var x := s.cells[a.c];
    var up := Above(s, a.c);
    && (if a.Attaching() then |st| == 1 && !x.attached && x.builder == t else x.attached)
    && match a
       case Load(c) => true
       case Check(c) => up.Some?
       case ReadErr(c) => up.Some? && s.cells[up.value].err.Some?
       case ReadCause(c, err) => up.Some? && s.cells[up.value].err == Some(err)
       case Register(c) => up.Some?
       case Arm(c) => |st| == 1 && s.shape[c].kind.Timer?
       case Enter(c, err, cause, direct, remove) =>
         && i == |st| - 1
         && (!direct ==> i >= 2 && st[i - 2].Hold? && st[i - 2].err == err && st[i - 2].cause == cause
                         && up == Some(st[i - 2].c))
       case Hold(c, todo, err, cause, remove) =>
         && x.mu == Some(t) && x.err == Some(err) && x.cause == Some(cause)
         && (forall k: nat :: k in todo ==> Linked(s, k, c))
         && (forall j :: 0 <= j < |st| && j != i && st[j].Hold? ==> st[j].c != c)
         && (forall k: nat :: Linked(s, k, c) ==>
               s.cells[k].Settled() || k in todo || (i + 2 < |st| && st[i + 2].Works(k)))
       case Remove(c) => x.Settled() || (i + 1 < |st| && st[i + 1].Works(c))
       case Post(c) => true
  }

  ghost predicate Cells(s: State) {
    |s.shape| == |s.cells| && forall c :: 0 <= c < |s.cells| ==> CellOk(s, c)
  }

  ghost predicate Tree(s: State) {
    |s.shape| == |s.cells| && forall c: nat, p: nat :: Linked(s, c, p) ==> TreeOk(s, c, p)
  }

  ghost predicate Threads(s: State) {
    |s.shape| == |s.cells| &&
    forall t, i :: t in s.threads && 0 <= i < |s.threads[t]| ==> ActOk(s, t, s.threads[t], i)
  }

  ghost predicate Inv(s: State) { Cells(s) && Tree(s) && Threads(s) }

  lemma InvWellFormed(s: State)
    requires Inv(s)
    ensures WellFormed(s)
  {
    forall c | 0 <= c < |s.shape| && !s.shape[c].kind.Background? ensures s.shape[c].parent < c {
      assert CellOk(s, c);
    }
    forall t, i | t in s.threads && 0 <= i < |s.threads[t]| ensures s.threads[t][i].c < |s.cells| {
      assert ActOk(s, t, s.threads[t], i);
    }
  }

  lemma {:induction false} EnclosingAppend(shape: seq<Shape>, x: Shape, n: nat)
    requires n < |shape|
    ensures Enclosing(shape + [x], n) == Enclosing(shape, n)
    decreases n
  {
    if shape[n].kind.Value? && shape[n].parent < n { EnclosingAppend(shape, x, shape[n].parent); }
  }

  lemma {:induction false} EnclosingAttached(s: State, n: nat)
    requires Cells(s) && n < |s.cells| && s.cells[n].attached && Enclosing(s.shape, n).Some?
    ensures s.cells[Enclosing(s.shape, n).value].attached
    decreases n
  {
    assert CellOk(s, n);
    if !(s.shape[n].kind.Cancel? || s.shape[n].kind.Timer?) {
      EnclosingAttached(s, s.shape[n].parent);
    }
  }

  /** What reaches a context was attached before it. */
  lemma AboveAttached(s: State, c: nat)
    requires Cells(s) && c < |s.cells| && Above(s, c).Some?
    ensures Above(s, c).value < c && s.cells[Above(s, c).value].attached
  {
    assert CellOk(s, c);
    EnclosingAttached(s, s.shape[c].parent);
  }

  // ---- Preservation ----

  // How a cell may change in a step of thread t.
  predicate Evolves(x: Cell, y: Cell, t: Tid) {
    && (x.attached ==> y.attached)
    && y.builder == x.builder && (!x.attached && x.builder != t ==> y == x)
    && (x.err.Some? ==> y.err == x.err && y.cause == x.cause)
    && (x.Settled() ==> y.Settled())
    && (x.mu.Some? && x.mu != Some(t) ==> y.mu == x.mu)
  }

  // A step of t on existing contexts: cells evolve, and a context is attached only
  // while the lock of the context above it is free.
  ghost predicate Moves(s: State, s': State, t: Tid) {
    && s'.shape == s.shape && |s'.cells| == |s.cells| == |s.shape|
    && (forall c :: 0 <= c < |s.cells| ==> Evolves(s.cells[c], s'.cells[c], t))
    && (forall c, p :: 0 <= c < |s.cells| && !s.cells[c].attached && s'.cells[c].attached && Above(s, c) == Some(p)
          ==> s.cells[p].mu.None?)
  }

  lemma OtherThreads(s: State, s': State, t: Tid, u: Tid, i: nat)
    requires Threads(s) && Moves(s, s', t)
    requires u in s.threads && u != t && i < |s.threads[u]|
    ensures ActOk(s', u, s.threads[u], i)
  {
    var st := s.threads[u];
    assert ActOk(s, u, st, i);
    var a := st[i];
    assert Evolves(s.cells[a.c], s'.cells[a.c], t);
    if Above(s, a.c).Some? { assert Evolves(s.cells[Above(s, a.c).value], s'.cells[Above(s, a.c).value], t); }
    if a.Hold? {
      forall k: nat | Linked(s', k, a.c)
        ensures s'.cells[k].Settled() || k in a.todo || (i + 2 < |st| && st[i + 2].Works(k))
      {
        assert Evolves(s.cells[k], s'.cells[k], t);
        assert Linked(s, k, a.c);
      }
      forall k: nat | k in a.todo ensures Linked(s', k, a.c) {
        assert Linked(s, k, a.c);
        assert Evolves(s.cells[k], s'.cells[k], t);
      }
    }
  }

  // st' is t's stack with its top replaced: what the top worked on is settled or still
  // worked on, and locks held below stay held.
  ghost predicate Replaces(s: State, s': State, t: Tid, st': seq<Act>)
    requires t in s.threads && s.threads[t] != [] && |s'.cells| == |s.cells|
  {
    var st := s.threads[t];
    var n := |st| - 1;
    && |st'| >= n && st'[..n] == st[..n]
    && (forall k: nat :: st[n].Works(k) ==>
          k < |s'.cells| && (s'.cells[k].Settled() || (n < |st'| && st'[n].Works(k))))
    && (forall j, m :: 0 <= j < n <= m < |st'| && st'[j].Hold? && st'[m].Hold? ==> st'[j].c != st'[m].c)
    && (forall j :: 0 <= j < n && st[j].Hold? && st[j].c < |s.cells| ==> s'.cells[st[j].c].mu == Some(t))
  }

  lemma OwnFrames(s: State, s': State, t: Tid, st': seq<Act>, i: nat)
    requires Threads(s) && Moves(s, s', t) && t in s.threads && s.threads[t] != []
    requires Replaces(s, s', t, st') && i < |s.threads[t]| - 1
    ensures ActOk(s', t, st', i)
  {
    var st := s.threads[t];
    var n := |st| - 1;
    assert ActOk(s, t, st, i);
    var a := st[i];
    assert a == st'[i];
    assert Evolves(s.cells[a.c], s'.cells[a.c], t);
    if a.Hold? {
      forall k: nat | Linked(s', k, a.c)
        ensures s'.cells[k].Settled() || k in a.todo || (i + 2 < |st'| && st'[i + 2].Works(k))
      {
        assert Evolves(s.cells[k], s'.cells[k], t);
        assert Linked(s, k, a.c);
        if i + 2 < n { assert st'[i + 2] == st[i + 2]; }
      }
      forall k: nat | k in a.todo ensures Linked(s', k, a.c) {
        assert Linked(s, k, a.c);
        assert Evolves(s.cells[k], s'.cells[k], t);
      }
      forall j | 0 <= j < |st'| && j != i && st'[j].Hold? ensures st'[j].c != a.c {
        if j < n { assert st'[j] == st[j]; }
      }
    }
    if a.Remove? && i + 1 < n { assert st'[i + 1] == st[i + 1]; }
  }

  lemma ThreadsKept(s: State, s': State, t: Tid, st': seq<Act>)
    requires Threads(s) && Moves(s, s', t) && t in s.threads && s.threads[t] != []
    requires s'.threads == s.threads[t := st'] && Replaces(s, s', t, st')
    requires forall m :: |s.threads[t]| - 1 <= m < |st'| ==> ActOk(s', t, st', m)
    ensures Threads(s')
  {
    forall u, i | u in s'.threads && 0 <= i < |s'.threads[u]| ensures ActOk(s', u, s'.threads[u], i) {
      if u != t {
        OtherThreads(s, s', t, u, i);
      } else if i < |s.threads[t]| - 1 {
        OwnFrames(s, s', t, st', i);
      }
    }
  }

  // The same when t was idle.
  lemma ThreadsStart(s: State, s': State, t: Tid, st': seq<Act>)
    requires Threads(s) && Moves(s, s', t) && Stack(s, t) == []
    requires s'.threads == s.threads[t := st']
    requires forall m :: 0 <= m < |st'| ==> ActOk(s', t, st', m)
    ensures Threads(s')
  {
    forall u, i | u in s'.threads && 0 <= i < |s'.threads[u]| ensures ActOk(s', u, s'.threads[u], i) {
      if u != t { OtherThreads(s, s', t, u, i); }
    }
  }

  // A cell that does not change stays in order.
  lemma SameCell(s: State, s': State, t: Tid, c: nat)
    requires Cells(s) && Moves(s, s', t) && c < |s.cells| && s'.cells[c] == s.cells[c]
    ensures CellOk(s', c)
  {
    assert CellOk(s, c);
    if !s.shape[c].kind.Background? {
      assert Evolves(s.cells[s.shape[c].parent], s'.cells[s.shape[c].parent], t);
    }
    if Above(s, c).Some? {
      assert Evolves(s.cells[Above(s, c).value], s'.cells[Above(s, c).value], t);
    }
    forall k: nat | k in s.cells[c].children ensures Linked(s', k, c) {
      assert Linked(s, k, c);
      assert Evolves(s.cells[k], s'.cells[k], t);
    }
  }

  // Cells other than c are untouched.
  lemma OneCell(s: State, s': State, t: Tid, c: nat)
    requires Cells(s) && Moves(s, s', t) && c < |s.cells|
    requires s'.cells == s.cells[c := s'.cells[c]] && CellOk(s', c)
    ensures Cells(s')
  {
    forall d | 0 <= d < |s'.cells| ensures CellOk(s', d) {
      if d != c { SameCell(s, s', t, d); }
    }
  }

  // The tree only looks at attached, err, mu and children.
  lemma SameTree(s: State, s': State)
    requires Tree(s) && s'.shape == s.shape && |s'.cells| == |s.cells|
    requires forall c :: 0 <= c < |s.cells| ==>
      s'.cells[c].attached == s.cells[c].attached && s'.cells[c].err == s.cells[c].err
      && s'.cells[c].mu == s.cells[c].mu && s'.cells[c].children == s.cells[c].children
    ensures Tree(s')
  {
    forall c: nat, p: nat | Linked(s', c, p) ensures TreeOk(s', c, p) {
      assert Linked(s, c, p);
    }
  }

  // cancel reaches a context: it locks it and marks it, or finds it settled.
  lemma GoEnter(s: State, t: Tid, x: bool)
    requires Inv(s) && WellFormed(s) && Enabled(s, Go(t, x)) && Top(s, t).Enter?
    ensures Inv(GoStep(s, t, x))
  {
    var s' := GoStep(s, t, x);
    var st := s.threads[t];
    var n := |st| - 1;
    var c := st[n].c;
    assert ActOk(s, t, st, n);
    if s.cells[c].err.Some? {
      assert s' == Put(s, t, st[..n]);
      PopKeeps(s, s', t);
    } else {
      assert s' == Locked(s, t, n);
      assert Entered(s, s', t, n);
      hide GoStep, Enabled, WellFormed, ActOk;
      EnterMoves(s, s', t, n);
      EnterCell(s, s', t, n);
      OneCell(s, s', t, c);
      EnterTree(s, s', t, c);
      EnterFrame(s, s', t, n);
      ThreadsKept(s, s', t, s'.threads[t]);
    }
  }

  // Dropping the top frame when what it worked on is settled.
  lemma PopKeeps(s: State, s': State, t: Tid)
    requires Inv(s) && t in s.threads && s.threads[t] != []
    requires var st := s.threads[t]; var n := |st| - 1;
      && s' == Put(s, t, st[..n])
      && (forall k: nat :: st[n].Works(k) ==> k < |s.cells| && s.cells[k].Settled())
    ensures Inv(s')
  {
    OwnLocks(s, t);
    forall c | 0 <= c < |s'.cells| ensures CellOk(s', c) { SameCell(s, s', t, c); }
    SameTree(s, s');
    ThreadsKept(s, s', t, s'.threads[t]);
  }

  // s' is s after the locking branch of Enter on frame n of t.
  ghost predicate Entered(s: State, s': State, t: Tid, n: nat) {
    && |s.shape| == |s.cells| && t in s.threads && n < |s.threads[t]| && n == |s.threads[t]| - 1
    && ActOk(s, t, s.threads[t], n)
    && s.threads[t][n].Enter?
    && s.cells[s.threads[t][n].c].err.None? && s.cells[s.threads[t][n].c].mu.None?
    && s' == Locked(s, t, n)
  }

  function Locked(s: State, t: Tid, n: nat): State
    requires t in s.threads && n < |s.threads[t]| && s.threads[t][n].Enter? && s.threads[t][n].c < |s.cells|
  {
    var a := s.threads[t][n];
    var y := s.cells[a.c];
    Put(Set(s, a.c, Cancelled(y, a.err, a.cause, !a.direct).(mu := Some(t))), t,
        s.threads[t][..n] + [Hold(a.c, y.children, a.err, a.cause, a.remove)])
  }

  lemma EnterMoves(s: State, s': State, t: Tid, n: nat)
    requires Entered(s, s', t, n)
    ensures Moves(s, s', t)
  {
  }

  lemma EnterCell(s: State, s': State, t: Tid, n: nat)
    requires Inv(s) && Entered(s, s', t, n) && Moves(s, s', t)
    ensures CellOk(s', s.threads[t][n].c)
  {
    var a := s.threads[t][n];
    var c := a.c;
    assert CellOk(s, c);
    AboveBelow(s, c);
    forall k: nat | k in s.cells[c].children ensures Linked(s', k, c) {
      assert Linked(s, k, c);
    }
    if !a.direct {
      assert ActOk(s, t, s.threads[t], n - 2);
    }
  }

  lemma AboveBelow(s: State, c: nat)
    requires Cells(s) && c < |s.cells|
    ensures Above(s, c).Some? ==> Above(s, c).value < c
    ensures !s.shape[c].kind.Background? ==> s.shape[c].parent < c
  {
    assert CellOk(s, c);
  }

  lemma EnterTree(s: State, s': State, t: Tid, c: nat)
    requires Inv(s) && s'.shape == s.shape && c < |s.cells| && s.cells[c].err.None? && s.cells[c].mu.None?
    requires |s'.cells| == |s.cells| && s'.cells == s.cells[c := s'.cells[c]]
    requires s'.cells[c].mu.Some? && s'.cells[c].err.Some? && s'.cells[c].attached == s.cells[c].attached
    ensures Tree(s')
  {
    forall k: nat, p: nat | Linked(s', k, p) ensures TreeOk(s', k, p) {
      assert Linked(s, k, p);
      AboveBelow(s, k);
    }
  }

  lemma EnterFrame(s: State, s': State, t: Tid, n: nat)
    requires Inv(s) && Entered(s, s', t, n)
    ensures ActOk(s', t, s'.threads[t], n)
    ensures Replaces(s, s', t, s'.threads[t])
  {
    var st, st' := s.threads[t], s'.threads[t];
    var c := st[n].c;
    assert CellOk(s, c);
    forall j | 0 <= j < n && st[j].Hold? ensures st[j].c != c && st[j].c < |s.cells| && s.cells[st[j].c].mu == Some(t) {
      assert ActOk(s, t, st, j);
    }
    forall k: nat | k in s.cells[c].children ensures Linked(s', k, c) {
      assert Linked(s, k, c);
    }
    forall k: nat | Linked(s', k, c) ensures s'.cells[k].Settled() || k in s.cells[c].children {
      assert Linked(s, k, c);
      AboveBelow(s, k);
    }
  }

  // cancel has visited every child and unlocks.
  lemma GoHold(s: State, t: Tid, x: bool)
    requires Inv(s) && WellFormed(s) && Enabled(s, Go(t, x)) && Top(s, t).Hold?
    ensures Inv(GoStep(s, t, x))
  {
    var s' := GoStep(s, t, x);
    var st := s.threads[t];
    var n := |st| - 1;
    var c := st[n].c;
    assert ActOk(s, t, st, n);
    assert s'.shape == s.shape && s'.cells == s.cells[c := s.cells[c].(children := {}, mu := None)];
    ReleaseCells(s, s', t, n);
    GoHoldThreads(s, s', t, x);
  }

  lemma GoHoldThreads(s: State, s': State, t: Tid, x: bool)
    requires Inv(s) && WellFormed(s) && Enabled(s, Go(t, x)) && Top(s, t).Hold? && s' == GoStep(s, t, x)
    ensures Threads(s')
  {
    hide Moves, Replaces;
    var st := s.threads[t];
    var n, c := |st| - 1, Top(s, t).c;
    assert ActOk(s, t, st, n);
    assert s'.shape == s.shape && s'.cells == s.cells[c := s.cells[c].(children := {}, mu := None)];
    HoldMoves(s, s', t, c);
    HoldReplaces(s, s', t, s'.threads[t]);
    ThreadsKept(s, s', t, s'.threads[t]);
  }

  lemma HoldMoves(s: State, s': State, t: Tid, c: nat)
    requires |s.shape| == |s.cells| && c < |s.cells| && s.cells[c].mu == Some(t) && s.cells[c].attached
    requires s'.shape == s.shape && s'.cells == s.cells[c := s.cells[c].(children := {}, mu := None)]
    ensures Moves(s, s', t)
  {
  }

  lemma HoldReplaces(s: State, s': State, t: Tid, st': seq<Act>)
    requires Threads(s) && t in s.threads && s.threads[t] != []
    requires
      var n := |s.threads[t]| - 1;
      var a := s.threads[t][n];
      && a.Hold? && s'.shape == s.shape && a.c < |s.cells| && s.cells[a.c].err.Some?
      && s'.cells == s.cells[a.c := s.cells[a.c].(children := {}, mu := None)]
      && (st' == s.threads[t][..n] || st' == s.threads[t][..n] + [Remove(a.c)])
    ensures Replaces(s, s', t, st')
  {
    var st := s.threads[t];
    var n := |st| - 1;
    OwnLocks(s, t);
    forall j | 0 <= j < n && st[j].Hold? ensures st[j].c != st[n].c {
      assert ActOk(s, t, st, j);
    }
  }

  lemma ReleaseCells(s: State, s': State, t: Tid, n: nat)
    requires Inv(s) && t in s.threads && n == |s.threads[t]| - 1 && n >= 0
    requires var a := s.threads[t][n];
      && a.Hold? && a.todo == {} && a.c < |s.cells| && s'.shape == s.shape
      && s'.cells == s.cells[a.c := s.cells[a.c].(children := {}, mu := None)]
    ensures Moves(s, s', t) && Cells(s') && Tree(s')
  {
    var c := s.threads[t][n].c;
    assert ActOk(s, t, s.threads[t], n);
    assert CellOk(s, c);
    AboveBelow(s, c);
    assert CellOk(s', c);
    OneCell(s, s', t, c);
    forall k: nat, p: nat | Linked(s', k, p) ensures TreeOk(s', k, p) {
      assert Linked(s, k, p);
      AboveBelow(s, k);
    }
  }

  // removeChild.
  lemma GoRemove(s: State, t: Tid, x: bool)
    requires Inv(s) && WellFormed(s) && Enabled(s, Go(t, x)) && Top(s, t).Remove?
    ensures Inv(GoStep(s, t, x))
  {
    var s' := GoStep(s, t, x);
    var st := s.threads[t];
    var c := Top(s, t).c;
    assert ActOk(s, t, st, |st| - 1);
    if Above(s, c).None? || s.cells[Above(s, c).value].done.Shared? {
      PopKeeps(s, s', t);
    } else {
      AboveAttached(s, c);
      UnlinkCells(s, s', t, c);
      OwnLocks(s, t);
      ThreadsKept(s, s', t, s'.threads[t]);
    }
  }

  lemma UnlinkCells(s: State, s': State, t: Tid, c: nat)
    requires Inv(s) && c < |s.cells| && s.cells[c].Settled() && Above(s, c).Some?
    requires var p := Above(s, c).value;
      && s.cells[p].attached && s'.shape == s.shape
      && s'.cells == s.cells[p := s.cells[p].(children := s.cells[p].children - {c})]
    ensures Moves(s, s', t) && Cells(s') && Tree(s')
  {
    var p := Above(s, c).value;
    assert CellOk(s, p);
    AboveBelow(s, p);
    forall k: nat | k in s'.cells[p].children ensures Linked(s', k, p) {
      assert Linked(s, k, p);
    }
    assert CellOk(s', p);
    OneCell(s, s', t, p);
    forall k: nat, q: nat | Linked(s', k, q) ensures TreeOk(s', k, q) {
      assert Linked(s, k, q);
    }
  }

  lemma OwnLocks(s: State, t: Tid)
    requires Threads(s) && t in s.threads
    ensures forall j :: 0 <= j < |s.threads[t]| && s.threads[t][j].Hold? ==>
      s.threads[t][j].c < |s.cells| && s.cells[s.threads[t][j].c].mu == Some(t)
  {
    forall j | 0 <= j < |s.threads[t]| && s.threads[t][j].Hold?
      ensures s.threads[t][j].c < |s.cells| && s.cells[s.threads[t][j].c].mu == Some(t)
    {
      assert ActOk(s, t, s.threads[t], j);
    }
  }

  // The timer is stopped, or once.Do has run.
  lemma GoPost(s: State, t: Tid, x: bool)
    requires Inv(s) && WellFormed(s) && Enabled(s, Go(t, x)) && Top(s, t).Post?
    ensures Inv(GoStep(s, t, x))
  {
    var s' := GoStep(s, t, x);
    var c := Top(s, t).c;
    assert ActOk(s, t, s.threads[t], |s.threads[t]| - 1);
    QuietCell(s, s', t, c);
    OwnLocks(s, t);
    ThreadsKept(s, s', t, s'.threads[t]);
  }

  // A step that changes only the timer, once or an unset done channel of c.
  lemma QuietCell(s: State, s': State, t: Tid, c: nat)
    requires Inv(s) && c < |s.cells| == |s'.cells| && s'.shape == s.shape
    requires s'.cells == s.cells[c := s'.cells[c]]
    requires var x, y := s.cells[c], s'.cells[c];
      && x.attached && y.(timer := x.timer, once := x.once, done := x.done) == x
      && (y.done == x.done || (x.done.Unset? && y.done.Open?))
    ensures Moves(s, s', t) && Cells(s') && Tree(s')
  {
    assert CellOk(s, c);
    AboveBelow(s, c);
    forall k: nat | k in s'.cells[c].children ensures Linked(s', k, c) {
      assert Linked(s, k, c);
    }
    assert CellOk(s', c);
    OneCell(s, s', t, c);
    SameTree(s, s');
  }

  lemma GoArm(s: State, t: Tid, x: bool)
    requires Inv(s) && WellFormed(s) && Enabled(s, Go(t, x)) && Top(s, t).Arm?
    ensures Inv(GoStep(s, t, x))
  {
    var s' := GoStep(s, t, x);
    var c := Top(s, t).c;
    assert ActOk(s, t, s.threads[t], |s.threads[t]| - 1);
    QuietCell(s, s', t, c);
    ThreadsKept(s, s', t, s'.threads[t]);
  }

  lemma DescendKeeps(s: State, t: Tid, child: nat)
    requires Inv(s) && WellFormed(s) && Enabled(s, Descend(t, child))
    ensures Inv(Step(s, Descend(t, child)))
  {
    var s' := Step(s, Descend(t, child));
    var st, st' := s.threads[t], s'.threads[t];
    var n := |st| - 1;
    assert ActOk(s, t, st, n);
    assert Linked(s, child, st[n].c);
    forall c | 0 <= c < |s'.cells| ensures CellOk(s', c) { SameCell(s, s', t, c); }
    SameTree(s, s');
    OwnLocks(s, t);
    forall j | 0 <= j < n && st[j].Hold? ensures st[j].c != st[n].c {
      assert ActOk(s, t, st, j);
    }
    assert st'[n].Works(st[n].c);
    DescendHold(s, s', t, child, n);
    ThreadsKept(s, s', t, st');
  }

  lemma DescendHold(s: State, s': State, t: Tid, child: nat, n: nat)
    requires Threads(s) && t in s.threads && n == |s.threads[t]| - 1 && n >= 0 && s.threads[t][n].Hold?
    requires child in s.threads[t][n].todo && s'.shape == s.shape && s'.cells == s.cells
    requires var a := s.threads[t][n];
      s'.threads == s.threads[t := s.threads[t][..n] +
        [a.(todo := a.todo - {child}), Post(child), Enter(child, a.err, a.cause, false, false)]]
    ensures forall m :: n <= m < |s'.threads[t]| ==> ActOk(s', t, s'.threads[t], m)
  {
    var st, st' := s.threads[t], s'.threads[t];
    assert ActOk(s, t, st, n);
    hide Threads;
    DescendTop(s, s', t, child, n);
    DescendAbove(s, s', t, child, n);
    hide ActOk;
    forall m | n <= m < |st'|
      ensures ActOk(s', t, st', m)
    {
      assert m == n || m == n + 1 || m == n + 2;
    }
  }

  lemma DescendTop(s: State, s': State, t: Tid, child: nat, n: nat)
    requires t in s.threads && |s.shape| == |s.cells| && n == |s.threads[t]| - 1 && n >= 0 && s.threads[t][n].Hold?
    requires ActOk(s, t, s.threads[t], n) && s'.shape == s.shape && s'.cells == s.cells
    requires var a := s.threads[t][n];
      s'.threads == s.threads[t := s.threads[t][..n] +
        [a.(todo := a.todo - {child}), Post(child), Enter(child, a.err, a.cause, false, false)]]
    ensures ActOk(s', t, s'.threads[t], n)
  {
    var st, st', c := s.threads[t], s'.threads[t], s.threads[t][n].c;
    assert forall k: nat :: Linked(s', k, c) <==> Linked(s, k, c);
    forall j | 0 <= j < |st'| && j != n && st'[j].Hold? ensures st'[j].c != c {
      assert j < n && st'[j] == st[j];
    }
  }

  lemma DescendAbove(s: State, s': State, t: Tid, child: nat, n: nat)
    requires t in s.threads && |s.shape| == |s.cells| && n == |s.threads[t]| - 1 && n >= 0 && s.threads[t][n].Hold?
    requires child in s.threads[t][n].todo && s'.shape == s.shape && s'.cells == s.cells
    requires ActOk(s, t, s.threads[t], n)
    requires var a := s.threads[t][n];
      s'.threads == s.threads[t := s.threads[t][..n] +
        [a.(todo := a.todo - {child}), Post(child), Enter(child, a.err, a.cause, false, false)]]
    ensures |s'.threads[t]| == n + 3
    ensures ActOk(s', t, s'.threads[t], n + 1) && ActOk(s', t, s'.threads[t], n + 2)
  {
    assert Linked(s, child, s.threads[t][n].c);
  }

  // ---- propagateCancel ----

  // Nothing is linked to a context that is not attached yet.
  lemma NobodyBelow(s: State, c: nat)
    requires Cells(s) && c < |s.cells| && !s.cells[c].attached
    ensures forall k: nat :: k < |s.cells| ==> Above(s, k) != Some(c)
  {
    forall k: nat | k < |s.cells| ensures Above(s, k) != Some(c) {
      if Above(s, k).Some? { AboveAttached(s, k); }
    }
  }

  // c becomes attached: with nothing above it, or already cancelled like the context
  // above it.
  lemma AttachCells(s: State, s': State, t: Tid, c: nat)
    requires Inv(s) && c < |s.cells| == |s'.cells| && s'.shape == s.shape
    requires s'.cells == s.cells[c := s'.cells[c]]
    requires s.shape[c].kind.Cancelable() && !s.cells[c].attached && s.cells[c].builder == t
    requires var y, up := s'.cells[c], Above(s, c);
      && y.attached && y.builder == t && y.mu.None? && y.children == {}
      && (y.err.Some? <==> y.cause.Some?) && (y.err.Some? <==> y.done.Closed? || y.done.Shared?)
      && y.closes == (if y.done.Closed? then 1 else 0)
      && (y.propagated ==> y.err.Some?)
      && (up.None? ==> !y.propagated)
      && (up.Some? ==> s.cells[up.value].mu.None? && y.err.Some?
                       && y.err == s.cells[up.value].err && y.cause == s.cells[up.value].cause)
    ensures Moves(s, s', t) && Cells(s') && Tree(s')
  {
    assert CellOk(s, c);
    NobodyBelow(s, c);
    AboveBelow(s, c);
    assert CellOk(s', c);
    OneCell(s, s', t, c);
    forall k: nat, p: nat | Linked(s', k, p) ensures TreeOk(s', k, p) {
      assert Above(s, k) == Some(p);
      if k != c { assert Linked(s, k, p); }
    }
  }

  // c becomes attached and is registered with an uncancelled parent.
  lemma RegisterCells(s: State, s': State, t: Tid, c: nat, p: nat)
    requires Inv(s) && c < |s.cells| && s'.shape == s.shape && Above(s, c) == Some(p)
    requires !s.cells[c].attached && s.cells[c].builder == t && s.cells[p].err.None? && s.cells[p].mu.None?
    requires p != c && s'.cells == s.cells[p := s.cells[p].(children := s.cells[p].children + {c})]
                                         [c := s.cells[c].(attached := true)]
    ensures Moves(s, s', t) && Cells(s') && Tree(s')
  {
    assert CellOk(s, c) && CellOk(s, p);
    AboveAttached(s, c);
    AboveBelow(s, p);
    assert Moves(s, s', t);
    forall d | 0 <= d < |s'.cells| ensures CellOk(s', d) {
      if d != c && d != p { SameCell(s, s', t, d); }
      forall k: nat | d == p && k in s'.cells[p].children ensures Linked(s', k, p) {
        if k != c { assert Linked(s, k, p); }
      }
    }
    RegisterTree(s, s', c, p);
  }

  lemma RegisterTree(s: State, s': State, c: nat, p: nat)
    requires Inv(s) && c < |s.cells| && s'.shape == s.shape && Above(s, c) == Some(p) && p != c
    requires !s.cells[c].attached
    requires s'.cells == s.cells[p := s.cells[p].(children := s.cells[p].children + {c})]
                               [c := s.cells[c].(attached := true)]
    requires s.cells[p].err.None?
    ensures Tree(s')
  {
    NobodyBelow(s, c);
    forall k: nat, q: nat | Linked(s', k, q) ensures TreeOk(s', k, q) {
      assert Above(s, k) == Some(q);
      if k != c { assert Linked(s, k, q); }
    }
  }

  lemma GoAttaching(s: State, t: Tid, x: bool)
    requires Inv(s) && WellFormed(s) && Enabled(s, Go(t, x)) && Top(s, t).Attaching()
    ensures Inv(GoStep(s, t, x))
  {
    var s' := GoStep(s, t, x);
    var st := s.threads[t];
    var a := Top(s, t);
    var c := a.c;
    assert ActOk(s, t, st, |st| - 1);
    assert st == [a];
    assert CellOk(s, c);
    if Above(s, c).Some? { AboveAttached(s, c); assert CellOk(s, Above(s, c).value); }
    match a
    case Load(_) => GoLoad(s, s', t, x);
    case Check(_) => StackOnly(s, s', t);
    case ReadErr(_) => StackOnly(s, s', t);
    case ReadCause(_, _) => GoReadCause(s, s', t, x);
    case Register(_) => GoRegister(s, s', t, x);
  }

  // The stack of t, a single attaching frame, is replaced by another single frame.
  lemma StackOnly(s: State, s': State, t: Tid)
    requires Inv(s) && t in s.threads && |s.threads[t]| == 1 && s.threads[t][0].Attaching()
    requires t in s'.threads && |s'.threads[t]| == 1 && s' == Put(s, t, s'.threads[t])
    requires ActOk(s', t, s'.threads[t], 0)
    ensures Inv(s')
  {
    forall c | 0 <= c < |s'.cells| ensures CellOk(s', c) { SameCell(s, s', t, c); }
    SameTree(s, s');
    ThreadsKept(s, s', t, s'.threads[t]);
  }

  lemma GoLoad(s: State, s': State, t: Tid, x: bool)
    requires Inv(s) && WellFormed(s) && Enabled(s, Go(t, x)) && Top(s, t).Load? && s' == GoStep(s, t, x)
    ensures Inv(s')
  {
    hide Inv, GoStep;
    FrameOk(s, t, |Stack(s, t)| - 1);
    if Above(s, Top(s, t).c).None? {
      GoLoadRoot(s, s', t, x);
    } else {
      GoLoadChannel(s, s', t, x);
    }
  }

  lemma GoLoadRoot(s: State, s': State, t: Tid, x: bool)
    requires Inv(s) && WellFormed(s) && Enabled(s, Go(t, x)) && Top(s, t).Load? && s' == GoStep(s, t, x)
    requires Above(s, Top(s, t).c).None?
    ensures Inv(s')
  {
    var c := Top(s, t).c;
    assert ActOk(s, t, s.threads[t], |s.threads[t]| - 1);
    assert CellOk(s, c);
    AttachCells(s, s', t, c);
    ThreadsKept(s, s', t, s'.threads[t]);
  }

  lemma GoLoadChannel(s: State, s': State, t: Tid, x: bool)
    requires Inv(s) && WellFormed(s) && Enabled(s, Go(t, x)) && Top(s, t).Load? && s' == GoStep(s, t, x)
    requires Above(s, Top(s, t).c).Some?
    ensures Inv(s')
  {
    var c := Top(s, t).c;
    assert ActOk(s, t, s.threads[t], |s.threads[t]| - 1);
    AboveAttached(s, c);
    QuietCell(s, s', t, Above(s, c).value);
    ThreadsKept(s, s', t, s'.threads[t]);
  }

  lemma GoReadCause(s: State, s': State, t: Tid, x: bool)
    requires Inv(s) && WellFormed(s) && Enabled(s, Go(t, x)) && Top(s, t).ReadCause? && s' == GoStep(s, t, x)
    ensures Inv(s')
  {
    var c := Top(s, t).c;
    assert ActOk(s, t, s.threads[t], |s.threads[t]| - 1);
    assert CellOk(s, c) && CellOk(s, Above(s, c).value);
    AttachCells(s, s', t, c);
    ThreadsKept(s, s', t, s'.threads[t]);
  }

  lemma GoRegister(s: State, s': State, t: Tid, x: bool)
    requires Inv(s) && WellFormed(s) && Enabled(s, Go(t, x)) && Top(s, t).Register? && s' == GoStep(s, t, x)
    ensures Inv(s')
  {
    hide Inv, GoStep;
    FrameOk(s, t, |Stack(s, t)| - 1);
    if s.cells[Above(s, Top(s, t).c).value].err.Some? {
      GoRegisterLate(s, s', t, x);
    } else {
      GoRegisterChild(s, s', t, x);
    }
  }

  lemma GoRegisterLate(s: State, s': State, t: Tid, x: bool)
    requires Inv(s) && WellFormed(s) && Enabled(s, Go(t, x)) && Top(s, t).Register? && s' == GoStep(s, t, x)
    requires Above(s, Top(s, t).c).Some? && s.cells[Above(s, Top(s, t).c).value].err.Some?
    ensures Inv(s')
  {
    var c := Top(s, t).c;
    assert ActOk(s, t, s.threads[t], |s.threads[t]| - 1);
    assert CellOk(s, c) && CellOk(s, Above(s, c).value);
    AboveAttached(s, c);
    AttachCells(s, s', t, c);
    ThreadsKept(s, s', t, s'.threads[t]);
  }

  lemma GoRegisterChild(s: State, s': State, t: Tid, x: bool)
    requires Inv(s) && WellFormed(s) && Enabled(s, Go(t, x)) && Top(s, t).Register? && s' == GoStep(s, t, x)
    requires Above(s, Top(s, t).c).Some? && s.cells[Above(s, Top(s, t).c).value].err.None?
    ensures Inv(s')
  {
    var c := Top(s, t).c;
    assert ActOk(s, t, s.threads[t], |s.threads[t]| - 1);
    AboveAttached(s, c);
    RegisterCells(s, s', t, c, Above(s, c).value);
    ThreadsKept(s, s', t, s'.threads[t]);
  }

  // ---- Calls and new contexts ----

  // A call of cancel on an attached context starts on an idle thread.
  lemma StartKeeps(s: State, s': State, t: Tid, c: nat, err: Error, cause: Error)
    requires Inv(s) && Stack(s, t) == [] && c < |s.cells| == |s'.cells|
    requires s.cells[c].attached && s.shape[c].kind.Cancelable() && s'.shape == s.shape
    requires s'.cells == s.cells[c := s'.cells[c]] && s'.cells[c] == s.cells[c].(once := s'.cells[c].once)
    requires s'.threads == s.threads[t := CancelStack(s.shape[c].kind, c, err, cause)]
    ensures Inv(s')
  {
    QuietCell(s, s', t, c);
    var st := CancelStack(s.shape[c].kind, c, err, cause);
    forall m | 0 <= m < |st| ensures ActOk(s', t, st, m) {
    }
    ThreadsStart(s, s', t, st);
  }

  // A new context at the end of the table.
  lemma GrowKeeps(s: State, s': State, h: Shape, x: Cell, b: Tid)
    requires Inv(s) && s'.shape == s.shape + [h] && s'.cells == s.cells + [x] && s'.threads == s.threads
    requires !h.kind.Background? ==>
      h.parent < |s.cells| && s.cells[h.parent].attached && !s.shape[h.parent].kind.After?
    requires x == FRESH.(attached := !h.kind.Cancelable(), builder := b)
    ensures Inv(s')
    ensures forall c :: 0 <= c < |s.cells| ==> Above(s', c) == Above(s, c)
  {
    forall c | 0 <= c < |s.cells| ensures Above(s', c) == Above(s, c) {
      assert CellOk(s, c);
      if s.shape[c].kind.Cancelable() { EnclosingAppend(s.shape, h, s.shape[c].parent); }
    }
    forall c | 0 <= c < |s'.cells| ensures CellOk(s', c) {
      if c < |s.cells| {
        assert CellOk(s, c);
        forall k: nat | k in s'.cells[c].children ensures Linked(s', k, c) { assert Linked(s, k, c); }
      }
    }
    NewUnlinked(s', |s.cells|);
    assert forall k: nat, p: nat :: Linked(s', k, p) && k < |s.cells| ==> Linked(s, k, p);
    forall k: nat, p: nat | Linked(s', k, p) ensures TreeOk(s', k, p) {
      assert k < |s.cells|;
      assert Linked(s, k, p);
    }
    forall t, i | t in s'.threads && 0 <= i < |s'.threads[t]| ensures ActOk(s', t, s'.threads[t], i) {
      GrowAct(s, s', t, i);
    }
  }

  lemma NewUnlinked(s: State, c: nat)
    requires c < |s.shape| == |s.cells| && (s.cells[c].attached ==> !s.shape[c].kind.Cancelable())
    ensures forall p: nat :: !Linked(s, c, p)
  {
  }

  lemma GrowAct(s: State, s': State, t: Tid, i: nat)
    requires Inv(s) && t in s.threads && i < |s.threads[t]|
    requires |s'.shape| == |s'.cells| == |s.cells| + 1 && s'.shape[..|s.shape|] == s.shape && s'.cells[..|s.cells|] == s.cells
    requires forall c :: 0 <= c < |s.cells| ==> Above(s', c) == Above(s, c)
    requires forall p: nat :: !Linked(s', |s.cells|, p)
    ensures ActOk(s', t, s.threads[t], i)
  {
    var st := s.threads[t];
    assert ActOk(s, t, st, i);
    var a := st[i];
    assert s'.shape[a.c] == s.shape[a.c] && s'.cells[a.c] == s.cells[a.c];
    if a.Hold? {
      forall k: nat | Linked(s', k, a.c)
        ensures s'.cells[k].Settled() || k in a.todo || (i + 2 < |st| && st[i + 2].Works(k))
      {
        assert k < |s.cells| && s'.cells[k] == s.cells[k];
        assert Linked(s, k, a.c);
      }
      forall k: nat | k in a.todo ensures Linked(s', k, a.c) {
        assert Linked(s, k, a.c);
        assert s'.cells[k] == s.cells[k];
      }
    }
  }

  lemma DeriveKeeps(s: State, t: Tid, kind: Kind, parent: nat, why: Option<Error>)
    requires Inv(s) && WellFormed(s) && Enabled(s, Derive(t, kind, parent, why))
    ensures Inv(Step(s, Derive(t, kind, parent, why)))
  {
    var s' := Step(s, Derive(t, kind, parent, why));
    var h, x := Shape(kind, parent, why), FRESH.(builder := t);
    var m := s.(shape := s.shape + [h], cells := s.cells + [x]);
    GrowKeeps(s, m, h, x, t);
    forall c | 0 <= c < |s'.cells| ensures CellOk(s', c) { SameCell(m, s', t, c); }
    SameTree(m, s');
    ThreadsStart(m, s', t, [Load(|s.cells|)]);
  }

  lemma TouchKeeps(s: State, c: nat)
    requires Inv(s) && WellFormed(s) && Enabled(s, Touch(c))
    ensures Inv(Step(s, Touch(c)))
  {
    var s' := Step(s, Touch(c));
    assert s'.cells == s.cells[c := s'.cells[c]];
    QuietCell(s, s', 0, c);
    forall u, i | u in s'.threads && 0 <= i < |s'.threads[u]| ensures ActOk(s', u, s'.threads[u], i) {
      QuietCell(s, s', u + 1, c);
      OtherThreads(s, s', u + 1, u, i);
    }
  }

  lemma PlainKeeps(s: State, kind: Kind, parent: nat)
    requires Inv(s) && WellFormed(s) && Enabled(s, NewPlain(kind, parent))
    ensures Inv(Step(s, NewPlain(kind, parent)))
  {
    GrowKeeps(s, Step(s, NewPlain(kind, parent)), Shape(kind, parent, None), FRESH.(attached := true), 0);
  }

  lemma GoKeeps(s: State, t: Tid, x: bool)
    requires Inv(s) && WellFormed(s) && Enabled(s, Go(t, x))
    ensures Inv(GoStep(s, t, x))
  {
    var a := Top(s, t);
    hide Inv, GoStep, Enabled, WellFormed;
    if a.Attaching() { GoAttaching(s, t, x); }
    else if a.Arm? { GoArm(s, t, x); }
    else if a.Enter? { GoEnter(s, t, x); }
    else if a.Hold? { GoHold(s, t, x); }
    else if a.Remove? { GoRemove(s, t, x); }
    else { GoPost(s, t, x); }
  }

  /** Every step of every goroutine keeps the invariant. */
  lemma StepKeeps(s: State, e: Event)
    requires Inv(s) && WellFormed(s) && Enabled(s, e)
    ensures Inv(Step(s, e)) && WellFormed(Step(s, e))
  {
    var s' := Step(s, e);
    match e {
      case NewPlain(kind, parent) => PlainKeeps(s, kind, parent);
      case Touch(c) => TouchKeeps(s, c);
      case Derive(t, kind, parent, why) => DeriveKeeps(s, t, kind, parent, why);
      case CancelCall(t, c, why) => StartKeeps(s, s', t, c, Canceled, Cause(Canceled, why));
      case Fire(t, c) => StartKeeps(s, s', t, c, DeadlineExceeded, Cause(DeadlineExceeded, s.shape[c].late));
      case StopCall(t, c) => StartKeeps(s, s', t, c, Canceled, Canceled);
      case Go(t, x) => GoKeeps(s, t, x);
      case Descend(t, child) => DescendKeeps(s, t, child);
    }
    InvWellFormed(s');
  }

  // ---- Runs ----

  ghost predicate Run(s: State, es: seq<Event>, u: State)
    decreases |es|
  {
    if es == [] then u == s
    else WellFormed(s) && Enabled(s, es[0]) && Run(Step(s, es[0]), es[1..], u)
  }

  ghost predicate Reachable(s: State) { exists es :: Run(INIT, es, s) }

  lemma InitInv()
    ensures Inv(INIT) && WellFormed(INIT)
  {
    assert CellOk(INIT, 0);
  }

  lemma {:induction false} RunKeeps(s: State, es: seq<Event>, u: State)
    requires Inv(s) && WellFormed(s) && Run(s, es, u)
    ensures Inv(u) && WellFormed(u)
    decreases |es|
  {
    if es != [] {
      StepKeeps(s, es[0]);
      RunKeeps(Step(s, es[0]), es[1..], u);
    }
  }

  lemma {:induction false} RunsJoin(s: State, es: seq<Event>, t: State, fs: seq<Event>, u: State)
    requires Run(s, es, t) && Run(t, fs, u)
    ensures Run(s, es + fs, u)
    decreases |es|
  {
    hide Step, Enabled, WellFormed;
    if es == [] {
      assert es + fs == fs;
    } else {
      assert (es + fs)[0] == es[0] && (es + fs)[1..] == es[1..] + fs;
      RunsJoin(Step(s, es[0]), es[1..], t, fs, u);
    }
  }

  lemma ReachableInv(s: State)
    requires Reachable(s)
    ensures Inv(s) && WellFormed(s)
  {
    InitInv();
    var es :| Run(INIT, es, s);
    RunKeeps(INIT, es, s);
  }

  lemma ReachesEnd(s: State, e: Event, es: seq<Event>, u: State)
    requires Reachable(s) && WellFormed(s) && Enabled(s, e) && Run(Step(s, e), es, u)
    ensures Reachable(u)
  {
    var before :| Run(INIT, before, s);
    hide Step, Enabled;
    assert ([e] + es)[1..] == es;
    assert Run(s, [e] + es, u);
    RunsJoin(INIT, before, s, [e] + es, u);
  }

  lemma OtherStack(s: State, e: Event, t: Tid)
    requires WellFormed(s) && Enabled(s, e)
    requires e.NewPlain? || e.Touch? || e.t != t
    ensures Stack(Step(s, e), t) == Stack(s, t)
  {
  }

  // ---- Parts of the invariant ----

  lemma FrameOk(s: State, t: Tid, i: nat)
    requires Inv(s) && i < |Stack(s, t)|
    ensures ActOk(s, t, Stack(s, t), i)
  {
  }

  lemma CellAt(s: State, c: nat)
    requires Inv(s) && c < |s.cells|
    ensures CellOk(s, c)
  {
  }

  lemma AboveSame(s: State, e: Event, c: nat)
    requires Inv(s) && WellFormed(s) && Enabled(s, e) && c < |s.shape|
    ensures c < |Step(s, e).shape| && Step(s, e).shape[c] == s.shape[c] && Above(Step(s, e), c) == Above(s, c)
  {
    hide Inv;
    var s' := Step(s, e);
    if e.NewPlain? || e.Derive? {
      var x := s'.shape[|s.shape|];
      assert s'.shape == s.shape + [x];
      if s.shape[c].kind.Cancelable() {
        CellAt(s, c);
        EnclosingAppend(s.shape, x, s.shape[c].parent);
      }
    }
  }

  lemma DescendStays(s: State, t: Tid, child: nat, i: nat)
    requires WellFormed(s) && Enabled(s, Descend(t, child)) && i < |Stack(s, t)| - 1
    ensures
      var st := Stack(Step(s, Descend(t, child)), t);
      i < |st| && st[i] == Stack(s, t)[i]
  {
    assert Pop(s, t)[i] == Stack(s, t)[i];
  }

  // The stack of a thread that does not move.
  lemma StandsStill(s: State, e: Event, u: Tid)
    requires WellFormed(s) && Enabled(s, e) && Stack(s, u) != []
    requires (e.Go? || e.Descend?) ==> e.t != u
    ensures Stack(Step(s, e), u) == Stack(s, u)
  {
  }

  lemma StepIsGo(s: State, e: Event)
    requires WellFormed(s) && Enabled(s, e) && e.Go?
    ensures Step(s, e) == GoStep(s, e.t, e.expired) && Enabled(s, Go(e.t, e.expired)) && Stack(s, e.t) != []
  {
  }

  lemma TopHolds(s: State, t: Tid, child: nat)
    requires WellFormed(s) && Enabled(s, Descend(t, child))
    ensures Stack(s, t) != [] && Top(s, t).Hold?
  {
  }

  lemma SameLengths(s: State, e: Event)
    requires WellFormed(s) && Enabled(s, e)
    ensures |Step(s, e).cells| == |Step(s, e).shape| >= |s.cells|
  {
  }

  // ---- What callers see ----

  // n is p or derived from p, with no WithoutCancel in between.
  predicate Descends(shape: seq<Shape>, n: nat, p: nat)
    decreases n
  {
    n == p || (n < |shape| && !shape[n].kind.Background? && !shape[n].kind.WithoutCancel?
               && shape[n].parent < n && Descends(shape, shape[n].parent, p))
  }

  // The cancelCtx that answers Done, Err and Cause for n.
  function Answers(shape: seq<Shape>, n: nat): Option<nat> {
    if n < |shape| && shape[n].kind.After? then Some(n) else Enclosing(shape, n)
  }

  // n reports an error and a closed done channel, and no cancel is still inside it.
  predicate Reports(s: State, n: nat) {
    var q := Answers(s.shape, n);
    q.Some? && q.value < |s.cells| && s.cells[q.value].Settled()
    && (s.cells[q.value].done.Closed? || s.cells[q.value].done.Shared?)
  }

  /** Once a cancellation of p is complete, every context derived from p that is not
      behind WithoutCancel reports it. */
  lemma {:induction false} CancelReachesAll(s: State, n: nat, p: nat)
    requires Inv(s) && n < |s.cells| && p < |s.cells| && s.cells[n].attached
    requires s.shape[p].kind.Cancelable() && s.cells[p].Settled() && Descends(s.shape, n, p)
    ensures Reports(s, n)
    decreases n
  {
    assert CellOk(s, n);
    if n != p {
      var m := s.shape[n].parent;
      CancelReachesAll(s, m, p);
      var q := Answers(s.shape, m).value;
      if s.shape[n].kind.Cancelable() {
        assert Linked(s, n, q);
        assert TreeOk(s, n, q);
      }
    }
  }

  // err, cause, a settled state, a created channel and the outcome of once are final.
  predicate Keeps(x: Cell, y: Cell) {
    && (x.err.Some? ==> y.err == x.err && y.cause == x.cause && y.propagated == x.propagated)
    && (x.Settled() ==> y.Settled())
    && (x.done.Open? ==> y.done.Open? || y.done.Closed?)
    && (x.done.Closed? || x.done.Shared? ==> y.done == x.done)
    && (!x.once.Idle? ==> y.once == x.once)
    && (x.attached ==> y.attached)
  }

  ghost predicate Later(s: State, s': State) {
    && s.shape <= s'.shape && |s.cells| <= |s'.cells|
    && (forall c :: 0 <= c < |s.cells| ==> Keeps(s.cells[c], s'.cells[c]))
  }

  lemma StepLater(s: State, e: Event)
    requires Inv(s) && WellFormed(s) && Enabled(s, e)
    ensures Later(s, Step(s, e))
  {
    if e.Go? {
      GoLater(s, e.t, e.expired);
    }
  }

  lemma GoLater(s: State, t: Tid, x: bool)
    requires Inv(s) && WellFormed(s) && Enabled(s, Go(t, x))
    ensures Later(s, GoStep(s, t, x))
  {
    if Top(s, t).Attaching() { AttachingLater(s, t, x); } else { CancellingLater(s, t, x); }
  }

  lemma AttachingLater(s: State, t: Tid, x: bool)
    requires Inv(s) && WellFormed(s) && Enabled(s, Go(t, x)) && Top(s, t).Attaching()
    ensures Later(s, GoStep(s, t, x))
  {
    hide Inv, Later;
    var a := Top(s, t);
    FrameOk(s, t, |Stack(s, t)| - 1);
    CellAt(s, a.c);
    if a.Load? {
      LoadLater(s, t, x);
    } else if a.Register? {
      RegisterLater(s, t, x);
    } else {
      DerivedLater(s, t, x);
    }
  }

  lemma LoadLater(s: State, t: Tid, x: bool)
    requires WellFormed(s) && Enabled(s, Go(t, x)) && Top(s, t).Load?
    ensures Later(s, GoStep(s, t, x))
  {
  }

  lemma RegisterLater(s: State, t: Tid, x: bool)
    requires WellFormed(s) && Enabled(s, Go(t, x)) && Top(s, t).Register?
    requires ActOk(s, t, Stack(s, t), |Stack(s, t)| - 1) && CellOk(s, Top(s, t).c)
    ensures Later(s, GoStep(s, t, x))
  {
  }

  lemma DerivedLater(s: State, t: Tid, x: bool)
    requires WellFormed(s) && Enabled(s, Go(t, x))
    requires Top(s, t).Check? || Top(s, t).ReadErr? || Top(s, t).ReadCause?
    requires ActOk(s, t, Stack(s, t), |Stack(s, t)| - 1) && CellOk(s, Top(s, t).c)
    ensures Later(s, GoStep(s, t, x))
  {
  }

  lemma CancellingLater(s: State, t: Tid, x: bool)
    requires Inv(s) && WellFormed(s) && Enabled(s, Go(t, x)) && !Top(s, t).Attaching()
    ensures Later(s, GoStep(s, t, x))
  {
    hide Inv, Later;
    var a := Top(s, t);
    FrameOk(s, t, |Stack(s, t)| - 1);
    CellAt(s, a.c);
    if a.Enter? || a.Hold? {
      WorkLater(s, t, x);
    } else {
      AfterworkLater(s, t, x);
    }
  }

  lemma WorkLater(s: State, t: Tid, x: bool)
    requires WellFormed(s) && Enabled(s, Go(t, x)) && (Top(s, t).Enter? || Top(s, t).Hold?)
    requires ActOk(s, t, Stack(s, t), |Stack(s, t)| - 1) && CellOk(s, Top(s, t).c)
    ensures Later(s, GoStep(s, t, x))
  {
  }

  lemma AfterworkLater(s: State, t: Tid, x: bool)
    requires WellFormed(s) && Enabled(s, Go(t, x)) && (Top(s, t).Arm? || Top(s, t).Remove? || Top(s, t).Post?)
    ensures Later(s, GoStep(s, t, x))
  {
  }

  /** Nothing is rewritten: in every continuation, a context keeps its first err and
      cause, its done channel is never replaced or reopened, and an AfterFunc that
      started or was stopped stays so. */
  lemma {:induction false} NeverRewritten(s: State, es: seq<Event>, u: State)
    requires Inv(s) && WellFormed(s) && Run(s, es, u)
    ensures Later(s, u)
    decreases |es|
  {
    if es != [] {
      hide Step, Enabled, Inv, WellFormed;
      StepLater(s, es[0]);
      StepKeeps(s, es[0]);
      NeverRewritten(Step(s, es[0]), es[1..], u);
    }
  }

  // Frame i of t is a cancel of c, still under way.
  predicate Working(s: State, t: Tid, i: nat, c: nat) {
    i < |Stack(s, t)| && Stack(s, t)[i].Works(c)
  }

  lemma StepWorking(s: State, e: Event, t: Tid, i: nat, c: nat)
    requires Inv(s) && WellFormed(s) && Enabled(s, e) && c < |s.cells|
    requires Working(s, t, i, c)
    ensures Working(Step(s, e), t, i, c) || Step(s, e).cells[c].Settled()
  {
    hide Inv;
    FrameOk(s, t, i);
    if e.Go? && e.t == t {
      FrameOk(s, t, |Stack(s, t)| - 1);
      GoWorking(s, t, e.expired, i, c);
    } else {
      hide ActOk;
      OthersKeepWorking(s, e, t, i, c);
    }
  }

  lemma OthersKeepWorking(s: State, e: Event, t: Tid, i: nat, c: nat)
    requires WellFormed(s) && Enabled(s, e) && Working(s, t, i, c) && !(e.Go? && e.t == t)
    ensures Working(Step(s, e), t, i, c)
  {
    if e.Descend? && e.t == t && i < |Stack(s, t)| - 1 {
      assert Pop(s, t)[i] == Stack(s, t)[i];
    }
  }

  lemma GoWorking(s: State, t: Tid, x: bool, i: nat, c: nat)
    requires WellFormed(s) && Enabled(s, Go(t, x)) && c < |s.cells| && Working(s, t, i, c)
    requires ActOk(s, t, Stack(s, t), i) && ActOk(s, t, Stack(s, t), |Stack(s, t)| - 1)
    ensures Working(GoStep(s, t, x), t, i, c) || GoStep(s, t, x).cells[c].Settled()
  {
    if i < |Stack(s, t)| - 1 {
      FrameStays(s, t, x, i);
    } else if Top(s, t).Enter? {
      EnterWorks(s, t, x);
    } else {
      HoldWorks(s, t, x);
    }
  }

  // A step of t leaves the frames below its top alone.
  lemma FrameStays(s: State, t: Tid, x: bool, i: nat)
    requires WellFormed(s) && Enabled(s, Go(t, x)) && i < |Stack(s, t)| - 1
    requires ActOk(s, t, Stack(s, t), |Stack(s, t)| - 1)
    ensures i < |Stack(GoStep(s, t, x), t)| && Stack(GoStep(s, t, x), t)[i] == Stack(s, t)[i]
  {
    assert Pop(s, t)[i] == Stack(s, t)[i];
    assert !Top(s, t).Attaching() && !Top(s, t).Arm?;
    hide ActOk, Enabled;
  }

  lemma EnterWorks(s: State, t: Tid, x: bool)
    requires WellFormed(s) && Enabled(s, Go(t, x)) && Top(s, t).Enter?
    ensures
      var s', c := GoStep(s, t, x), Top(s, t).c;
      Working(s', t, |Stack(s, t)| - 1, c) || s'.cells[c].Settled()
  {
  }

  lemma HoldWorks(s: State, t: Tid, x: bool)
    requires WellFormed(s) && Enabled(s, Go(t, x)) && Top(s, t).Hold?
    requires ActOk(s, t, Stack(s, t), |Stack(s, t)| - 1)
    ensures GoStep(s, t, x).cells[Top(s, t).c].Settled()
  {
  }

  /** When a cancel of c returns, c is settled, whoever cancelled it first. */
  lemma {:induction false} ReturnSettles(s: State, es: seq<Event>, u: State, t: Tid, i: nat, c: nat)
    requires Inv(s) && WellFormed(s) && Run(s, es, u) && c < |s.cells|
    requires Working(s, t, i, c)
    ensures Later(s, u) && (Working(u, t, i, c) || u.cells[c].Settled())
    decreases |es|
  {
    NeverRewritten(s, es, u);
    if es != [] {
      hide Inv, WellFormed, Enabled, Step;
      var m := Step(s, es[0]);
      StepKeeps(s, es[0]);
      StepLater(s, es[0]);
      StepWorking(s, es[0], t, i, c);
      if m.cells[c].Settled() {
        NeverRewritten(m, es[1..], u);
      } else {
        ReturnSettles(m, es[1..], u, t, i, c);
      }
    }
  }

  /** The central promise.  A thread calls cancel on p; when that call has returned,
      every context derived from p and not behind WithoutCancel reports an error, in
      every interleaving with other derivations, cancellations and timers. */
  lemma CancelReturnsAfterAll(s: State, es: seq<Event>, u: State, t: Tid, p: nat, why: Option<Error>, n: nat)
    requires Reachable(s) && WellFormed(s) && Enabled(s, CancelCall(t, p, why))
    requires Run(Step(s, CancelCall(t, p, why)), es, u) && Stack(u, t) == []
    requires n < |u.cells| == |u.shape| && u.cells[n].attached && Descends(u.shape, n, p)
    ensures Reports(u, n)
  {
    ReachableInv(s);
    StepKeeps(s, CancelCall(t, p, why));
    var m := Step(s, CancelCall(t, p, why));
    var i := |Stack(m, t)| - 1;
    assert Working(m, t, i, p);
    ReturnSettles(m, es, u, t, i, p);
    RunKeeps(m, es, u);
    assert u.shape[p] == m.shape[p];
    CancelReachesAll(u, n, p);
  }

  // The context whose direct cancellation c reports.
  function Origin(s: State, c: nat): nat
    requires |s.shape| == |s.cells| && c < |s.cells|
    decreases c
  {
    if s.cells[c].propagated && Above(s, c).Some? && Above(s, c).value < c
    then Origin(s, Above(s, c).value) else c
  }

  /** A cancelled context reports err and cause of the nearest context above it, itself
      included, that was cancelled directly. */
  lemma {:induction false} CauseHasOrigin(s: State, c: nat)
    requires Inv(s) && c < |s.cells| && s.cells[c].err.Some?
    ensures var a := Origin(s, c);
      && a <= c && Descends(s.shape, c, a) && !s.cells[a].propagated
      && s.cells[a].err == s.cells[c].err && s.cells[a].cause == s.cells[c].cause
    decreases c
  {
    assert CellOk(s, c);
    if s.cells[c].propagated {
      AboveBelow(s, c);
      var p := Above(s, c).value;
      CauseHasOrigin(s, p);
      EnclosingDescends(s, s.shape[c].parent);
      DescendsTrans(s.shape, s.shape[c].parent, p, Origin(s, c));
    }
  }

  lemma {:induction false} EnclosingDescends(s: State, n: nat)
    requires Cells(s) && n < |s.shape| && Enclosing(s.shape, n).Some?
    ensures Descends(s.shape, n, Enclosing(s.shape, n).value)
    decreases n
  {
    if Enclosing(s.shape, n).value != n { EnclosingDescends(s, s.shape[n].parent); }
  }

  lemma {:induction false} DescendsTrans(shape: seq<Shape>, n: nat, m: nat, p: nat)
    requires Descends(shape, n, m) && Descends(shape, m, p)
    ensures Descends(shape, n, p)
    decreases n
  {
    if n != m { DescendsTrans(shape, shape[n].parent, m, p); }
  }

  /** The step that first cancels c writes exactly what reached it: the arguments of
      the cancel call, or the parent's err and cause while c is being derived. */
  lemma FirstCancelWins(s: State, e: Event, c: nat)
    requires Inv(s) && WellFormed(s) && Enabled(s, e) && c < |s.cells|
    requires s.cells[c].err.None? && Step(s, e).cells[c].err.Some?
    ensures e.Go? && Stack(s, e.t) != [] && Top(s, e.t).c == c
    ensures var a, y := Top(s, e.t), Step(s, e).cells[c];
      if a.Enter? then y.err == Some(a.err) && y.cause == Some(a.cause) && y.propagated == !a.direct
      else y.propagated && Above(s, c).Some?
           && y.err == s.cells[Above(s, c).value].err && y.cause == s.cells[Above(s, c).value].cause
  {
    hide Inv;
    OnlyGoCancels(s, e, c);
    FrameOk(s, e.t, |Stack(s, e.t)| - 1);
    if Top(s, e.t).Attaching() {
      CellAt(s, Top(s, e.t).c);
      if Above(s, Top(s, e.t).c).Some? { CellAt(s, Above(s, Top(s, e.t).c).value); }
      FirstWhileDerived(s, e.t, e.expired, c);
    } else {
      hide ActOk;
      FirstByCancel(s, e.t, e.expired, c);
    }
  }

  lemma OnlyGoCancels(s: State, e: Event, c: nat)
    requires WellFormed(s) && Enabled(s, e) && c < |s.cells|
    requires s.cells[c].err.None? && Step(s, e).cells[c].err.Some?
    ensures e.Go? && Stack(s, e.t) != []
  {
  }

  lemma FirstByCancel(s: State, t: Tid, x: bool, c: nat)
    requires WellFormed(s) && Enabled(s, Go(t, x)) && !Top(s, t).Attaching() && c < |s.cells|
    requires s.cells[c].err.None? && GoStep(s, t, x).cells[c].err.Some?
    ensures var a, y := Top(s, t), GoStep(s, t, x).cells[c];
      a.Enter? && a.c == c && y.err == Some(a.err) && y.cause == Some(a.cause) && y.propagated == !a.direct
  {
  }

  lemma FirstWhileDerived(s: State, t: Tid, x: bool, c: nat)
    requires WellFormed(s) && Enabled(s, Go(t, x)) && Top(s, t).Attaching() && c < |s.cells|
    requires s.cells[c].err.None? && GoStep(s, t, x).cells[c].err.Some?
    requires ActOk(s, t, Stack(s, t), |Stack(s, t)| - 1)
    requires Above(s, Top(s, t).c).Some? ==> CellOk(s, Above(s, Top(s, t).c).value)
    ensures var y := GoStep(s, t, x).cells[c];
      && Top(s, t).c == c && y.propagated && Above(s, c).Some?
      && y.err == s.cells[Above(s, c).value].err && y.cause == s.cells[Above(s, c).value].cause
  {
  }

  /** Each done channel is closed at most once, exactly when the context is cancelled
      with a channel already handed out. */
  lemma ClosedAtMostOnce(s: State, c: nat)
    requires Reachable(s) && c < |s.cells|
    ensures s.cells[c].closes <= 1
    ensures s.cells[c].err.Some? <==> s.cells[c].done.Closed? || s.cells[c].done.Shared?
    ensures s.cells[c].err.Some? <==> s.cells[c].cause.Some?
  {
    ReachableInv(s);
    assert CellOk(s, c);
  }

  /** Behind WithoutCancel nothing above is ever reported: neither by the context
      itself nor, except by a direct cancellation, by what is derived from it. */
  lemma WithoutCancelShields(s: State, w: nat, c: nat)
    requires Reachable(s) && w < |s.cells| == |s.shape| && s.shape[w].kind.WithoutCancel?
    requires c < |s.cells| && s.cells[c].err.Some? && Descends(s.shape, c, w)
    ensures Answers(s.shape, w).None? && !s.cells[w].err.Some?
    ensures Origin(s, c) > w
  {
    ReachableInv(s);
    assert CellOk(s, w) && CellOk(s, c);
    DescendsBound(s.shape, c, w);
    StaysAbove(s, c, w);
  }

  lemma {:induction false} DescendsBound(shape: seq<Shape>, n: nat, p: nat)
    requires Descends(shape, n, p)
    ensures p <= n
    decreases n
  {
    if n != p { DescendsBound(shape, shape[n].parent, p); }
  }

  lemma {:induction false} StaysAbove(s: State, c: nat, w: nat)
    requires Inv(s) && c < |s.cells| && w < c && s.shape[w].kind.WithoutCancel? && Descends(s.shape, c, w)
    ensures Origin(s, c) > w
    decreases c
  {
    assert CellOk(s, c);
    if s.cells[c].propagated {
      var p := Above(s, c).value;
      EnclosingStays(s, s.shape[c].parent, w);
      StaysAbove(s, p, w);
    }
  }

  lemma {:induction false} EnclosingStays(s: State, n: nat, w: nat)
    requires Cells(s) && n < |s.shape| && w < |s.shape| && s.shape[w].kind.WithoutCancel?
    requires Descends(s.shape, n, w)
    requires Enclosing(s.shape, n).Some?
    ensures var p := Enclosing(s.shape, n).value; p > w && Descends(s.shape, p, w)
    decreases n
  {
    DescendsBound(s.shape, n, w);
    if Enclosing(s.shape, n).value != n { EnclosingStays(s, s.shape[n].parent, w); }
  }
}
