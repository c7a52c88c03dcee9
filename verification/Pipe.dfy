/**
  io.Pipe: the synchronous rendezvous between any number of Read, Write and Close
  calls.  Every call is a small program; each step below is one atomic action of
  the source: a channel rendezvous, a lock, a guarded load or store, or the
  observation of a closed channel.  A run is any sequence of enabled steps.
 */
module Pipe {
  import opened Bytes

  type Id = nat

  datatype Error = EOF | ErrClosedPipe | Custom(code: int)

  // Where a call stands.  `locked` says whether a failing Write holds wrMu.
  datatype Call =
    | WStart(data: seq<byte>)
    | WLock(data: seq<byte>)
    | WOffer(data: seq<byte>, n: nat)
    | WAck(data: seq<byte>, n: nat)
    | WErr(data: seq<byte>, n: nat, locked: bool)
    | WErr2(data: seq<byte>, n: nat, locked: bool, seen: Option<Error>)
    | WDone(data: seq<byte>, n: nat, err: Option<Error>)
    | RStart(cap: nat)
    | RWait(cap: nat)
    | RHold(got: seq<byte>)
    | RErr
    | RErr2(seen: Option<Error>)
    | RDone(got: seq<byte>, err: Option<Error>)
    | CStore(writeSide: bool, why: Option<Error>)
    | CClose
    | CDone
  {
    predicate IsWriter() { WStart? || WLock? || WOffer? || WAck? || WErr? || WErr2? || WDone? }
    predicate HoldsLock() { WOffer? || WAck? || (WErr? && locked) || (WErr2? && locked) }
    predicate Finished() { WDone? || RDone? || CDone? }
    // A writer that has not taken the lock.
    predicate NothingSent() {
      WStart? || WLock? || (WErr? && n == 0) || (WErr2? && n == 0) || (WDone? && n == 0 && err.Some?)
    }
  }

  // One rendezvous on wrCh.
  datatype Handover = Handover(writer: Id, reader: Id, chunk: seq<byte>)

  // `order` and `log` record the history: the order in which writers took wrMu, and
  // the rendezvous on wrCh.
  datatype State = State(
    wrMu: Option<Id>, done: bool, rerr: Option<Error>, werr: Option<Error>,
    calls: map<Id, Call>, order: seq<Id>, log: seq<Handover>)

  const INIT := State(None, false, None, None, map[], [], [])

  datatype Event =
    | Begin(id: Id, call: Call)          // a call starts
    | CheckOpen(id: Id)                  // the first select takes its default branch
    | SeeDone(id: Id)                    // a select takes the done branch
    | Lock(id: Id)                       // wrMu.Lock
    | Rendezvous(writer: Id, reader: Id) // wrCh, with the copy into the reader's buffer
    | Acknowledge(writer: Id, reader: Id)// rdCh
    | LoadOwn(id: Id)                    // first load of read/writeCloseError
    | LoadOther(id: Id)                  // second load, and the return
    | Store(id: Id)                      // onceError.Store
    | CloseDone(id: Id)                  // once.Do(close(done))

  predicate At(s: State, id: Id) { id in s.calls }

  predicate Enabled(s: State, e: Event) {
    match e
    case Begin(id, c) => id !in s.calls && (c.WStart? || c.RStart? || c.CStore?)
    case CheckOpen(id) => At(s, id) && !s.done && (s.calls[id].WStart? || s.calls[id].RStart?)
    case SeeDone(id) => At(s, id) && s.done &&
      (s.calls[id].WStart? || s.calls[id].RStart? || s.calls[id].WOffer? || s.calls[id].RWait?)
    case Lock(id) => At(s, id) && s.calls[id].WLock? && s.wrMu.None?
    case Rendezvous(w, r) => At(s, w) && At(s, r) && s.calls[w].WOffer? && s.calls[r].RWait?
    case Acknowledge(w, r) => At(s, w) && At(s, r) && s.calls[w].WAck? && s.calls[r].RHold?
    case LoadOwn(id) => At(s, id) && (s.calls[id].WErr? || s.calls[id].RErr?)
    case LoadOther(id) => At(s, id) && (s.calls[id].WErr2? || s.calls[id].RErr2?)
    case Store(id) => At(s, id) && s.calls[id].CStore?
    case CloseDone(id) => At(s, id) && s.calls[id].CClose?
  }

  // onceError.Store
  function StoreOnce(stored: Option<Error>, err: Error): Option<Error> {
    if stored.Some? then stored else Some(err)
  }

  // The last line of readCloseError and writeCloseError: own is loaded first.
  function CloseError(own: Option<Error>, other: Option<Error>): Error {
    if own.None? && other.Some? then other.value else ErrClosedPipe
  }

  function Unlock(s: State, locked: bool): Option<Id> { if locked then None else s.wrMu }

  function Step(s: State, e: Event): State
    requires Enabled(s, e)
  {
    match e
    case Begin(id, c) => s.(calls := s.calls[id := c])
    case CheckOpen(id) =>
      var c := s.calls[id];
      s.(calls := s.calls[id := if c.WStart? then WLock(c.data) else RWait(c.cap)])
    case SeeDone(id) =>
      var c := s.calls[id];
      s.(calls := s.calls[id := if c.WStart? then WErr(c.data, 0, false)
                                else if c.WOffer? then WErr(c.data, c.n, true) else RErr])
    case Lock(id) =>
      s.(wrMu := Some(id), order := s.order + [id],
         calls := s.calls[id := WOffer(s.calls[id].data, 0)])
    case Rendezvous(w, r) =>
      var c := s.calls[w];
      var b := c.data[Min(c.n, |c.data|)..];
      var chunk := b[..Min(s.calls[r].cap, |b|)];
      s.(calls := s.calls[w := WAck(c.data, c.n)][r := RHold(chunk)],
         log := s.log + [Handover(w, r, chunk)])
    case Acknowledge(w, r) =>
      var c := s.calls[w];
      var n := c.n + |s.calls[r].got|;
      var c' := if n < |c.data| then WOffer(c.data, n) else WDone(c.data, n, None);
      s.(calls := s.calls[w := c'][r := RDone(s.calls[r].got, None)],
         wrMu := Unlock(s, c'.WDone?))
    case LoadOwn(id) =>
      var c := s.calls[id];
      s.(calls := s.calls[id := if c.WErr? then WErr2(c.data, c.n, c.locked, s.werr) else RErr2(s.rerr)])
    case LoadOther(id) =>
      var c := s.calls[id];
      if c.WErr2? then
        s.(calls := s.calls[id := WDone(c.data, c.n, Some(CloseError(c.seen, s.rerr)))],
           wrMu := Unlock(s, c.locked))
      else
        s.(calls := s.calls[id := RDone([], Some(CloseError(c.seen, s.werr)))])
    case Store(id) =>
      var c := s.calls[id];
      var s' := s.(calls := s.calls[id := CClose]);
      if c.writeSide then
        s'.(werr := StoreOnce(s.werr, if c.why.None? then EOF else c.why.value))
      else
        s'.(rerr := StoreOnce(s.rerr, if c.why.None? then ErrClosedPipe else c.why.value))
    case CloseDone(id) => s.(done := true, calls := s.calls[id := CDone])
  }

  // ---- Runs ----

  // es is a run from s to t.
  ghost predicate Run(s: State, es: seq<Event>, t: State)
    decreases |es|
  {
    if es == [] then t == s
    else Enabled(s, es[0]) && Run(Step(s, es[0]), es[1..], t)
  }

  ghost predicate Reachable(s: State) { exists es :: Run(INIT, es, s) }

  // ---- What the histories mean ----

  function Delivered(log: seq<Handover>): seq<byte> {
    if log == [] then [] else Delivered(log[..|log| - 1]) + log[|log| - 1].chunk
  }

  // The bytes of w's argument that have been handed to readers.
  function Sent(s: State, w: Id): seq<byte>
    requires At(s, w) && s.calls[w].IsWriter()
  {
    match s.calls[w]
    case WStart(_) => []
    case WLock(_) => []
    case WOffer(d, n) => Prefix(d, n)
    case WAck(d, n) => Prefix(d, n + LastChunk(s.log))
    case WErr(d, n, _) => Prefix(d, n)
    case WErr2(d, n, _, _) => Prefix(d, n)
    case WDone(d, n, _) => Prefix(d, n)
  }

  function Prefix(d: seq<byte>, n: nat): seq<byte> { d[..Min(n, |d|)] }
  function LastChunk(log: seq<Handover>): nat { if log == [] then 0 else |log[|log| - 1].chunk| }

  ghost predicate Writers(s: State, order: seq<Id>) {
    forall i :: 0 <= i < |order| ==> At(s, order[i]) && s.calls[order[i]].IsWriter()
  }

  // The concatenation of what each writer sent, in lock order.
  ghost function InLockOrder(s: State, order: seq<Id>): seq<byte>
    requires Writers(s, order)
  {
    if order == [] then []
    else InLockOrder(s, order[..|order| - 1]) + Sent(s, order[|order| - 1])
  }

  // ---- The invariant ----

  // wrMu is held by exactly the writer that took it last, if that one is still inside.
  ghost predicate LockInv(s: State) {
    && Writers(s, s.order)
    && (forall i, j :: 0 <= i < j < |s.order| ==> s.order[i] != s.order[j])
    && (forall w :: At(s, w) && s.calls[w].HoldsLock() <==> s.wrMu == Some(w))
    && (s.wrMu.Some? ==> s.order != [] && s.order[|s.order| - 1] == s.wrMu.value)
    && (forall w :: At(s, w) && s.calls[w].IsWriter() && w !in s.order ==> s.calls[w].NothingSent())
    && (forall w :: At(s, w) && (s.calls[w].WStart? || s.calls[w].WLock?) ==> w !in s.order)
  }

  // At most one chunk is unacknowledged, and it is the last one handed over.
  ghost predicate PendingInv(s: State) {
    && (forall r :: At(s, r) && s.calls[r].RHold? ==>
          s.log != [] && var h := s.log[|s.log| - 1];
          h.reader == r && h.chunk == s.calls[r].got && At(s, h.writer) && s.calls[h.writer].WAck?)
    && (forall w :: At(s, w) && s.calls[w].WAck? ==>
          s.log != [] && var h := s.log[|s.log| - 1];
          && h.writer == w && At(s, h.reader) && s.calls[h.reader].RHold?
          && s.calls[w].n + |h.chunk| <= |s.calls[w].data|
          && h.chunk == s.calls[w].data[s.calls[w].n..s.calls[w].n + |h.chunk|])
  }

  predicate Counted(c: Call) {
    match c
    case WOffer(d, n) => n <= |d|
    case WErr(d, n, l) => n <= |d|
    case WErr2(d, n, l, _) => n <= |d|
    case WDone(d, n, err) => n <= |d| && (err.None? ==> n == |d|)
    case _ => true
  }

  ghost predicate CountInv(s: State) { forall w :: At(s, w) ==> Counted(s.calls[w]) }

  // Every reader that got bytes got exactly one chunk of the log.
  ghost predicate ReaderInv(s: State) {
    && (forall i :: 0 <= i < |s.log| ==>
          var r := s.log[i].reader;
          At(s, r) && (s.calls[r] == RHold(s.log[i].chunk) || s.calls[r] == RDone(s.log[i].chunk, None)))
    && (forall i, j :: 0 <= i < j < |s.log| ==> s.log[i].reader != s.log[j].reader)
    && (forall r :: At(s, r) && s.calls[r].RDone? && s.calls[r].err.None? ==>
          exists i :: 0 <= i < |s.log| && s.log[i].reader == r)
    && (forall r :: At(s, r) && s.calls[r].RDone? && s.calls[r].err.Some? ==> s.calls[r].got == [])
  }

  // What a failing call has loaded or returned is consistent with what is stored now.
  predicate Fine(done: bool, rerr: Option<Error>, werr: Option<Error>, c: Call) {
    && (c.CClose? ==> rerr.Some? || werr.Some?)
    && (c.WErr? || c.RErr? ==> done)
    && (c.WErr2? ==> done && Seen(c.seen, werr, rerr))
    && (c.RErr2? ==> done && Seen(c.seen, rerr, werr))
    && (c.WDone? && c.err.Some? ==> done && Explained(c.err.value, werr, rerr))
    && (c.RDone? && c.err.Some? ==> done && Explained(c.err.value, rerr, werr))
  }

  // The done flag is raised only after an error is stored.
  ghost predicate ErrorInv(s: State) {
    && (s.done ==> s.rerr.Some? || s.werr.Some?)
    && (forall c :: At(s, c) ==> Fine(s.done, s.rerr, s.werr, s.calls[c]))
  }

  // A loaded value is final once set; if unset, the other side must be set.
  predicate Seen(seen: Option<Error>, own: Option<Error>, other: Option<Error>) {
    (seen.Some? ==> own == seen) && (seen.None? ==> other.Some?)
  }

  // A returned close error is the other side's stored error, or ErrClosedPipe because
  // the call's own side was closed.
  predicate Explained(e: Error, own: Option<Error>, other: Option<Error>) {
    other == Some(e) || (e == ErrClosedPipe && own.Some?)
  }

  ghost predicate StreamInv(s: State)
    requires LockInv(s)
  {
    Delivered(s.log) == InLockOrder(s, s.order)
  }

  ghost predicate Inv(s: State) {
    LockInv(s) && PendingInv(s) && CountInv(s) && ReaderInv(s) && ErrorInv(s) && StreamInv(s)
  }

  // ---- Preservation ----

  // Only call id moves, away from the channels.
  ghost predicate OffChannel(s: State, t: State, id: Id) {
    && t.log == s.log
    && At(t, id) && t.calls == s.calls[id := t.calls[id]]
    && !t.calls[id].WAck? && !t.calls[id].RHold?
    && (t.calls[id].RDone? ==> t.calls[id].err.Some? && t.calls[id].got == [])
    && (At(s, id) ==> !s.calls[id].WAck? && !s.calls[id].RHold? && !s.calls[id].RDone?)
  }

  // Moreover it keeps what it holds and what it sent.
  ghost predicate Local(s: State, t: State, id: Id) {
    && OffChannel(s, t, id)
    && t.wrMu == s.wrMu && t.order == s.order
    && t.calls[id].HoldsLock() == (At(s, id) && s.calls[id].HoldsLock())
    && (if At(s, id) then
          && t.calls[id].IsWriter() == s.calls[id].IsWriter()
          && (t.calls[id].IsWriter() ==> Sent(t, id) == Sent(s, id))
          && (t.calls[id].WStart? || t.calls[id].WLock? ==> s.calls[id].WStart?)
          && (s.calls[id].IsWriter() && s.calls[id].NothingSent() ==> t.calls[id].NothingSent())
        else
          !t.calls[id].IsWriter() || t.calls[id].WStart?)
  }

  predicate Alone(s: State, e: Event)
    requires Enabled(s, e)
  {
    match e
    case Lock(_) => false
    case Rendezvous(_, _) => false
    case Acknowledge(_, _) => false
    case LoadOther(id) => s.calls[id].RErr2?
    case _ => true
  }

  lemma AloneIsLocal(s: State, e: Event)
    requires Enabled(s, e) && Alone(s, e)
    ensures Local(s, Step(s, e), e.id)
  {
  }

  lemma LocalLock(s: State, t: State, id: Id)
    requires LockInv(s) && Local(s, t, id)
    ensures LockInv(t)
  {
  }

  lemma OffChannelPending(s: State, t: State, id: Id)
    requires PendingInv(s) && OffChannel(s, t, id)
    ensures PendingInv(t)
  {
  }

  lemma OffChannelReader(s: State, t: State, id: Id)
    requires ReaderInv(s) && OffChannel(s, t, id)
    ensures ReaderInv(t)
  {
  }

  lemma {:induction false} SameSent(s: State, t: State, order: seq<Id>)
    requires Writers(s, order) && Writers(t, order)
    requires forall i :: 0 <= i < |order| ==> Sent(t, order[i]) == Sent(s, order[i])
    ensures InLockOrder(t, order) == InLockOrder(s, order)
  {
    if order != [] { SameSent(s, t, order[..|order| - 1]); }
  }

  lemma LocalStream(s: State, t: State, id: Id)
    requires LockInv(s) && StreamInv(s) && Local(s, t, id) && LockInv(t)
    ensures StreamInv(t)
  {
    forall i | 0 <= i < |s.order| ensures Sent(t, s.order[i]) == Sent(s, s.order[i]) {
      if s.order[i] != id { assert t.calls[s.order[i]] == s.calls[s.order[i]]; }
    }
    SameSent(s, t, s.order);
  }

  // The four steps that touch the lock or a channel.

  lemma JoinLock(s: State, w: Id)
    requires LockInv(s) && Enabled(s, Lock(w))
    ensures LockInv(Step(s, Lock(w)))
  {
  }

  lemma JoinStream(s: State, w: Id)
    requires LockInv(s) && StreamInv(s) && Enabled(s, Lock(w)) && LockInv(Step(s, Lock(w)))
    ensures StreamInv(Step(s, Lock(w)))
  {
    var t := Step(s, Lock(w));
    var k := |s.order|;
    assert t.order[..k] == s.order && t.order[k] == w && t.log == s.log;
    assert Sent(t, w) == [];
    JoinOthers(s, w);
    hide Sent, LockInv, Step, Enabled;
    SameSent(s, t, s.order);
    LastWriter(t, k);
    assert InLockOrder(s, s.order) + [] == InLockOrder(s, s.order);
  }

  lemma JoinOthers(s: State, w: Id)
    requires LockInv(s) && Enabled(s, Lock(w)) && LockInv(Step(s, Lock(w)))
    ensures
      var t := Step(s, Lock(w));
      Writers(t, s.order) && forall i :: 0 <= i < |s.order| ==> Sent(t, s.order[i]) == Sent(s, s.order[i])
  {
    var t := Step(s, Lock(w));
    var k := |s.order|;
    forall i | 0 <= i < k
      ensures At(t, s.order[i]) && t.calls[s.order[i]] == s.calls[s.order[i]]
    {
      assert t.order[i] != t.order[k];
    }
  }

  lemma LastWriter(t: State, k: nat)
    requires Writers(t, t.order) && |t.order| == k + 1
    ensures InLockOrder(t, t.order) == InLockOrder(t, t.order[..k]) + Sent(t, t.order[k])
  {
  }

  lemma RendezvousLock(s: State, w: Id, r: Id)
    requires LockInv(s) && Enabled(s, Rendezvous(w, r))
    ensures LockInv(Step(s, Rendezvous(w, r)))
  {
  }

  lemma RendezvousPending(s: State, w: Id, r: Id)
    requires LockInv(s) && PendingInv(s) && CountInv(s) && Enabled(s, Rendezvous(w, r))
    ensures PendingInv(Step(s, Rendezvous(w, r)))
  {
    var t := Step(s, Rendezvous(w, r));
    assert Counted(s.calls[w]);
    var d, n := s.calls[w].data, s.calls[w].n;
    var k := Min(s.calls[r].cap, |d| - n);
    Chunked(d, n, k);
    var h := t.log[|s.log|];
    assert h.writer == w && h.reader == r && h.chunk == d[n..n + k] && t.log[|t.log| - 1] == h;
    assert s.wrMu == Some(w);
    assert forall v :: At(s, v) && s.calls[v].WAck? ==> v == w;
  }

  lemma RendezvousReader(s: State, w: Id, r: Id)
    requires ReaderInv(s) && Enabled(s, Rendezvous(w, r))
    ensures ReaderInv(Step(s, Rendezvous(w, r)))
  {
    hide Step, Enabled;
    RendezvousIs(s, w, r);
    var t := Step(s, Rendezvous(w, r));
    forall q | At(t, q) && t.calls[q].RDone? && t.calls[q].err.None?
      ensures exists i :: 0 <= i < |t.log| && t.log[i].reader == q
    {
      var i :| 0 <= i < |s.log| && s.log[i].reader == q;
      assert t.log[i].reader == q;
    }
  }

  // What a rendezvous changes.
  lemma RendezvousIs(s: State, w: Id, r: Id)
    requires Enabled(s, Rendezvous(w, r))
    ensures At(s, w) && At(s, r) && w != r && s.calls[w].WOffer? && s.calls[r].RWait?
    ensures
      var t := Step(s, Rendezvous(w, r));
      && |t.log| == |s.log| + 1 && t.log == s.log + [t.log[|s.log|]] && t.log[|s.log|].reader == r
      && t.calls == s.calls[w := WAck(s.calls[w].data, s.calls[w].n)][r := RHold(t.log[|s.log|].chunk)]
  {
  }

  // The chunk extends both histories at their ends.
  lemma RendezvousStream(s: State, w: Id, r: Id)
    requires LockInv(s) && CountInv(s) && StreamInv(s) && Enabled(s, Rendezvous(w, r))
    requires LockInv(Step(s, Rendezvous(w, r)))
    ensures StreamInv(Step(s, Rendezvous(w, r)))
  {
    var t := Step(s, Rendezvous(w, r));
    var k := |s.order| - 1;
    assert s.wrMu == Some(w);
    RendezvousOthers(s, w, r, k);
    SentGrows(s, w, r);
    StreamExtends(s, t, t.log[|s.log|]);
  }

  lemma StreamExtends(s: State, t: State, h: Handover)
    requires s.order != [] && t.order == s.order && t.log == s.log + [h]
    requires Writers(s, s.order) && Writers(t, s.order)
    requires Delivered(s.log) == InLockOrder(s, s.order)
    requires var k := |s.order| - 1;
      && InLockOrder(t, s.order[..k]) == InLockOrder(s, s.order[..k])
      && Sent(t, s.order[k]) == Sent(s, s.order[k]) + h.chunk
    ensures Delivered(t.log) == InLockOrder(t, t.order)
  {
    hide Sent;
    assert t.log[..|s.log|] == s.log;
    var k := |s.order| - 1;
    var x, y, c := InLockOrder(s, s.order[..k]), Sent(s, s.order[k]), h.chunk;
    assert x + (y + c) == (x + y) + c;
  }

  lemma RendezvousOthers(s: State, w: Id, r: Id, k: nat)
    requires LockInv(s) && Enabled(s, Rendezvous(w, r)) && LockInv(Step(s, Rendezvous(w, r)))
    requires k == |s.order| - 1 && s.order[k] == w
    ensures InLockOrder(Step(s, Rendezvous(w, r)), s.order[..k]) == InLockOrder(s, s.order[..k])
  {
    var t := Step(s, Rendezvous(w, r));
    forall i | 0 <= i < k ensures Sent(t, s.order[i]) == Sent(s, s.order[i]) {
      assert s.order[i] != s.order[k];
      assert t.calls[s.order[i]] == s.calls[s.order[i]];
    }
    SameSent(s, t, s.order[..k]);
  }

  lemma SentGrows(s: State, w: Id, r: Id)
    requires CountInv(s) && Enabled(s, Rendezvous(w, r))
    ensures var t := Step(s, Rendezvous(w, r));
      Sent(t, w) == Sent(s, w) + t.log[|s.log|].chunk
  {
    assert Counted(s.calls[w]);
    var d, n := s.calls[w].data, s.calls[w].n;
    var k := Min(s.calls[r].cap, |d| - n);
    Chunked(d, n, k);
  }

  lemma Chunked(d: seq<byte>, n: nat, k: nat)
    requires n + k <= |d|
    ensures d[n..][..k] == d[n..n + k] && d[..n] + d[n..][..k] == d[..n + k]
  {
  }

  lemma AcknowledgeLock(s: State, w: Id, r: Id)
    requires LockInv(s) && Enabled(s, Acknowledge(w, r))
    ensures LockInv(Step(s, Acknowledge(w, r)))
  {
  }

  lemma AcknowledgePending(s: State, w: Id, r: Id)
    requires PendingInv(s) && Enabled(s, Acknowledge(w, r))
    ensures PendingInv(Step(s, Acknowledge(w, r)))
  {
  }

  lemma AcknowledgeReader(s: State, w: Id, r: Id)
    requires PendingInv(s) && ReaderInv(s) && Enabled(s, Acknowledge(w, r))
    ensures ReaderInv(Step(s, Acknowledge(w, r)))
  {
  }

  // The count moves from the history to the writer.
  lemma AcknowledgeStream(s: State, w: Id, r: Id)
    requires LockInv(s) && PendingInv(s) && StreamInv(s) && Enabled(s, Acknowledge(w, r))
    requires LockInv(Step(s, Acknowledge(w, r)))
    ensures StreamInv(Step(s, Acknowledge(w, r)))
  {
    var t := Step(s, Acknowledge(w, r));
    assert Sent(t, w) == Sent(s, w);
    forall i | 0 <= i < |s.order| ensures Sent(t, s.order[i]) == Sent(s, s.order[i]) {
      if s.order[i] != w { assert t.calls[s.order[i]] == s.calls[s.order[i]]; }
    }
    SameSent(s, t, s.order);
  }

  lemma FailLock(s: State, w: Id)
    requires LockInv(s) && Enabled(s, LoadOther(w)) && s.calls[w].WErr2?
    ensures LockInv(Step(s, LoadOther(w)))
  {
  }

  lemma FailStream(s: State, w: Id)
    requires LockInv(s) && StreamInv(s) && Enabled(s, LoadOther(w)) && s.calls[w].WErr2?
    requires LockInv(Step(s, LoadOther(w)))
    ensures StreamInv(Step(s, LoadOther(w)))
  {
    var t := Step(s, LoadOther(w));
    forall i | 0 <= i < |s.order| ensures Sent(t, s.order[i]) == Sent(s, s.order[i]) {
      if s.order[i] != w { assert t.calls[s.order[i]] == s.calls[s.order[i]]; }
    }
    SameSent(s, t, s.order);
  }

  lemma CountKept(s: State, e: Event)
    requires PendingInv(s) && CountInv(s) && Enabled(s, e)
    ensures CountInv(Step(s, e))
  {
    if e.Acknowledge? {
      CountAcknowledged(s, e.writer, e.reader);
    } else {
      hide PendingInv;
    }
  }

  lemma CountAcknowledged(s: State, w: Id, r: Id)
    requires PendingInv(s) && CountInv(s) && Enabled(s, Acknowledge(w, r))
    ensures CountInv(Step(s, Acknowledge(w, r)))
  {
    var t := Step(s, Acknowledge(w, r));
    assert Counted(t.calls[w]) && Counted(t.calls[r]);
    hide PendingInv, Counted;
  }

  lemma ErrorKept(s: State, e: Event)
    requires ErrorInv(s) && Enabled(s, e)
    ensures ErrorInv(Step(s, e))
  {
    hide Step, ErrorInv;
    if e.Store? || e.CloseDone? {
      ErrorStored(s, e);
    } else if e.Rendezvous? || e.Acknowledge? {
      ErrorChannel(s, e);
    } else {
      ErrorAlone(s, e);
    }
  }

  // The call that moves stays consistent; nothing is stored.
  lemma ErrorAlone(s: State, e: Event)
    requires ErrorInv(s) && Enabled(s, e)
    requires !e.Store? && !e.CloseDone? && !e.Rendezvous? && !e.Acknowledge?
    ensures ErrorInv(Step(s, e))
  {
    var t := Step(s, e);
    assert At(s, e.id) ==> Fine(s.done, s.rerr, s.werr, s.calls[e.id]);
    assert Fine(t.done, t.rerr, t.werr, t.calls[e.id]);
    assert t.done == s.done && t.rerr == s.rerr && t.werr == s.werr && t.calls == s.calls[e.id := t.calls[e.id]];
    hide Fine, Step;
  }

  lemma ErrorChannel(s: State, e: Event)
    requires ErrorInv(s) && Enabled(s, e) && (e.Rendezvous? || e.Acknowledge?)
    ensures ErrorInv(Step(s, e))
  {
    var t := Step(s, e);
    assert Fine(t.done, t.rerr, t.werr, t.calls[e.writer]) && Fine(t.done, t.rerr, t.werr, t.calls[e.reader]);
    hide Fine;
  }

  // What is stored stays consistent with what was loaded before.
  lemma FineLater(s: State, t: State, c: Call)
    requires Fine(s.done, s.rerr, s.werr, c) && (s.done ==> t.done && (s.rerr.Some? || s.werr.Some?))
    requires (s.rerr.Some? ==> t.rerr == s.rerr) && (s.werr.Some? ==> t.werr == s.werr)
    ensures Fine(t.done, t.rerr, t.werr, c)
  {
  }

  lemma ErrorStored(s: State, e: Event)
    requires ErrorInv(s) && Enabled(s, e) && (e.Store? || e.CloseDone?)
    ensures ErrorInv(Step(s, e))
  {
    var t := Step(s, e);
    assert Fine(s.done, s.rerr, s.werr, s.calls[e.id]);
    assert Fine(t.done, t.rerr, t.werr, t.calls[e.id]);
    assert t.calls == s.calls[e.id := t.calls[e.id]];
    hide Fine;
    forall c | At(t, c)
      ensures Fine(t.done, t.rerr, t.werr, t.calls[c])
    {
      if c != e.id {
        assert t.calls[c] == s.calls[c];
        FineLater(s, t, s.calls[c]);
      }
    }
  }

  /** Every step of every call keeps the invariant. */
  lemma StepKeeps(s: State, e: Event)
    requires Inv(s) && Enabled(s, e)
    ensures Inv(Step(s, e))
  {
    hide LockInv, PendingInv, CountInv, ReaderInv, ErrorInv, StreamInv, Step;
    CountKept(s, e);
    ErrorKept(s, e);
    if e.Rendezvous? {
      var w, r := e.writer, e.reader;
      RendezvousLock(s, w, r); RendezvousPending(s, w, r); RendezvousReader(s, w, r);
      RendezvousStream(s, w, r);
    } else if e.Acknowledge? {
      var w, r := e.writer, e.reader;
      AcknowledgeLock(s, w, r); AcknowledgePending(s, w, r); AcknowledgeReader(s, w, r);
      AcknowledgeStream(s, w, r);
    } else {
      OffChannelKeeps(s, e);
    }
  }

  lemma OffChannelKeeps(s: State, e: Event)
    requires Inv(s) && Enabled(s, e) && !e.Rendezvous? && !e.Acknowledge?
    ensures var t := Step(s, e); LockInv(t) && PendingInv(t) && ReaderInv(t) && StreamInv(t)
  {
    hide LockInv, PendingInv, CountInv, ReaderInv, ErrorInv, StreamInv, Step, OffChannel, Local;
    var t, id := Step(s, e), e.id;
    StepOffChannel(s, e);
    OffChannelPending(s, t, id);
    OffChannelReader(s, t, id);
    if Alone(s, e) {
      AloneIsLocal(s, e); LocalLock(s, t, id); LocalStream(s, t, id);
    } else if e.Lock? {
      JoinLock(s, id); JoinStream(s, id);
    } else {
      FailLock(s, id); FailStream(s, id);
    }
  }

  lemma StepOffChannel(s: State, e: Event)
    requires Enabled(s, e) && !e.Rendezvous? && !e.Acknowledge?
    ensures OffChannel(s, Step(s, e), e.id)
  {
  }

  lemma {:induction false} RunKeeps(s: State, es: seq<Event>, t: State)
    requires Inv(s) && Run(s, es, t)
    ensures Inv(t)
    decreases |es|
  {
    if es != [] {
      StepKeeps(s, es[0]);
      RunKeeps(Step(s, es[0]), es[1..], t);
    }
  }

  lemma {:induction false} RunsJoin(s: State, es: seq<Event>, t: State, fs: seq<Event>, u: State)
    requires Run(s, es, t) && Run(t, fs, u)
    ensures Run(s, es + fs, u)
    decreases |es|
  {
    hide Step, Enabled;
    if es == [] {
      assert es + fs == fs;
    } else {
      assert (es + fs)[0] == es[0] && (es + fs)[1..] == es[1..] + fs;
      RunsJoin(Step(s, es[0]), es[1..], t, fs, u);
    }
  }

  lemma ReachableInv(s: State)
    requires Reachable(s)
    ensures Inv(s)
  {
    var es :| Run(INIT, es, s);
    RunKeeps(INIT, es, s);
  }

  // ---- What callers see ----

  /** In every interleaving the bytes handed to readers, in hand-over order, are the
      concatenation in lock order of what each Write has handed over; for a Write
      that has returned, that is its first n bytes. */
  lemma StreamsAgree(s: State)
    requires Reachable(s)
    ensures LockInv(s) && Delivered(s.log) == InLockOrder(s, s.order)
    ensures forall w :: At(s, w) && s.calls[w].WDone? ==>
      s.calls[w].n <= |s.calls[w].data| && Sent(s, w) == s.calls[w].data[..s.calls[w].n]
    ensures forall w :: At(s, w) && s.calls[w].IsWriter() && w !in s.order ==> Sent(s, w) == []
  {
    hide PendingInv, ReaderInv, ErrorInv, Reachable;
    ReachableInv(s);
  }

  /** A Write returns a nil error only when it reports, and handed over, everything. */
  lemma NilMeansAll(s: State, w: Id)
    requires Reachable(s) && At(s, w) && s.calls[w].WDone? && s.calls[w].err.None?
    ensures s.calls[w].n == |s.calls[w].data| && Sent(s, w) == s.calls[w].data && w in s.order
  {
    ReachableInv(s);
  }

  /** A Read that returns without error returns the bytes of exactly one rendezvous. */
  lemma ReadIsOneChunk(s: State, r: Id)
    requires Reachable(s) && At(s, r) && s.calls[r].RDone?
    ensures s.calls[r].err.Some? ==> s.calls[r].got == [] && s.done
    ensures s.calls[r].err.None? ==> exists i :: 0 <= i < |s.log| && OnlyChunk(s, r, i)
  {
    ReachableInv(s);
    if s.calls[r].err.None? {
      var i :| 0 <= i < |s.log| && s.log[i].reader == r;
      assert OnlyChunk(s, r, i);
    }
  }

  // Entry i of the log is the only one of reader r, and holds what r returned.
  ghost predicate OnlyChunk(s: State, r: Id, i: nat)
    requires At(s, r) && s.calls[r].RDone? && i < |s.log|
  {
    && s.log[i].reader == r && s.log[i].chunk == s.calls[r].got
    && (forall j :: 0 <= j < |s.log| && s.log[j].reader == r ==> j == i)
  }

  /** At most one chunk is unacknowledged; its count can only go to the writer that
      offered it, and can always go, whether or not the pipe was closed meanwhile. */
  lemma AcknowledgementFindsItsWriter(s: State, w: Id)
    requires Reachable(s) && At(s, w) && s.calls[w].WAck?
    ensures s.log != [] && s.log[|s.log| - 1].writer == w
    ensures Enabled(s, Acknowledge(w, s.log[|s.log| - 1].reader))
    ensures forall r :: Enabled(s, Acknowledge(w, r)) ==>
      r == s.log[|s.log| - 1].reader && s.calls[r].got == s.log[|s.log| - 1].chunk
    ensures forall v :: At(s, v) && s.calls[v].WAck? ==> v == w
  {
    ReachableInv(s);
  }

  /** A close error is never nil: it is what the other side stored, or ErrClosedPipe
      when the call's own side was closed. */
  lemma CloseErrorsExplained(s: State, c: Id)
    requires Reachable(s) && At(s, c)
    ensures s.calls[c].RDone? && s.calls[c].err.Some? ==> Explained(s.calls[c].err.value, s.rerr, s.werr)
    ensures s.calls[c].WDone? && s.calls[c].err.Some? ==> Explained(s.calls[c].err.value, s.werr, s.rerr)
    ensures s.calls[c].RDone? && s.calls[c].err.Some? && s.rerr.None? ==> s.werr == s.calls[c].err
    ensures s.calls[c].WDone? && s.calls[c].err.Some? && s.werr.None? ==> s.rerr == s.calls[c].err
  {
    ReachableInv(s);
  }

  // Stored errors, the done flag and what a finished call returned are kept; the two
  // histories only grow.
  ghost predicate Later(s: State, t: State) {
    && (s.rerr.Some? ==> t.rerr == s.rerr) && (s.werr.Some? ==> t.werr == s.werr)
    && (s.done ==> t.done)
    && (forall c :: At(s, c) && s.calls[c].Finished() ==> At(t, c) && t.calls[c] == s.calls[c])
    && s.log <= t.log && s.order <= t.order
  }

  lemma StepLater(s: State, e: Event)
    requires Enabled(s, e)
    ensures Later(s, Step(s, e))
  {
  }

  /** Nothing a run has decided is ever rewritten. */
  lemma {:induction false} WrittenOnce(s: State, es: seq<Event>, t: State)
    requires Run(s, es, t)
    ensures Later(s, t)
    decreases |es|
  {
    if es != [] {
      hide Step, Enabled;
      StepLater(s, es[0]);
      WrittenOnce(Step(s, es[0]), es[1..], t);
    }
  }

  /** Closing strands nobody: while a call is unfinished, some step is enabled. */
  lemma CloseUnblocks(s: State, c: Id)
    requires Reachable(s) && s.done && At(s, c)
    requires !s.calls[c].Finished()
    ensures exists e :: Enabled(s, e) && !e.Begin?
  {
    ReachableInv(s);
    var call := s.calls[c];
    if call.WLock? && s.wrMu.Some? {
      Unblocked(s, s.wrMu.value);
    } else {
      Unblocked(s, c);
    }
  }

  lemma Unblocked(s: State, c: Id)
    requires Inv(s) && s.done && At(s, c)
    requires !s.calls[c].Finished()
    requires s.calls[c].WLock? ==> s.wrMu.None?
    ensures exists e :: Enabled(s, e) && !e.Begin?
  {
    var e := match s.calls[c]
      case WLock(_) => Lock(c)
      case WAck(_, _) => Acknowledge(c, s.log[|s.log| - 1].reader)
      case RHold(_) => Acknowledge(s.log[|s.log| - 1].writer, c)
      case WErr(_, _, _) => LoadOwn(c)
      case RErr => LoadOwn(c)
      case WErr2(_, _, _, _) => LoadOther(c)
      case RErr2(_) => LoadOther(c)
      case CStore(_, _) => Store(c)
      case CClose => CloseDone(c)
      case _ => SeeDone(c);
    assert Enabled(s, e) && !e.Begin?;
  }
}
