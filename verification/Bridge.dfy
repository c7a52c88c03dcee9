/**
  The reference table of the wasm bridge: JavaScript values that Go holds are named by
  ids, counted, and the ids reused once the last reference is gone.
 */
module Bridge {
  import opened Bytes

  datatype Kind = Object | String | Symbol | Function | BigInt

  // Number is any number but NaN and the two zeroes; Of is whatever Map compares by
  // identity or contents.
  datatype Value = Undefined | NaN | Zero | Number(bits: int) | Null | Boolean(b: bool) | Of(kind: Kind, which: int)

  const GLOBAL_THIS: Value := Of(Object, 0)
  const GO_THIS: Value := Of(Object, 1)

  // Eight bytes of memory: a float64, or a NaN whose low word is an id.
  datatype Cell = FloatZero | Float(bits: int) | Ref(flag: nat, id: nat)

  // Predefined values are never counted down.
  datatype Count = Infinity | Finite(n: int)

  const PREDEFINED: nat := 7

  function TypeFlag(v: Value): nat {
    if v.Of? then
      match v.kind
      case Object => 1
      case String => 2
      case Symbol => 3
      case Function => 4
      case BigInt => 0
    else 0
  }

  // Values that are written into the cell itself.
  predicate Inline(v: Value) { v.Undefined? || v.NaN? || v.Number? }

  // ---------------------------------------------------------------- the Go side

  datatype Type = TypeUndefined | TypeNull | TypeBoolean | TypeNumber | TypeString | TypeSymbol | TypeObject | TypeFunction

  // Value.Type of syscall/js, from the eight bytes alone; None is its panic.
  function GoType(c: Cell): Option<Type> {
    match c
    case FloatZero => Some(TypeUndefined)
    case Float(_) => Some(TypeNumber)
    case Ref(flag, id) =>
      if flag == 0 && id == 2 then Some(TypeNull)
      else if flag == 0 && (id == 3 || id == 4) then Some(TypeBoolean)
      else if flag == 0 && (id == 0 || id == 1) then Some(TypeNumber)
      else
        match flag
        case 1 => Some(TypeObject)
        case 2 => Some(TypeString)
        case 3 => Some(TypeSymbol)
        case 4 => Some(TypeFunction)
        case _ => None
  }

  // makeValue has the garbage collector release what it makes of such a cell.
  predicate GoReleases(c: Cell) { c.Ref? && c.flag % 8 != 0 }

  // typeof, but for null; a bigint is not known to Go.
  function TypeOf(v: Value): Option<Type> {
    match v
    case Undefined => Some(TypeUndefined)
    case NaN => Some(TypeNumber)
    case Zero => Some(TypeNumber)
    case Number(_) => Some(TypeNumber)
    case Null => Some(TypeNull)
    case Boolean(_) => Some(TypeBoolean)
    case Of(kind, _) =>
      match kind
      case Object => Some(TypeObject)
      case String => Some(TypeString)
      case Symbol => Some(TypeSymbol)
      case Function => Some(TypeFunction)
      case BigInt => None
  }

  // ---------------------------------------------------------------- what the table keeps

  type Handles = multiset<(nat, Value)>

  ghost predicate Sizes(values: seq<Value>, counts: seq<Count>) {
    && PREDEFINED <= |values| == |counts|
    && (forall i :: 0 <= i < PREDEFINED ==> counts[i] == Infinity && values[i] == INITIAL_VALUES[i])
  }

  /** The pool holds distinct ids, each of them free. */
  ghost predicate Pooled(values: seq<Value>, counts: seq<Count>, pool: seq<nat>)
    requires Sizes(values, counts)
  {
    && (forall k :: 0 <= k < |pool| ==>
          PREDEFINED <= pool[k] < |values| && counts[pool[k]] == Finite(0) && values[pool[k]] == Null)
    && (forall j, k :: 0 <= j < k < |pool| ==> pool[j] != pool[k])
  }

  /** The table and the map are inverse to each other on the ids in use. */
  ghost predicate Inverse(values: seq<Value>, ids: map<Value, nat>, pool: seq<nat>) {
    && (forall i :: 1 <= i < |values| && i !in pool ==> values[i] in ids && ids[values[i]] == i)
    && (forall v :: v in ids ==> !Inline(v) && 1 <= ids[v] < |values| && ids[v] !in pool && values[ids[v]] == v)
  }

  /** Every count is the number of references outstanding, and each of them is good. */
  ghost predicate Counted(values: seq<Value>, counts: seq<Count>, handles: Handles)
    requires Sizes(values, counts)
  {
    && (forall i :: PREDEFINED <= i < |values| ==> counts[i] == Finite(handles[(i, values[i])]))
    && (forall h :: h in handles ==> 1 <= h.0 < |values| && values[h.0] == h.1)
  }

  // Ids outside the pool are referenced, but for the one being worked on.
  ghost predicate UsedBut(counts: seq<Count>, pool: seq<nat>, id: int) {
    forall i :: PREDEFINED <= i < |counts| && i !in pool && i != id ==> counts[i] != Finite(0)
  }

  // ---------------------------------------------------------------- the predefined values

  const INITIAL_VALUES: seq<Value> := [NaN, Zero, Null, Boolean(true), Boolean(false), GLOBAL_THIS, GO_THIS]

  const INITIAL_COUNTS: seq<Count> := [Infinity, Infinity, Infinity, Infinity, Infinity, Infinity, Infinity]

  const INITIAL_IDS: map<Value, nat> :=
    map[Zero := 1, Null := 2, Boolean(true) := 3, Boolean(false) := 4, GLOBAL_THIS := 5, GO_THIS := 6]

  lemma InitialInverse(values: seq<Value>, ids: map<Value, nat>)
    requires values == INITIAL_VALUES && ids == INITIAL_IDS
    ensures Inverse(values, ids, [])
  {
  }

  lemma InitialCounts(values: seq<Value>, counts: seq<Count>)
    requires values == INITIAL_VALUES && counts == INITIAL_COUNTS
    ensures Sizes(values, counts) && Pooled(values, counts, []) && UsedBut(counts, [], 0)
    ensures Counted(values, counts, multiset{})
  {
  }

  // ---------------------------------------------------------------- the steps

  lemma LastOfPool(pool: seq<nat>)
    requires pool != []
    ensures forall i :: i in pool <==> i in pool[..|pool| - 1] || i == pool[|pool| - 1]
  {
    assert pool == pool[..|pool| - 1] + [pool[|pool| - 1]];
  }

  lemma TakeFromPool(values: seq<Value>, counts: seq<Count>, pool: seq<nat>, v: Value)
    requires Sizes(values, counts) && Pooled(values, counts, pool) && UsedBut(counts, pool, 0)
    requires pool != []
    ensures
      var id := pool[|pool| - 1];
      var values', pool' := values[id := v], pool[..|pool| - 1];
      && PREDEFINED <= id < |values| && id !in pool' && counts[id] == Finite(0)
      && Sizes(values', counts) && Pooled(values', counts, pool') && UsedBut(counts, pool', id)
  {
    LastOfPool(pool);
  }

  lemma MapTaken(values: seq<Value>, ids: map<Value, nat>, pool: seq<nat>, pool': seq<nat>, id: nat, v: Value)
    requires Inverse(values, ids, pool) && 1 <= id < |values| && !Inline(v) && v !in ids
    requires forall i :: i in pool <==> i in pool' || i == id
    requires id !in pool'
    ensures Inverse(values[id := v], ids[v := id], pool')
  {
  }

  lemma AddAtEnd(values: seq<Value>, counts: seq<Count>, ids: map<Value, nat>, pool: seq<nat>, v: Value)
    requires Sizes(values, counts) && Pooled(values, counts, pool) && Inverse(values, ids, pool)
    requires pool == [] && !Inline(v) && v !in ids && UsedBut(counts, pool, 0)
    ensures
      var values', counts' := values + [v], counts + [Finite(0)];
      && Sizes(values', counts') && Pooled(values', counts', pool)
      && Inverse(values', ids[v := |values|], pool) && UsedBut(counts', pool, |values|)
  {
  }

  // A free id has no references, whatever value it is given next.
  lemma FreshCount(values: seq<Value>, counts: seq<Count>, handles: Handles, id: nat, v: Value)
    requires Sizes(values, counts) && Counted(values, counts, handles)
    requires PREDEFINED <= id < |values| && counts[id] == Finite(0)
    ensures Counted(values[id := v], counts, handles)
  {
    assert handles[(id, values[id])] == 0;
    assert forall h :: h in handles ==> h.0 != id;
    assert (id, v) !in handles;
  }

  lemma LongerCount(values: seq<Value>, counts: seq<Count>, handles: Handles, v: Value)
    requires Sizes(values, counts) && Counted(values, counts, handles)
    ensures Counted(values + [v], counts + [Finite(0)], handles)
  {
    assert (|values|, v) !in handles;
  }

  function Changed(counts: seq<Count>, id: nat, step: int): seq<Count>
    requires id < |counts|
  {
    if counts[id].Finite? then counts[id := Finite(counts[id].n + step)] else counts
  }

  lemma Referenced(values: seq<Value>, counts: seq<Count>, handles: Handles, id: nat)
    requires Sizes(values, counts) && Counted(values, counts, handles) && 1 <= id < |values|
    ensures
      var counts' := Changed(counts, id, 1);
      Sizes(values, counts') && Counted(values, counts', handles + multiset{(id, values[id])})
  {
  }

  lemma Released(values: seq<Value>, counts: seq<Count>, handles: Handles, id: nat)
    requires Sizes(values, counts) && Counted(values, counts, handles)
    requires id < |values| && (id, values[id]) in handles
    ensures
      var counts' := Changed(counts, id, -1);
      Sizes(values, counts') && Counted(values, counts', handles - multiset{(id, values[id])})
  {
  }

  lemma Freed(values: seq<Value>, counts: seq<Count>, ids: map<Value, nat>, pool: seq<nat>, id: nat)
    requires Sizes(values, counts) && Pooled(values, counts, pool) && Inverse(values, ids, pool)
    requires PREDEFINED <= id < |values| && id !in pool && counts[id] == Finite(0)
    ensures
      var values', pool' := values[id := Null], pool + [id];
      && Sizes(values', counts) && Pooled(values', counts, pool')
      && Inverse(values', ids - {values[id]}, pool')
  {
    var pool' := pool + [id];
    assert forall i :: i in pool' <==> i in pool || i == id;
  }

  // ---------------------------------------------------------------- the table

  class Bridge {
    var values: seq<Value>
    var counts: seq<Count>
    var ids: map<Value, nat>
    var pool: seq<nat>

    // The references Go holds: each id, with the value it was handed out for.
    ghost var handles: Handles

    ghost predicate Valid()
      reads this
    {
      && Sizes(values, counts)
      && Pooled(values, counts, pool)
      && Inverse(values, ids, pool)
      && Counted(values, counts, handles)
      && UsedBut(counts, pool, 0)
    }

    constructor ()
      ensures Valid() && handles == multiset{}
    {
      values, counts, ids, pool, handles := INITIAL_VALUES, INITIAL_COUNTS, INITIAL_IDS, [], multiset{};
      new;
      hide Sizes, Pooled, Inverse, Counted, UsedBut;
      InitialInverse(INITIAL_VALUES, INITIAL_IDS);
      InitialCounts(INITIAL_VALUES, INITIAL_COUNTS);
    }

    /** A reference Go holds loads the value it was handed out for. */
    function LoadValue(c: Cell): (v: Value)
      requires Valid() && (c.Ref? ==> c.id < |values|)
      reads this
      ensures forall h :: h in handles && c.Ref? && c.id == h.0 ==> v == h.1
    {
      match c
      case FloatZero => Undefined
      case Float(bits) => Number(bits)
      case Ref(_, id) => values[id]
    }

    // An id for v, which has none: from the pool, or at the end of the table.
    method Allocate(v: Value) returns (id: nat)
      requires Valid() && !Inline(v) && v !in ids
      modifies this`values, this`counts, this`ids, this`pool
      ensures Sizes(values, counts) && Pooled(values, counts, pool) && Inverse(values, ids, pool)
      ensures Counted(values, counts, handles) && UsedBut(counts, pool, id)
      ensures PREDEFINED <= id < |values| && values[id] == v && id !in pool && v in ids && ids[v] == id
    {
      hide Inverse, Pooled, Counted, UsedBut, Sizes;
      if pool != [] {
        id := pool[|pool| - 1];
        LastOfPool(pool);
        TakeFromPool(values, counts, pool, v);
        MapTaken(values, ids, pool, pool[..|pool| - 1], id, v);
        FreshCount(values, counts, handles, id, v);
        assert counts[id := Finite(0)] == counts;
        pool := pool[..|pool| - 1];
        values := values[id := v];
        counts := counts[id := Finite(0)];
      } else {
        AddAtEnd(values, counts, ids, pool, v);
        LongerCount(values, counts, handles, v);
        assert |values| >= PREDEFINED by { TableSize(values, counts); }
        id := |values|;
        values := values + [v];
        counts := counts + [Finite(0)];
      }
      ids := ids[v := id];
    }

    /** Stores v: what is stored loads as v, and counts as one more reference if it is one. */
    method StoreValue(v: Value) returns (c: Cell)
      requires Valid()
      modifies this
      ensures Valid() && (c.Ref? ==> c.id < |values|) && LoadValue(c) == v
      ensures handles == if Inline(v) then old(handles) else old(handles) + multiset{(c.id, v)}
      ensures !Inline(v) ==> v in ids && c == Ref(TypeFlag(v), ids[v])
      ensures GoType(c) == TypeOf(v)
      ensures GoReleases(c) <==> v.Of? && !v.kind.BigInt?
    {
      if v.NaN? {
        return Ref(0, 0);
      }
      if v.Number? {
        return Float(v.bits);
      }
      if v.Undefined? {
        return FloatZero;
      }
      c := StoreRef(v);
      TypeAgrees(values, counts, ids, pool, v);
    }

    // The id of v, counted once more.
    method StoreRef(v: Value) returns (c: Cell)
      requires Valid() && !Inline(v)
      modifies this
      ensures Valid() && c.Ref? && c.id < |values| && values[c.id] == v
      ensures handles == old(handles) + multiset{(c.id, v)}
      ensures v in ids && c == Ref(TypeFlag(v), ids[v])
    {
      hide TypeFlag;
      var id;
      if v in ids {
        id := ids[v];
      } else {
        id := Allocate(v);
      }
      assert 1 <= id < |values| && values[id] == v && id !in pool;
      Count(id);
      return Ref(TypeFlag(v), id);
    }

    // this._goRefCounts[id]++
    method Count(id: nat)
      requires Sizes(values, counts) && Pooled(values, counts, pool) && Inverse(values, ids, pool)
      requires Counted(values, counts, handles) && UsedBut(counts, pool, id)
      requires 1 <= id < |values| && id !in pool
      modifies this`counts, this`handles
      ensures Valid() && handles == old(handles) + multiset{(id, values[id])}
    {
      Referenced(values, counts, handles, id);
      StillPooled(values, counts, pool, id, 1);
      assert counts[id].Finite? ==> counts[id].n >= 0;
      hide Inverse, Pooled, Counted;
      counts := Changed(counts, id, 1);
      handles := handles + multiset{(id, values[id])};
    }

    /** Releases one outstanding reference; the others load what they did. */
    method FinalizeRef(id: nat)
      requires Valid() && id < |values| && (id, values[id]) in handles
      modifies this
      ensures Valid() && handles == old(handles) - multiset{(id, old(values)[id])}
    {
      hide Pooled, Inverse, Counted, UsedBut, Sizes;
      TableSize(values, counts);
      Outstanding(values, counts, pool, handles, id);
      Released(values, counts, handles, id);
      StillPooled(values, counts, pool, id, -1);
      counts := Changed(counts, id, -1);
      handles := handles - multiset{(id, values[id])};
      if counts[id] == Finite(0) {
        Freed(values, counts, ids, pool, id);
        NowUsed(counts, pool, id);
        FreshCount(values, counts, handles, id, Null);
        var v := values[id];
        values := values[id := Null];
        ids := ids - {v};
        pool := pool + [id];
      } else {
        NowUsed(counts, pool, id);
      }
    }
  }

  // The ids that Go knows by heart.
  lemma Predefined(values: seq<Value>, counts: seq<Count>, ids: map<Value, nat>, pool: seq<nat>, v: Value)
    requires Sizes(values, counts) && Pooled(values, counts, pool) && Inverse(values, ids, pool) && v in ids
    ensures v == Zero <==> ids[v] == 1
    ensures v == Null <==> ids[v] == 2
    ensures v.Boolean? <==> ids[v] == 3 || ids[v] == 4
    ensures ids[v] != 0
  {
    assert INITIAL_VALUES[1] == Zero && INITIAL_VALUES[2] == Null;
    assert INITIAL_VALUES[3] == Boolean(true) && INITIAL_VALUES[4] == Boolean(false);
  }

  lemma TypeAgrees(values: seq<Value>, counts: seq<Count>, ids: map<Value, nat>, pool: seq<nat>, v: Value)
    requires Sizes(values, counts) && Pooled(values, counts, pool) && Inverse(values, ids, pool) && v in ids
    ensures GoType(Ref(TypeFlag(v), ids[v])) == TypeOf(v)
    ensures GoReleases(Ref(TypeFlag(v), ids[v])) <==> v.Of? && !v.kind.BigInt?
  {
    Predefined(values, counts, ids, pool, v);
    assert !Inline(v);
    hide Sizes, Pooled, Inverse;
  }

  lemma StillPooled(values: seq<Value>, counts: seq<Count>, pool: seq<nat>, id: nat, step: int)
    requires Sizes(values, counts) && Pooled(values, counts, pool) && id < |values| && id !in pool
    ensures
      var counts' := Changed(counts, id, step);
      && Sizes(values, counts') && Pooled(values, counts', pool)
      && (UsedBut(counts, pool, 0) ==> UsedBut(counts', pool, id))
  {
  }

  lemma TableSize(values: seq<Value>, counts: seq<Count>)
    requires Sizes(values, counts)
    ensures PREDEFINED <= |values| == |counts|
    ensures forall i :: 0 <= i < PREDEFINED ==> counts[i] == Infinity
  {
  }

  lemma Outstanding(values: seq<Value>, counts: seq<Count>, pool: seq<nat>, handles: Handles, id: nat)
    requires Sizes(values, counts) && Pooled(values, counts, pool) && Counted(values, counts, handles)
    requires id < |values| && (id, values[id]) in handles
    ensures 1 <= id && id !in pool
  {
    assert counts[id] != Finite(0);
  }

  // The id worked on is in use again, or in the pool.
  lemma NowUsed(counts: seq<Count>, pool: seq<nat>, id: nat)
    requires UsedBut(counts, pool, id) && id < |counts|
    ensures counts[id] != Finite(0) ==> UsedBut(counts, pool, 0)
    ensures UsedBut(counts, pool + [id], 0)
  {
  }
}
