/** The consumer's table of calls waiting for their return, bounded by evicting calls whose id lies
    too far behind the newest one. */
module Pending {
  import opened Sizes

  const WINDOW := 4096
  const EVICT_TRIGGER := 2 * WINDOW

  // The table, the highest id stored, the running count of entries and of evictions.
  datatype Table<T> = Table(calls: map<nat, T>, newest: nat, len: int, evicted: nat)

  function Empty<T>(): Table<T> { Table(map[], 0, 0, 0) }

  function Stale<T>(t: Table<T>): set<nat> {
    if t.newest <= WINDOW then {} else set k | k in t.calls && k < t.newest - WINDOW
  }

  // t after the entries of gone were evicted.
  function Without<T>(t: Table<T>, gone: set<nat>): Table<T> {
    Table(t.calls - gone, t.newest, t.len - |gone|, t.evicted + |gone|)
  }

  function Evict<T>(t: Table<T>): Table<T> { Without(t, Stale(t)) }

  function Added<T>(t: Table<T>, id: nat, v: T): Table<T> {
    Table(t.calls[id := v], if id > t.newest then id else t.newest, t.len + 1, t.evicted)
  }

  function Store<T>(t: Table<T>, id: nat, v: T): Table<T> {
    var a := Added(t, id, v);
    if a.len > EVICT_TRIGGER then Evict(a) else a
  }

  function Take<T>(t: Table<T>, id: nat): Table<T> {
    if id in t.calls then Table(t.calls - {id}, t.newest, t.len - 1, t.evicted) else t
  }

  ghost predicate Valid<T>(t: Table<T>) {
    && t.len == |t.calls|
    && forall k :: k in t.calls ==> 0 < k <= t.newest
  }

  // ---------------------------------------------------------------------------------------------
  // Bounds
  // ---------------------------------------------------------------------------------------------

  lemma {:induction false} IntervalBound(s: set<nat>, lo: nat, hi: int)
    requires forall k :: k in s ==> lo <= k <= hi
    requires lo <= hi + 1
    ensures |s| <= hi + 1 - lo
    decreases hi + 1 - lo
  {
    if lo == hi + 1 {
      assert s == {};
    } else {
      var rest := s - {hi};
      IntervalBound(rest, lo, hi - 1);
      assert |s| <= |rest| + 1 by {
        assert s <= rest + {hi};
        SubsetSize(s, rest + {hi});
      }
    }
  }

  lemma {:induction false} RemovedSize<T>(m: map<nat, T>, keys: set<nat>)
    requires keys <= m.Keys
    ensures |m - keys| == |m| - |keys|
  {
    assert (m - keys).Keys == m.Keys - keys;
    assert |(m - keys).Keys| == |m.Keys| - |keys|;
  }

  lemma {:induction false} EvictKeepsValid<T>(t: Table<T>)
    requires Valid(t)
    ensures Valid(Evict(t))
  {
    RemovedSize(t.calls, Stale(t));
  }

  /** An eviction past the window leaves at most one entry per id of the window. */
  lemma {:induction false} EvictBound<T>(t: Table<T>)
    requires Valid(t) && t.newest > 4096
    ensures |Evict(t).calls| <= 4097
  {
    IntervalBound(Evict(t).calls.Keys, t.newest - WINDOW, t.newest);
  }

  /** Which calls an eviction keeps, with what was stored for them: when the newest id is above 4096, those
      at most 4096 below it; otherwise all. */
  lemma {:induction false} EvictKeeps<T>(t: Table<T>, k: nat)
    ensures k in Evict(t).calls <==> k in t.calls && (t.newest <= 4096 || k + 4096 >= t.newest)
    ensures k in Evict(t).calls ==> Evict(t).calls[k] == t.calls[k]
    ensures Evict(t).newest == t.newest
  {
  }

  /** Which calls wait after a store: the one stored and those that waited, except that a count above 8192
      drops the ids more than 4096 below the newest. */
  lemma {:induction false} StoreKeeps<T>(t: Table<T>, id: nat, v: T, k: nat)
    ensures var s := Store(t, id, v);
            && s.newest == (if id > t.newest then id else t.newest)
            && (k in s.calls <==> (k == id || k in t.calls) && (t.len < 8192 || s.newest <= k + 4096))
            && (k in s.calls ==> s.calls[k] == if k == id then v else t.calls[k])
  {
    hide Evict;
    EvictKeeps(Added(t, id, v), k);
  }

  /** With a fresh positive id, storing keeps the running count equal to the table's size and the
      table never exceeds the trigger: an overfull table has ids spread wider than the window, so
      the eviction it forces leaves at most 4097. */
  lemma {:induction false} StoreBound<T>(t: Table<T>, id: nat, v: T)
    requires Valid(t) && id > 0 && id !in t.calls
    requires |t.calls| <= EVICT_TRIGGER
    ensures var s := Store(t, id, v);
            && Valid(s) && |s.calls| <= 8192
            && (|t.calls| == 8192 ==> |s.calls| <= 4097)
            && (|t.calls| < 8192 ==> s.calls == t.calls[id := v])
  {
    var a := Added(t, id, v);
    assert a.calls.Keys == t.calls.Keys + {id};
    assert |a.calls.Keys| == |t.calls.Keys| + 1;
    assert Valid(a);
    if a.len > EVICT_TRIGGER {
      IntervalBound(a.calls.Keys, 1, a.newest);
      EvictKeepsValid(a);
      EvictBound(a);
    }
  }

  lemma {:induction false} TakeKeepsValid<T>(t: Table<T>, id: nat)
    requires Valid(t)
    ensures Valid(Take(t, id))
    ensures id !in Take(t, id).calls
  {
    if id in t.calls { RemovedSize(t.calls, {id}); }
  }

  /** The running count goes wrong exactly when an id is stored twice. */
  lemma {:induction false} CountRightIffFresh<T>(t: Table<T>, id: nat, v: T)
    requires Valid(t) && id > 0
    ensures Added(t, id, v).len == |Added(t, id, v).calls| <==> id !in t.calls
  {
    var a := Added(t, id, v);
    assert a.calls.Keys == t.calls.Keys + {id};
    if id in t.calls {
      assert a.calls.Keys == t.calls.Keys;
      assert |a.calls| == |a.calls.Keys| == |t.calls|;
    } else {
      assert |a.calls| == |a.calls.Keys| == |t.calls.Keys| + 1;
    }
  }

  datatype Op<T> = DoStore(id: nat, v: T) | DoTake(id: nat)

  function Do<T>(t: Table<T>, op: Op<T>): Table<T> {
    match op
    case DoStore(id, v) => Store(t, id, v)
    case DoTake(id) => Take(t, id)
  }

  function After<T>(t: Table<T>, ops: seq<Op<T>>): Table<T>
    decreases |ops|
  {
    if ops == [] then t else After(Do(t, ops[0]), ops[1..])
  }

  function StoredIds<T>(ops: seq<Op<T>>): seq<nat>
    decreases |ops|
  {
    if ops == [] then []
    else (if ops[0].DoStore? then [ops[0].id] else []) + StoredIds(ops[1..])
  }

  ghost predicate DistinctPositive(ids: seq<nat>) {
    && (forall i :: 0 <= i < |ids| ==> ids[i] > 0)
    && forall i, j :: 0 <= i < j < |ids| ==> ids[i] != ids[j]
  }

  lemma {:induction false} DistinctTail(id: nat, ids: seq<nat>)
    requires DistinctPositive([id] + ids)
    ensures id > 0 && id !in ids && DistinctPositive(ids)
  {
    var all := [id] + ids;
    assert all[0] == id;
    assert forall i :: 0 <= i < |ids| ==> all[i + 1] == ids[i];
  }

  // How many stores of the run meet an entry with the same id.
  function Clashes<T>(t: Table<T>, ops: seq<Op<T>>): nat
    decreases |ops|
  {
    if ops == [] then 0
    else
      (if ops[0].DoStore? && ops[0].id in t.calls then 1 else 0) + Clashes(Do(t, ops[0]), ops[1..])
  }

  lemma {:induction false} AddedSize<T>(t: Table<T>, id: nat, v: T)
    ensures |Added(t, id, v).calls| == |t.calls| + if id in t.calls then 0 else 1
  {
    var a := Added(t, id, v);
    assert a.calls.Keys == t.calls.Keys + {id};
    assert |a.calls| == |a.calls.Keys| && |t.calls| == |t.calls.Keys|;
    if id in t.calls { assert a.calls.Keys == t.calls.Keys; }
  }

  lemma {:induction false} EvictedSize<T>(t: Table<T>)
    ensures Evict(t).len - |Evict(t).calls| == t.len - |t.calls|
  {
    RemovedSize(t.calls, Stale(t));
  }

  lemma {:induction false} ExcessAfterOne<T>(t: Table<T>, op: Op<T>)
    ensures Do(t, op).len - |Do(t, op).calls|
         == t.len - |t.calls| + if op.DoStore? && op.id in t.calls then 1 else 0
  {
    hide Evict;
    match op {
      case DoStore(id, v) =>
        AddedSize(t, id, v);
        EvictedSize(Added(t, id, v));
      case DoTake(id) =>
        if id in t.calls { RemovedSize(t.calls, {id}); }
    }
  }

  /** Over any run the running count exceeds the size of the table by exactly the number of stores that
      met an entry with the same id: it is right if and only if no id was ever stored while it waited. */
  lemma {:induction false} CountOverRun<T>(t: Table<T>, ops: seq<Op<T>>)
    ensures After(t, ops).len - |After(t, ops).calls| == t.len - |t.calls| + Clashes(t, ops)
    decreases |ops|
  {
    hide Do;
    if ops != [] {
      ExcessAfterOne(t, ops[0]);
      CountOverRun(Do(t, ops[0]), ops[1..]);
    }
  }

  lemma {:induction false} CountRightIffNoClash<T>(ops: seq<Op<T>>)
    ensures var t := After(Empty<T>(), ops); t.len == |t.calls| <==> Clashes(Empty<T>(), ops) == 0
  {
    CountOverRun(Empty<T>(), ops);
  }

  lemma {:induction false} RunBoundFrom<T>(t: Table<T>, ops: seq<Op<T>>)
    requires Valid(t) && |t.calls| <= EVICT_TRIGGER
    requires DistinctPositive(StoredIds(ops))
    requires forall k :: k in t.calls ==> k !in StoredIds(ops)
    ensures Valid(After(t, ops)) && |After(t, ops).calls| <= EVICT_TRIGGER
    decreases |ops|
  {
    hide Store, DistinctPositive;
    if ops != [] {
      var ids := StoredIds(ops[1..]);
      match ops[0] {
        case DoStore(id, v) =>
          assert StoredIds(ops) == [id] + ids;
          DistinctTail(id, ids);
          StoreBound(t, id, v);
          StoreKeys(t, id, v);
          RunBoundFrom(Store(t, id, v), ops[1..]);
        case DoTake(id) =>
          assert StoredIds(ops) == ids;
          TakeKeepsValid(t, id);
          if id in t.calls { RemovedSize(t.calls, {id}); }
          RunBoundFrom(Take(t, id), ops[1..]);
      }
    }
  }

  lemma {:induction false} StoreKeys<T>(t: Table<T>, id: nat, v: T)
    ensures forall k :: k in Store(t, id, v).calls ==> k == id || k in t.calls
  {
  }

  /** For any sequence of stores with distinct positive ids, in any order and mixed with takes, the
      count equals the table's size and the table stays within the trigger. */
  lemma {:induction false} RunBound<T>(ops: seq<Op<T>>)
    requires DistinctPositive(StoredIds(ops))
    ensures var t := After(Empty<T>(), ops); t.len == |t.calls| <= 8192
  {
    RunBoundFrom(Empty<T>(), ops);
  }

  // ---------------------------------------------------------------------------------------------
  // The consumer's globals
  // ---------------------------------------------------------------------------------------------

  // A list of the members of s, each once.
  ghost predicate Enumerates(order: seq<nat>, s: set<nat>) {
    && (forall k :: k in order <==> k in s)
    && forall i, j :: 0 <= i < j < |order| ==> order[i] != order[j]
  }

  lemma {:induction false} EvictOne<T>(t: Table<T>, gone: set<nat>, k: nat, order: seq<nat>)
    requires k in t.calls && k !in gone && Enumerates(order, gone)
    ensures var w := Without(t, gone);
            Table(w.calls - {k}, w.newest, w.len - 1, w.evicted + 1) == Without(t, gone + {k})
    ensures Enumerates(order + [k], gone + {k})
  {
    assert k !in order;
    assert (t.calls - gone) - {k} == t.calls - (gone + {k});
    assert |gone + {k}| == |gone| + 1;
  }

  lemma {:induction false} ExamineOne(stale: set<nat>, todo: set<nat>, k: nat)
    requires k in todo
    ensures stale - (todo - {k}) == if k in stale then (stale - todo) + {k} else stale - todo
  {
  }

  lemma {:induction false} NothingEvicted<T>(t: Table<T>)
    ensures Enumerates([], {}) && Without(t, {}) == t
  {
    assert t.calls - {} == t.calls;
  }

  lemma {:induction false} EvictedExactly<T>(t: Table<T>, order: seq<nat>)
    requires Enumerates(order, Stale(t))
    ensures forall k :: k in order <==> k in t.calls && k + 4096 < t.newest
    ensures forall k :: k in Evict(t).calls <==> k in t.calls && k !in order
  {
  }

  class PendingCalls<T> {
    var calls: map<nat, T>
    var newest: nat
    var len: int
    var evicted: nat

    function Now(): Table<T>
      reads this
    {
      Table(calls, newest, len, evicted)
    }

    constructor ()
      ensures Now() == Empty<T>()
    {
      calls, newest, len, evicted := map[], 0, 0, 0;
    }

    // order lists the evicted ids as they are met.
    method EvictStale() returns (order: seq<nat>)
      modifies this
      ensures Now() == Evict(old(Now()))
      ensures Enumerates(order, Stale(old(Now())))
      ensures forall k :: k in order <==> k in old(calls) && k + 4096 < old(newest)
      ensures forall k :: k in calls <==> k in old(calls) && k !in order
    {
      hide Enumerates, Without;
      order := [];
      ghost var t := Now();
      ghost var stale: set<nat>, gone: set<nat> := Stale(t), {};
      NothingEvicted(t);
      if newest <= WINDOW {
        EvictedExactly(t, []);
        return;
      }
      var cutoff := newest - WINDOW;
      var todo := calls.Keys;
      while todo != {}
        invariant Now() == Without(t, gone) && newest == t.newest
        invariant todo <= t.calls.Keys && gone == stale - todo
        invariant Enumerates(order, gone)
        decreases todo
      {
        var k :| k in todo;
        ExamineOne(stale, todo, k);
        todo := todo - {k};
        if k < cutoff {
          EvictOne(t, gone, k, order);
          calls := calls - {k};
          len := len - 1;
          evicted := evicted + 1;
          order := order + [k];
          gone := gone + {k};
        }
      }
      assert gone == stale;
      EvictedExactly(t, order);
    }

    method StoreCall(id: nat, v: T) returns (order: seq<nat>)
      modifies this
      ensures Now() == Store(old(Now()), id, v)
      ensures var a := Added(old(Now()), id, v); Enumerates(order, if a.len > EVICT_TRIGGER then Stale(a) else {})
      ensures forall k :: k in order <==>
                (k == id || k in old(calls)) && old(len) >= 8192 && (k + 4096 < id || k + 4096 < old(newest))
    {
      calls := calls[id := v];
      len := len + 1;
      if id > newest { newest := id; }
      order := [];
      if len > EVICT_TRIGGER {
        order := EvictStale();
      }
    }

    method TakeCall(id: nat) returns (found: bool, v: seq<T>)
      modifies this
      ensures Now() == Take(old(Now()), id)
      ensures found <==> id in old(calls)
      ensures v == if found then [old(calls)[id]] else []
    {
      if id !in calls { return false, []; }
      v := [calls[id]];
      calls := calls - {id};
      len := len - 1;
      found := true;
    }
  }
}
