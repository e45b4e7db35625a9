/**
 The path on which the capacity bound is proved: a fresh cache with
 capacity at least 2 that only ever receives `Set` calls on distinct keys.
 On that path eviction is first-in first-out: `Get` never promotes, so once
 the map is full each `Set` deletes the oldest inserted key that is still
 bound, and `last` moves one entry along `next`.
 */
module Fifo {
  import opened Wrappers
  import opened LruCache
  import opened Trace

  /** Every call of the trace is a `Set`. */
  predicate SetsOnly<V>(ops: seq<Op<V>>)
  {
    forall i :: 0 <= i < |ops| ==> ops[i].SetOp?
  }

  /** No two calls of the trace name the same key. */
  predicate DistinctKeys<V>(ops: seq<Op<V>>)
    requires SetsOnly(ops)
  {
    forall i, j :: 0 <= i < j < |ops| ==> ops[i].key != ops[j].key
  }

  /** `key` is named by no call of the trace. */
  predicate Fresh<V>(ops: seq<Op<V>>, key: string)
    requires SetsOnly(ops)
  {
    forall i :: 0 <= i < |ops| ==> ops[i].key != key
  }

  /** Arena slot of the oldest key still bound after `m` distinct `Set`s. */
  function Oldest(m: nat, capacity: int): (j: nat)
  {
    if m <= capacity then 0 else m - capacity
  }

  /**
   The state after the distinct `Set`s of `ops` on a fresh cache: entry `i`
   was allocated by call `i`; the map binds exactly the keys of the calls
   `Oldest .. m-1` to their own entries; `first` is the newest entry and
   `last` the oldest bound one; the bound entries are chained by `next`;
   and the `prev` of the oldest bound entry points at itself or at an entry
   that is no longer bound, so unlinking it cannot disturb the live chain.
   */
  ghost predicate FifoShape<V>(c: Lrucache<V>, ops: seq<Op<V>>)
  {
    && SetsOnly(ops)
    && Valid(c)
    && c.capacity >= 2
    && |c.entries| == |ops|
    && (forall i :: 0 <= i < |ops| ==> c.entries[i].key == ops[i].key && c.entries[i].value == ops[i].value)
    && if |ops| == 0 then c.cache == map[] && c.first.None? && c.last.None?
       else
         var m := |ops|;
         var j := Oldest(m, c.capacity);
         && c.first == Some(m - 1)
         && c.last == Some(j)
         && |c.cache| == m - j
         && (forall k :: k in c.cache ==> j <= c.cache[k])
         && (forall i :: j <= i < m ==> ops[i].key in c.cache && c.cache[ops[i].key] == i)
         && (forall i :: j <= i < m - 1 ==> c.entries[i].next == Some(i + 1))
         && c.entries[j].prev.Some? && c.entries[j].prev.value <= j
  }

  /** A key no call has named is not bound. */
  lemma FreshKeyUnbound<V>(c: Lrucache<V>, ops: seq<Op<V>>, key: string)
    requires FifoShape(c, ops) && Fresh(ops, key)
    ensures key !in c.cache
  {
  }

  /**
   Once the key of entry `j` is unbound, every binding that was at `j` or
   later is at `j + 1` or later, the new one included.
   */
  lemma EvictedBindingsAbove<V>(c: Lrucache<V>, rcache: map<string, nat>, j: nat, gone: string, key: string, m: nat)
    requires Valid(c) && j < |c.entries| && c.entries[j].key == gone && j < m
    requires forall k :: k in c.cache ==> j <= c.cache[k]
    requires rcache == (c.cache - {gone})[key := m]
    ensures forall k :: k in rcache ==> j + 1 <= rcache[k]
  {
    forall k | k in rcache
      ensures j + 1 <= rcache[k]
    {
      if k != key {
        assert k in c.cache && c.entries[c.cache[k]].key == k;
      }
    }
  }

  /** Keys of calls `j+1 .. m-1` keep their bindings when the key of call `j` is unbound. */
  lemma WindowBindingsKept<V>(ops: seq<Op<V>>, cache: map<string, nat>, rcache: map<string, nat>, j: nat, key: string, value: V)
    requires SetsOnly(ops) && Fresh(ops, key) && j < |ops|
    requires forall i :: j <= i < |ops| ==> ops[i].key in cache && cache[ops[i].key] == i
    requires rcache == (cache - {ops[j].key})[key := |ops|]
    ensures var ops' := ops + [SetOp(key, value)];
      forall i :: j + 1 <= i < |ops'| ==> ops'[i].key in rcache && rcache[ops'[i].key] == i
  {
    var ops' := ops + [SetOp(key, value)];
    forall i | j + 1 <= i < |ops'|
      ensures ops'[i].key in rcache && rcache[ops'[i].key] == i
    {
      if i < |ops| {
        assert ops'[i] == ops[i];
        assert cache[ops[i].key] == i;
      }
    }
  }

  /** The bound entries `j+1 .. m` are still chained by `next` after entry `j` is unlinked. */
  lemma ChainAdvanced<V>(ce: seq<Entry<V>>, re: seq<Entry<V>>, j: nat, m: nat)
    requires |ce| == m && |re| == m + 1 && j + 1 < m
    requires forall i :: j <= i < m - 1 ==> ce[i].next == Some(i + 1)
    requires forall i :: j + 1 < i < m - 1 ==> re[i] == ce[i]
    requires j + 1 < m - 1 ==> re[j + 1].next == ce[j + 1].next
    requires re[m - 1].next == Some(m)
    ensures forall i :: j + 1 <= i < m ==> re[i].next == Some(i + 1)
  {
    forall i | j + 1 <= i < m
      ensures re[i].next == Some(i + 1)
    {
      if j + 1 < i < m - 1 {
        assert re[i] == ce[i];
      }
    }
  }

  /** Appending a `Set` to a trace of `Set`s gives a trace of `Set`s. */
  lemma SetsOnlyExtended<V>(ops: seq<Op<V>>, key: string, value: V)
    requires SetsOnly(ops)
    ensures SetsOnly(ops + [SetOp(key, value)])
  {
    var ops' := ops + [SetOp(key, value)];
    forall i | 0 <= i < |ops'|
      ensures ops'[i].SetOp?
    {
      if i < |ops| {
        assert ops'[i] == ops[i];
      }
    }
  }

  /** Entry `i` of the new state was allocated by call `i` of the longer trace. */
  lemma PayloadsExtended<V>(c: Lrucache<V>, r: Lrucache<V>, ops: seq<Op<V>>, key: string, value: V)
    requires SetsOnly(ops) && |c.entries| == |ops| && |r.entries| == |ops| + 1
    requires forall i :: 0 <= i < |ops| ==> c.entries[i].key == ops[i].key && c.entries[i].value == ops[i].value
    requires SamePayloads(c, r)
    requires r.entries[|ops|].key == key && r.entries[|ops|].value == value
    ensures var ops' := ops + [SetOp(key, value)];
      forall i :: 0 <= i < |ops'| ==> r.entries[i].key == ops'[i].key && r.entries[i].value == ops'[i].value
  {
    var ops' := ops + [SetOp(key, value)];
    forall i | 0 <= i < |ops'|
      ensures r.entries[i].key == ops'[i].key && r.entries[i].value == ops'[i].value
    {
      if i < |ops| {
        assert ops'[i] == ops[i];
      }
    }
  }

  /** The first `Set` on a fresh cache links its entry to itself. */
  lemma FirstSetShape<V>(c: Lrucache<V>, ops: seq<Op<V>>, key: string, value: V)
    requires FifoShape(c, ops) && |ops| == 0
    ensures Set(c, key, value) ==
            Lrucache(c.capacity, map[key := 0], Some(0), Some(0), [Entry(key, value, Some(0), Some(0))])
  {
    assert c.entries == [];
    assert !EvictionDue(Allocate(c, key, value));
  }

  /** What `Set` does to the links when no eviction is due and the chain is started. */
  lemma SetLinksWithoutEviction<V>(c: Lrucache<V>, key: string, value: V)
    requires Valid(c) && !EvictionDue(c) && c.first == Some(|c.entries| - 1)
    ensures Set(c, key, value).last == c.last
    ensures Set(c, key, value).cache == c.cache[key := |c.entries|]
    ensures forall i :: 0 <= i < |c.entries| - 1 ==> Set(c, key, value).entries[i] == c.entries[i]
    ensures Set(c, key, value).entries[|c.entries| - 1] == c.entries[|c.entries| - 1].(next := Some(|c.entries|))
    ensures Set(c, key, value).entries[|c.entries|] == Entry(key, value, None, Some(|c.entries| - 1))
  {
    var c1 := Allocate(c, key, value);
    assert StartChain(Evict(c1), key, |c.entries|) == c1;
  }

  /**
   What `Set` does to the links when the eviction is due and deletes the key
   of the `last` entry, whose `next` is `Some(j + 1)` and whose `prev` is
   `Some(p)`: the newer neighbour inherits `prev`, the older one gets `next`.
   */
  lemma SetLinksWithEviction<V>(c: Lrucache<V>, key: string, value: V, j: nat, p: nat)
    requires Valid(c) && EvictionDue(c) && c.first == Some(|c.entries| - 1)
    requires c.last == Some(j) && j + 1 < |c.entries| && p <= j
    requires c.entries[j].key in c.cache && c.cache[c.entries[j].key] == j
    requires c.entries[j].next == Some(j + 1) && c.entries[j].prev == Some(p)
    requires key != c.entries[j].key
    ensures var r := Set(c, key, value); var m := |c.entries|;
      && r.last == Some(j + 1)
      && r.cache == (c.cache - {c.entries[j].key})[key := m]
      && (forall i :: j + 1 < i < m - 1 ==> r.entries[i] == c.entries[i])
      && r.entries[j + 1].prev == Some(p)
      && r.entries[j + 1].next == (if j + 1 == m - 1 then Some(m) else c.entries[j + 1].next)
      && r.entries[m - 1].next == Some(m)
      && r.entries[m] == Entry(key, value, None, Some(m - 1))
  {
    var m := |c.entries|;
    var c1 := Allocate(c, key, value);
    EvictOldest(c1, j, p);
    var c2 := Evict(c1);
    assert StartChain(c2, key, m) == c2;
  }

  /**
   Evicting the oldest entry `j` of a chain whose neighbours are `p` (older,
   possibly `j` itself) and `j + 1` (newer) unlinks it and moves `last` to `j + 1`.
   */
  lemma EvictOldest<V>(c: Lrucache<V>, j: nat, p: nat)
    requires Valid(c) && EvictionDue(c) && c.last == Some(j) && j + 1 < |c.entries| && p <= j
    requires c.entries[j].key in c.cache && c.cache[c.entries[j].key] == j
    requires c.entries[j].next == Some(j + 1) && c.entries[j].prev == Some(p)
    ensures var r := Evict(c);
      && r.last == Some(j + 1) && r.first == c.first
      && r.cache == c.cache - {c.entries[j].key}
      && r.entries == WithNext(WithPrev(c.entries, j + 1, Some(p)), p, Some(j + 1))
  {
    assert Victim(c) == {c.entries[j].key};
  }

  /** Below capacity a fresh key is chained after `first`; `last` stays on entry 0. */
  lemma GrowShape<V>(c: Lrucache<V>, ops: seq<Op<V>>, key: string, value: V, r: Lrucache<V>)
    requires FifoShape(c, ops) && Fresh(ops, key)
    requires 1 <= |ops| < c.capacity
    requires Valid(r) && r.capacity == c.capacity && |r.entries| == |ops| + 1
    requires r.first == Some(|ops|) && r.last == c.last && r.cache == c.cache[key := |ops|]
    requires forall i :: 0 <= i < |ops| - 1 ==> r.entries[i] == c.entries[i]
    requires r.entries[|ops| - 1] == c.entries[|ops| - 1].(next := Some(|ops|))
    requires r.entries[|ops|] == Entry(key, value, None, Some(|ops| - 1))
    ensures FifoShape(r, ops + [SetOp(key, value)])
  {
    var m := |ops|;
    var ops' := ops + [SetOp(key, value)];
    FreshKeyUnbound(c, ops, key);
    SetsOnlyExtended(ops, key, value);
    assert Oldest(m, c.capacity) == 0 && Oldest(m + 1, c.capacity) == 0;
    assert |c.cache| == m;
    assert |r.cache| == m + 1;
    forall i | 0 <= i < m
      ensures ops'[i].key in r.cache && r.cache[ops'[i].key] == i
      ensures r.entries[i].key == ops'[i].key && r.entries[i].value == ops'[i].value
      ensures r.entries[i].next == Some(i + 1)
    {
      assert ops'[i] == ops[i];
      if i < m - 1 {
        assert r.entries[i] == c.entries[i];
      }
    }
    assert r.entries[0].prev == c.entries[0].prev;
  }

  /**
   At capacity a fresh key evicts the key of entry `Oldest`, `last` moves to
   the next entry, and the new entry is chained after `first`.
   */
  lemma SlideShape<V>(c: Lrucache<V>, ops: seq<Op<V>>, key: string, value: V, r: Lrucache<V>, p: nat)
    requires FifoShape(c, ops) && Fresh(ops, key)
    requires |ops| >= c.capacity
    requires p <= |ops| - c.capacity && c.entries[|ops| - c.capacity].prev == Some(p)
    requires Valid(r) && r.capacity == c.capacity && |r.entries| == |ops| + 1
    requires r.first == Some(|ops|) && r.last == Some(|ops| - c.capacity + 1)
    requires r.cache == (c.cache - {ops[|ops| - c.capacity].key})[key := |ops|]
    requires SamePayloads(c, r)
    requires forall i :: |ops| - c.capacity + 1 < i < |ops| - 1 ==> r.entries[i] == c.entries[i]
    requires r.entries[|ops| - c.capacity + 1].prev == Some(p)
    requires |ops| - c.capacity + 1 < |ops| - 1 ==>
               r.entries[|ops| - c.capacity + 1].next == c.entries[|ops| - c.capacity + 1].next
    requires r.entries[|ops| - 1].next == Some(|ops|)
    requires r.entries[|ops|] == Entry(key, value, None, Some(|ops| - 1))
    ensures FifoShape(r, ops + [SetOp(key, value)])
  {
    var m := |ops|;
    var j := m - c.capacity;
    var ops' := ops + [SetOp(key, value)];
    SlideBindings(c, ops, key, value, r.cache);
    SlideChain(c, ops, r.entries, p);
    FreshKeyUnbound(c, ops, key);
    SetsOnlyExtended(ops, key, value);
    PayloadsExtended(c, r, ops, key, value);
    ShapeFromParts(r, ops', j + 1);
  }

  /**
   Once full, unlinking entry `Oldest` and chaining the new entry after
   `first` keeps the window one slot further on chained by `next`, and the
   `prev` of its new oldest entry points at or below it.
   */
  lemma SlideChain<V>(c: Lrucache<V>, ops: seq<Op<V>>, re: seq<Entry<V>>, p: nat)
    requires FifoShape(c, ops) && |ops| >= c.capacity && |re| == |ops| + 1
    requires p <= |ops| - c.capacity
    requires forall i :: |ops| - c.capacity + 1 < i < |ops| - 1 ==> re[i] == c.entries[i]
    requires re[|ops| - c.capacity + 1].prev == Some(p)
    requires |ops| - c.capacity + 1 < |ops| - 1 ==>
               re[|ops| - c.capacity + 1].next == c.entries[|ops| - c.capacity + 1].next
    requires re[|ops| - 1].next == Some(|ops|)
    ensures var j := |ops| - c.capacity + 1;
      && (forall i :: j <= i < |ops| ==> re[i].next == Some(i + 1))
      && re[j].prev.Some? && re[j].prev.value <= j
  {
    assert Oldest(|ops|, c.capacity) == |ops| - c.capacity;
    ChainAdvanced(c.entries, re, |ops| - c.capacity, |ops|);
  }

  /** The conjuncts of `FifoShape` for a non-empty trace, with `Oldest` named `j`. */
  lemma ShapeFromParts<V>(r: Lrucache<V>, ops: seq<Op<V>>, j: nat)
    requires SetsOnly(ops) && Valid(r) && r.capacity >= 2 && |r.entries| == |ops| && j < |ops|
    requires forall i :: 0 <= i < |ops| ==> r.entries[i].key == ops[i].key && r.entries[i].value == ops[i].value
    requires j == Oldest(|ops|, r.capacity)
    requires r.first == Some(|ops| - 1) && r.last == Some(j) && |r.cache| == |ops| - j
    requires forall k :: k in r.cache ==> j <= r.cache[k]
    requires forall i :: j <= i < |ops| ==> ops[i].key in r.cache && r.cache[ops[i].key] == i
    requires forall i :: j <= i < |ops| - 1 ==> r.entries[i].next == Some(i + 1)
    requires r.entries[j].prev.Some? && r.entries[j].prev.value <= j
    ensures FifoShape(r, ops)
  {
  }

  /**
   Once full, dropping the key of entry `Oldest` and binding a fresh key to
   the new entry leaves exactly the window one slot further on bound.
   */
  lemma SlideBindings<V>(c: Lrucache<V>, ops: seq<Op<V>>, key: string, value: V, rcache: map<string, nat>)
    requires FifoShape(c, ops) && Fresh(ops, key)
    requires |ops| >= c.capacity
    requires rcache == (c.cache - {ops[|ops| - c.capacity].key})[key := |ops|]
    ensures var j := |ops| - c.capacity + 1;
      var ops' := ops + [SetOp(key, value)];
      && |rcache| == |ops'| - j
      && (forall k :: k in rcache ==> j <= rcache[k])
      && (forall i :: j <= i < |ops'| ==> ops'[i].key in rcache && rcache[ops'[i].key] == i)
  {
    var m := |ops|;
    var j := m - c.capacity;
    var gone := ops[j].key;
    FreshKeyUnbound(c, ops, key);
    assert Oldest(m, c.capacity) == j;
    assert gone in c.cache;
    RemoveOneKey(c.cache, gone);
    assert c.entries[j].key == gone;
    EvictedBindingsAbove(c, rcache, j, gone, key, m);
    WindowBindingsKept(ops, c.cache, rcache, j, key, value);
  }

  /** The first `Set` of a trace establishes the shape. */
  lemma FirstSetKeepsShape<V>(c: Lrucache<V>, ops: seq<Op<V>>, key: string, value: V)
    requires FifoShape(c, ops) && |ops| == 0
    ensures FifoShape(Set(c, key, value), ops + [SetOp(key, value)])
  {
    FirstSetShape(c, ops, key, value);
    assert ops + [SetOp(key, value)] == [SetOp(key, value)];
  }

  /** Below capacity a distinct `Set` keeps the shape. */
  lemma GrowSetKeepsShape<V>(c: Lrucache<V>, ops: seq<Op<V>>, key: string, value: V)
    requires FifoShape(c, ops) && Fresh(ops, key) && 1 <= |ops| < c.capacity
    ensures FifoShape(Set(c, key, value), ops + [SetOp(key, value)])
  {
    SetLinksWithoutEviction(c, key, value);
    GrowShape(c, ops, key, value, Set(c, key, value));
  }

  /** At capacity a distinct `Set` keeps the shape and unbinds the oldest key. */
  lemma SlideSetKeepsShape<V>(c: Lrucache<V>, ops: seq<Op<V>>, key: string, value: V)
    requires FifoShape(c, ops) && Fresh(ops, key) && |ops| >= c.capacity
    ensures FifoShape(Set(c, key, value), ops + [SetOp(key, value)])
  {
    var m := |ops|;
    var j := m - c.capacity;
    var p := c.entries[j].prev.value;
    assert Oldest(m, c.capacity) == j;
    SetLinksWithEviction(c, key, value, j, p);
    SetStoresValue(c, key, value);
    SlideShape(c, ops, key, value, Set(c, key, value), p);
  }

  /**
   At capacity a distinct `Set` unbinds the key of entry `Oldest`, binds the
   new key, and moves `last` along the `next` link of the old `last`.
   */
  lemma SlideSetEvicts<V>(c: Lrucache<V>, ops: seq<Op<V>>, key: string, value: V)
    requires FifoShape(c, ops) && Fresh(ops, key) && |ops| >= c.capacity
    ensures Set(c, key, value).cache.Keys == c.cache.Keys - {ops[|ops| - c.capacity].key} + {key}
    ensures Set(c, key, value).last == c.entries[c.last.value].next
  {
    var m := |ops|;
    var j := m - c.capacity;
    var p := c.entries[j].prev.value;
    assert Oldest(m, c.capacity) == j;
    SetLinksWithEviction(c, key, value, j, p);
  }

  /**
   One more distinct `Set` keeps the shape. Once the map is full it unbinds
   exactly the key of the oldest inserted entry still bound, and `last`
   follows that entry's `next` link.
   */
  lemma SetKeepsFifoShape<V>(c: Lrucache<V>, ops: seq<Op<V>>, key: string, value: V)
    requires FifoShape(c, ops) && Fresh(ops, key)
    ensures FifoShape(Set(c, key, value), ops + [SetOp(key, value)])
    ensures |ops| >= c.capacity ==>
              && Set(c, key, value).cache.Keys == c.cache.Keys - {ops[|ops| - c.capacity].key} + {key}
              && Set(c, key, value).last == c.entries[c.last.value].next
  {
    if |ops| == 0 {
      FirstSetKeepsShape(c, ops, key, value);
    } else if |ops| < c.capacity {
      GrowSetKeepsShape(c, ops, key, value);
    } else {
      SlideSetKeepsShape(c, ops, key, value);
      SlideSetEvicts(c, ops, key, value);
    }
  }

  /** Dropping the last call keeps a trace of distinct `Set`s, and the last key is fresh for the rest. */
  lemma PrefixDistinct<V>(ops: seq<Op<V>>)
    requires SetsOnly(ops) && DistinctKeys(ops) && ops != []
    ensures var init := ops[..|ops| - 1]; var last := ops[|ops| - 1];
      && SetsOnly(init) && DistinctKeys(init) && Fresh(init, last.key)
      && init + [SetOp(last.key, last.value)] == ops
  {
    var last := ops[|ops| - 1];
    assert SetOp(last.key, last.value) == last;
  }

  /**
   The state after any trace of distinct `Set`s on a fresh cache of capacity
   at least 2 has the shape above.
   */
  lemma {:induction false} DistinctSetsShape<V>(capacity: int, c0: Lrucache<V>, ops: seq<Op<V>>)
    requires capacity >= 2 && NewLrucache<V>(capacity) == Success(c0)
    requires SetsOnly(ops) && DistinctKeys(ops)
    ensures FifoShape(Run(c0, ops), ops)
    decreases |ops|
  {
    if ops != [] {
      var init := ops[..|ops| - 1];
      var last := ops[|ops| - 1];
      PrefixDistinct(ops);
      DistinctSetsShape(capacity, c0, init);
      var c := Run(c0, init);
      assert Run(c0, ops) == Step(c, last);
      assert Step(c, last) == Set(c, last.key, last.value);
      SetKeepsFifoShape(c, init, last.key, last.value);
    }
  }

  /**
   In the shape, `Len` is the smaller of the number of calls and the
   capacity, and the readable keys are exactly those of the calls from
   `Oldest` on, each with the value it was set to.
   */
  lemma ShapeReadsNewest<V>(c: Lrucache<V>, ops: seq<Op<V>>)
    requires FifoShape(c, ops) && DistinctKeys(ops)
    ensures Len(c) == if |ops| <= c.capacity then |ops| else c.capacity
    ensures forall i :: Oldest(|ops|, c.capacity) <= i < |ops| ==> Get(c, ops[i].key) == Some(ops[i].value)
    ensures forall i :: 0 <= i < Oldest(|ops|, c.capacity) ==> Get(c, ops[i].key).None?
  {
  }

  /**
   On a fresh cache of capacity at least 2 fed distinct `Set`s, `Len` never
   exceeds the capacity: it is the smaller of the number of calls and the
   capacity. The keys still readable are exactly those of the last
   `capacity` calls, each with the value it was set to.
   */
  lemma DistinctSetsWithinCapacity<V>(capacity: int, c0: Lrucache<V>, ops: seq<Op<V>>)
    requires capacity >= 2 && NewLrucache<V>(capacity) == Success(c0)
    requires SetsOnly(ops) && DistinctKeys(ops)
    ensures Len(Run(c0, ops)) <= capacity
    ensures Len(Run(c0, ops)) == if |ops| <= capacity then |ops| else capacity
    ensures forall i :: Oldest(|ops|, capacity) <= i < |ops| ==> Get(Run(c0, ops), ops[i].key) == Some(ops[i].value)
    ensures forall i :: 0 <= i < Oldest(|ops|, capacity) ==> Get(Run(c0, ops), ops[i].key).None?
  {
    DistinctSetsShape(capacity, c0, ops);
    ShapeReadsNewest(Run(c0, ops), ops);
  }

  /**
   Once full, each further distinct `Set` unbinds the key of call
   `|ops| - capacity`, the oldest call still bound, binds the new key and
   nothing else, and `last` advances along the `next` link of the old
   `last`. (`DistinctSetsShape` says every fresh trace reaches the shape.)
   */
  lemma ShapeFullSet<V>(c: Lrucache<V>, ops: seq<Op<V>>, key: string, value: V)
    requires FifoShape(c, ops) && DistinctKeys(ops) && Fresh(ops, key) && |ops| >= c.capacity
    ensures ops[|ops| - c.capacity].key in c.cache
    ensures forall i :: 0 <= i < |ops| - c.capacity ==> ops[i].key !in c.cache
    ensures Set(c, key, value).cache.Keys == c.cache.Keys - {ops[|ops| - c.capacity].key} + {key}
    ensures c.last == Some(|ops| - c.capacity)
    ensures Set(c, key, value).last == c.entries[|ops| - c.capacity].next == Some(|ops| - c.capacity + 1)
  {
    assert Oldest(|ops|, c.capacity) == |ops| - c.capacity;
    OlderUnbound(c, ops);
    SlideSetEvicts(c, ops, key, value);
  }

  /** The keys of the calls before `Oldest` are no longer bound. */
  lemma OlderUnbound<V>(c: Lrucache<V>, ops: seq<Op<V>>)
    requires FifoShape(c, ops) && DistinctKeys(ops)
    ensures forall i :: 0 <= i < Oldest(|ops|, c.capacity) ==> ops[i].key !in c.cache
  {
  }

  /**
   `Get` and `Len` calls may be interleaved freely: if the writes of a trace
   are distinct `Set`s, the bound still holds.
   */
  lemma DistinctWritesWithinCapacity<V>(capacity: int, c0: Lrucache<V>, ops: seq<Op<V>>)
    requires capacity >= 2 && NewLrucache<V>(capacity) == Success(c0)
    requires SetsOnly(Writes(ops)) && DistinctKeys(Writes(ops))
    ensures Len(Run(c0, ops)) <= capacity
  {
    ReadsDoNotAffectState(c0, ops);
    DistinctSetsWithinCapacity(capacity, c0, Writes(ops));
  }
}
