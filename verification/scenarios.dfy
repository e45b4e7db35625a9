/**
 Concrete runs. The first lemmas replay the repository's basic test on the
 model; the rest exhibit the paths on which the chain ends go stale, the
 eviction step stops deleting anything and the map outgrows the capacity.
 */
module Scenarios {
  import opened Wrappers
  import opened LruCache
  import opened Trace
  import opened Fifo

  /**
   Capacity 1: the first `Set` links its entry to itself, so after the second
   `Set` evicts it, `last` still names that removed entry. The third `Set`
   deletes the key of that entry, which is no longer bound, and nothing is
   evicted: three distinct keys leave two bound.
   */
  lemma CapacityOneOverflows()
    ensures var c0 := NewLrucache<int>(1).value;
      Len(Set(Set(Set(c0, "a", 1), "b", 2), "c", 3)) == 2
  {
    var c0 := NewLrucache<int>(1).value;
    OneA(c0);
    OneB();
    SetWithStaleLast(OneStateB(), "c", 3);
  }

  /** Capacity 1 after setting "a": one entry, linked to itself. */
  lemma OneA(c0: Lrucache<int>)
    requires NewLrucache<int>(1) == Success(c0)
    ensures Set(c0, "a", 1) == Lrucache(1, map["a" := 0], Some(0), Some(0), [Entry("a", 1, Some(0), Some(0))])
  {
    var c1 := Allocate(c0, "a", 1);
    assert !EvictionDue(c1);
  }

  /** Capacity 1 after setting "a" and "b": `last` still names the entry of "a". */
  function OneStateB(): Lrucache<int>
  {
    Lrucache(1, map["b" := 1], Some(1), Some(0), [Entry("a", 1, Some(1), Some(0)), Entry("b", 2, None, Some(0))])
  }

  /** Setting "b" evicts "a" through the self-loop, which leaves `last` where it was. */
  lemma OneB()
    ensures Set(Lrucache(1, map["a" := 0], Some(0), Some(0), [Entry("a", 1, Some(0), Some(0))]), "b", 2) == OneStateB()
  {
    var c := Lrucache(1, map["a" := 0], Some(0), Some(0), [Entry("a", 1, Some(0), Some(0))]);
    var c1 := Allocate(c, "b", 2);
    assert EvictionDue(c1) && c1.entries[0].key == "a";
    var c2 := Evict(c1);
    assert c2 == c1.(cache := map[]);
    assert StartChain(c2, "b", 1) == c2;
    assert LinkFirst(c2, "b", 1).entries == OneStateB().entries;
  }

  /**
   The basic test: capacities -1 and 0 are refused; six distinct keys set in
   any order (the test takes them from a Go map, whose order is unspecified)
   into capacity 5 leave five bound; a deleted key is no longer found; and
   after `Flush` the length is 0.
   */
  lemma BasicFunctions(ops: seq<Op<int>>)
    requires |ops| == 6 && SetsOnly(ops) && DistinctKeys(ops)
    ensures NewLrucache<int>(-1).Failure? && NewLrucache<int>(0).Failure?
    ensures NewLrucache<int>(5).Success?
    ensures var c := Run(NewLrucache<int>(5).value, ops);
      && Len(c) == 5
      && Get(Del(c, "d"), "d").None?
      && Len(Flush(Del(c, "d"))) == 0
  {
    var c := Run(NewLrucache<int>(5).value, ops);
    DistinctSetsWithinCapacity(5, NewLrucache<int>(5).value, ops);
    DelRemovesOnlyKey(c, "d");
  }

  /**
   Six keys set in the order a..f into capacity 5: the first inserted, "a",
   is the one evicted, and "f" reads its value.
   */
  lemma SixIntoFive()
    ensures var ops := [SetOp("a", 1), SetOp("b", 2), SetOp("c", 3), SetOp("d", 4), SetOp("e", 5), SetOp("f", 6)];
      var c := Run(NewLrucache<int>(5).value, ops);
      && Len(c) == 5
      && Get(c, "a").None?
      && Get(c, "f") == Some(6)
  {
    var ops := [SetOp("a", 1), SetOp("b", 2), SetOp("c", 3), SetOp("d", 4), SetOp("e", 5), SetOp("f", 6)];
    assert SetsOnly(ops) && DistinctKeys(ops);
    DistinctSetsWithinCapacity(5, NewLrucache<int>(5).value, ops);
    assert Oldest(6, 5) == 1;
    assert ops[0].key == "a" && ops[5].key == "f" && ops[5].value == 6;
  }

  /**
   `Get` does not promote: with capacity 2, setting "a" and "b", reading "a"
   and then setting "c" evicts "a", the first inserted, not "b".
   */
  lemma GetDoesNotPromote(c0: Lrucache<int>, ops: seq<Op<int>>)
    requires NewLrucache<int>(2) == Success(c0)
    requires ops == [SetOp("a", 1), SetOp("b", 2), GetOp("a"), SetOp("c", 3)]
    ensures Get(Run(c0, ops), "a").None?
    ensures Get(Run(c0, ops), "b") == Some(2)
    ensures Get(Run(c0, ops), "c") == Some(3)
  {
    WritesSkipGet(ops);
    var w := Writes(ops);
    ReadsDoNotAffectState(c0, ops);
    DistinctSetsWithinCapacity(2, c0, w);
    assert Oldest(3, 2) == 1;
  }

  /** The writes of that trace are its three `Set`s. */
  lemma WritesSkipGet(ops: seq<Op<int>>)
    requires ops == [SetOp("a", 1), SetOp("b", 2), GetOp("a"), SetOp("c", 3)]
    ensures var w := Writes(ops);
      && |w| == 3 && w[0] == SetOp("a", 1) && w[1] == SetOp("b", 2) && w[2] == SetOp("c", 3)
      && SetsOnly(w) && DistinctKeys(w)
  {
    var p1, p2, p3 := ops[..1], ops[..2], ops[..3];
    assert p1[..0] == [] && p2[..1] == p1 && p3[..2] == p2;
    assert Writes(p1) == [SetOp("a", 1)];
    assert Writes(p2) == [SetOp("a", 1), SetOp("b", 2)];
    assert Writes(p3) == Writes(p2);
    var w := [SetOp("a", 1), SetOp("b", 2), SetOp("c", 3)];
    assert Writes(ops) == w;
    assert SetsOnly(w) && DistinctKeys(w);
  }

  /** A map binding three distinct keys has length 3. */
  lemma LenOfThree(c: Lrucache<int>, x: string, y: string, z: string, i: nat, j: nat, k: nat)
    requires x != y && y != z && x != z
    requires c.cache == map[x := i, y := j, z := k]
    ensures Len(c) == 3
  {
    assert z !in map[x := i, y := j];
    assert y !in map[x := i];
  }

  /** The state after setting "a" then "b" on a fresh cache of capacity 2. */
  lemma TwoSets(c0: Lrucache<int>)
    requires NewLrucache<int>(2) == Success(c0)
    ensures Set(Set(c0, "a", 1), "b", 2) == AB()
  {
    var c1 := Set(c0, "a", 1);
    assert c1 == Lrucache(2, map["a" := 0], Some(0), Some(0), [Entry("a", 1, Some(0), Some(0))]);
  }

  /** "a" and "b" bound in capacity 2; "a" is the oldest and links to itself backwards. */
  function AB(): Lrucache<int>
  {
    Lrucache(2, map["a" := 0, "b" := 1], Some(1), Some(0),
             [Entry("a", 1, Some(1), Some(0)), Entry("b", 2, None, Some(0))])
  }

  /** The chain of `AB` with "c" appended, under the given map. */
  function ABC(cache: map<string, nat>): Lrucache<int>
  {
    Lrucache(2, cache, Some(2), Some(0),
             [Entry("a", 1, Some(1), Some(0)), Entry("b", 2, Some(2), Some(0)), Entry("c", 3, None, Some(1))])
  }

  /**
   Deleting the oldest key "a" of `AB` patches the links of "b" and of "a"
   itself to the values they already had, and leaves both chain ends.
   */
  lemma DelA()
    ensures Del(AB(), "a") == AB().(cache := map["b" := 1])
  {
    var es := AB().entries;
    var es1 := es[1 := es[1].(prev := Some(0))];
    assert es1 == es;
    var es2 := es1[0 := es1[0].(next := Some(1))];
    assert es2 == es;
    assert AB().cache - {"a"} == map["b" := 1];
  }

  /** Below capacity, setting "c" chains it after "b" and leaves `last` on "a". */
  lemma SetCBelowCapacity(cache: map<string, nat>)
    requires cache == map["b" := 1] || cache == map[]
    ensures Set(AB().(cache := cache), "c", 3) == ABC(cache["c" := 2])
  {
    var c := AB().(cache := cache);
    var c1 := Allocate(c, "c", 3);
    assert c1.entries == [Entry("a", 1, Some(1), Some(0)), Entry("b", 2, None, Some(0)), Entry("c", 3, None, None)];
    assert !EvictionDue(c1);
    assert StartChain(Evict(c1), "c", 2) == c1;
    var r := LinkFirst(c1, "c", 2);
    assert r.entries == ABC(cache["c" := 2]).entries;
    assert Set(c, "c", 3) == r;
  }

  /**
   With "a" unbound but `last` still on its entry, the eviction deletes
   nothing: it only moves `last` to "b".
   */
  lemma SetDAfterStaleLast(c: Lrucache<int>)
    requires c == ABC(map["b" := 1, "c" := 2])
    ensures Set(c, "d", 4).cache == map["b" := 1, "c" := 2, "d" := 3]
  {
    SetWithStaleLast(c, "d", 4);
  }

  /** The same stale eviction after `Flush` and two refills. */
  lemma SetEAfterStaleLast(c: Lrucache<int>)
    requires c == ABCD(map["c" := 2, "d" := 3])
    ensures Set(c, "e", 5).cache == map["c" := 2, "d" := 3, "e" := 4]
  {
    SetWithStaleLast(c, "e", 5);
  }

  /**
   Deleting the oldest key leaves `last` on the removed entry. Two `Set`s
   later the eviction deletes that entry's key, which is no longer bound,
   and the map holds three keys in a cache of capacity 2.
   */
  lemma DelOldestOverflows(c0: Lrucache<int>)
    requires NewLrucache<int>(2) == Success(c0)
    ensures Len(Set(Set(Del(Set(Set(c0, "a", 1), "b", 2), "a"), "c", 3), "d", 4)) == 3
  {
    TwoSets(c0);
    DelA();
    SetCBelowCapacity(map["b" := 1]);
    var c4 := ABC(map["b" := 1, "c" := 2]);
    SetDAfterStaleLast(ABC(map["b" := 1, "c" := 2]));
    LenOfThree(Set(c4, "d", 4), "b", "c", "d", 1, 2, 3);
  }

  /**
   Deleting the newest key "b" of `AB` sets the `next` of "a" to nil and
   leaves both chain ends, so `first` still names the entry of "b".
   */
  function ANoB(): Lrucache<int>
  {
    Lrucache(2, map["a" := 0], Some(1), Some(0),
             [Entry("a", 1, None, Some(0)), Entry("b", 2, None, Some(0))])
  }

  /** `Del` of "b" on `AB` gives `ANoB`. */
  lemma DelB()
    ensures Del(AB(), "b") == ANoB()
  {
    assert AB().cache - {"b"} == map["a" := 0];
  }

  /** "c" chained after the unbound entry of "b"; the entry of "a" still ends in nil. */
  function ANC(): Lrucache<int>
  {
    Lrucache(2, map["a" := 0, "c" := 2], Some(2), Some(0),
             [Entry("a", 1, None, Some(0)), Entry("b", 2, Some(2), Some(0)), Entry("c", 3, None, Some(1))])
  }

  /** Below capacity, setting "c" links it after the stale `first`. */
  lemma SetCAfterDelNewest()
    ensures Set(ANoB(), "c", 3) == ANC()
  {
    var c1 := Allocate(ANoB(), "c", 3);
    assert !EvictionDue(c1);
    assert StartChain(Evict(c1), "c", 2) == c1;
  }

  /**
   Deleting the newest key leaves the older neighbour with a nil `next`.
   When the next eviction is due it deletes "a" and moves `last` along that
   nil link, after which the guard never fires: capacity 2 ends with three
   keys bound.
   */
  lemma DelNewestStopsEviction(c0: Lrucache<int>)
    requires NewLrucache<int>(2) == Success(c0)
    ensures var c := Set(Set(Del(Set(Set(c0, "a", 1), "b", 2), "b"), "c", 3), "d", 4);
      && c.last.None?
      && Len(Set(c, "e", 5)) == 3
  {
    TwoSets(c0);
    DelB();
    SetCAfterDelNewest();
    ANCFull(ANC());
    SetDLeavesNilLast(ANC());
    SetDAfterDelNewest(ANC());
    var c4 := Set(ANC(), "d", 4);
    SetWithNilLast(c4, "e", 5);
    LenOfThree(Set(c4, "e", 5), "c", "d", "e", 2, 3, 4);
  }

  /** `ANC` is a reachable state in which the eviction is due. */
  lemma ANCFull(c: Lrucache<int>)
    requires c == ANC()
    ensures Valid(c) && EvictionDue(c) && c.entries[c.last.value].key == "a"
    ensures Victim(c) == {"a"}
  {
    assert "c" !in map["a" := 0];
  }

  /** The eviction moves `last` along the nil `next` of "a". */
  lemma SetDLeavesNilLast(c: Lrucache<int>)
    requires Valid(c) && EvictionDue(c) && c.entries[c.last.value].next.None?
    ensures Set(c, "d", 4).last.None?
  {
    SetMovesLast(c, "d", 4);
  }

  /** The eviction deletes "a", which is still bound. */
  lemma SetDAfterDelNewest(c: Lrucache<int>)
    requires Valid(c) && |c.entries| == 3 && c.cache == map["a" := 0, "c" := 2] && Victim(c) == {"a"}
    ensures Set(c, "d", 4).cache == map["c" := 2, "d" := 3]
  {
    SetRebinds(c, "d", 4);
    DropARebindD();
  }

  /** The map arithmetic of that eviction. */
  lemma DropARebindD()
    ensures (map["a" := 0, "c" := 2] - {"a"})["d" := 3] == map["c" := 2, "d" := 3]
  {
  }

  /**
   `Flush` empties the map but leaves the chain: `last` still names the
   first entry, so refilling capacity 2 ends with three keys bound.
   */
  lemma FlushRefillOverflows(c0: Lrucache<int>)
    requires NewLrucache<int>(2) == Success(c0)
    ensures Len(Set(Set(Set(Flush(Set(Set(c0, "a", 1), "b", 2)), "c", 3), "d", 4), "e", 5)) == 3
  {
    TwoSets(c0);
    assert Flush(AB()) == AB().(cache := map[]);
    SetCBelowCapacity(map[]);
    SetDAfterFlush();
    var c5 := ABCD(map["c" := 2, "d" := 3]);
    SetEAfterStaleLast(ABCD(map["c" := 2, "d" := 3]));
    LenOfThree(Set(c5, "e", 5), "c", "d", "e", 2, 3, 4);
  }

  /** The chain of `ABC` with "d" appended, under the given map; `last` is still on "a". */
  function ABCD(cache: map<string, nat>): Lrucache<int>
  {
    Lrucache(2, cache, Some(3), Some(0),
             [Entry("a", 1, Some(1), Some(0)), Entry("b", 2, Some(2), Some(0)),
              Entry("c", 3, Some(3), Some(1)), Entry("d", 4, None, Some(2))])
  }

  /** After `Flush` only "c" is bound, so setting "d" evicts nothing and `last` stays on "a". */
  lemma SetDAfterFlush()
    ensures Set(ABC(map["c" := 2]), "d", 4) == ABCD(map["c" := 2, "d" := 3])
  {
    var c1 := Allocate(ABC(map["c" := 2]), "d", 4);
    assert !EvictionDue(c1);
    assert StartChain(Evict(c1), "d", 3) == c1;
    var r := LinkFirst(c1, "d", 3);
    assert r.entries == ABCD(map["c" := 2, "d" := 3]).entries;
  }

  /**
   Re-setting a present key in a full cache still evicts: with "a" and "b"
   bound in capacity 2, setting "b" again unbinds "a" and leaves `last` on
   the superseded entry of "b".
   */
  lemma ResetPresentEvicts(c0: Lrucache<int>)
    requires NewLrucache<int>(2) == Success(c0)
    ensures var c := Set(Set(Set(c0, "a", 1), "b", 2), "b", 20);
      && c.cache == map["b" := 2]
      && c.last == Some(1) && c.entries[1].key == "b"
      && Get(c, "a").None?
  {
    TwoSets(c0);
    ResetB();
  }

  /** The state after "a", "b" and "b" again in capacity 2. */
  function ABB(): Lrucache<int>
  {
    Lrucache(2, map["b" := 2], Some(2), Some(1),
             [Entry("a", 1, Some(1), Some(0)), Entry("b", 2, Some(2), Some(0)), Entry("b", 20, None, Some(1))])
  }

  /** Setting "b" again after "a", "b" in capacity 2. */
  lemma ResetB()
    ensures Set(AB(), "b", 20) == ABB()
  {
    var c1 := Allocate(AB(), "b", 20);
    assert c1.entries == [Entry("a", 1, Some(1), Some(0)), Entry("b", 2, None, Some(0)), Entry("b", 20, None, None)];
    assert EvictionDue(c1);
    var c2 := Evict(c1);
    assert c2 == c1.(cache := map["b" := 1], last := Some(1));
    assert StartChain(c2, "b", 2) == c2;
    var es := WithPrev(c2.entries, 2, Some(1));
    assert es == [Entry("a", 1, Some(1), Some(0)), Entry("b", 2, None, Some(0)), Entry("b", 20, None, Some(1))];
    var es1 := WithNext(es, 1, Some(2));
    assert es1 == ABB().entries;
    assert LinkFirst(c2, "b", 2) == c2.(entries := es1, first := Some(2), cache := map["b" := 2]);
  }

  /** `ABB` with "c" appended: one key is bound, so nothing is evicted. */
  function ABBC(): Lrucache<int>
  {
    Lrucache(2, map["b" := 2, "c" := 3], Some(3), Some(1),
             [Entry("a", 1, Some(1), Some(0)), Entry("b", 2, Some(2), Some(0)),
              Entry("b", 20, Some(3), Some(1)), Entry("c", 3, None, Some(2))])
  }

  /** Setting "c" on `ABB` gives `ABBC`. */
  lemma SetCAfterReset()
    ensures Set(ABB(), "c", 3) == ABBC()
  {
    var c1 := Allocate(ABB(), "c", 3);
    assert !EvictionDue(c1);
    assert StartChain(Evict(c1), "c", 3) == c1;
    var r := LinkFirst(c1, "c", 3);
    assert r.entries == ABBC().entries;
  }

  /**
   `ABBC` with "d" appended. `last` names the superseded entry of "b", so
   the eviction deletes the live "b" entry and `last` moves onto it.
   */
  function ABBCD(): Lrucache<int>
  {
    Lrucache(2, map["c" := 3, "d" := 4], Some(4), Some(2),
             [Entry("a", 1, Some(1), Some(0)), Entry("b", 2, Some(3), Some(0)),
              Entry("b", 20, Some(3), Some(1)), Entry("c", 3, Some(4), Some(1)), Entry("d", 4, None, Some(3))])
  }

  /** Setting "d" on `ABBC` gives `ABBCD`, by its eviction and linking steps. */
  lemma SetDAfterReset()
    ensures Set(ABBC(), "d", 4) == ABBCD()
  {
    EvictAfterReset();
    assert StartChain(ABBCEvicted(), "d", 4) == ABBCEvicted();
    LinkAfterReset();
  }

  /** The state inside that `Set` after its eviction step, with "d" allocated but not linked. */
  function ABBCEvicted(): Lrucache<int>
  {
    Lrucache(2, map["c" := 3], Some(3), Some(2),
             [Entry("a", 1, Some(1), Some(0)), Entry("b", 2, Some(3), Some(0)),
              Entry("b", 20, Some(3), Some(1)), Entry("c", 3, None, Some(1)), Entry("d", 4, None, None)])
  }

  /**
   The eviction step of that `Set`: `last` names the superseded entry of "b",
   so `Del("b")` unlinks the live entry of "b" instead, and `last` moves to it.
   */
  lemma EvictAfterReset()
    ensures Evict(Allocate(ABBC(), "d", 4)) == ABBCEvicted()
  {
    var c1 := Allocate(ABBC(), "d", 4);
    assert EvictionDue(c1) && c1.entries[1].key == "b" && c1.cache["b"] == 2;
    var a, b, b20, c, d := Entry("a", 1, Some(1), Some(0)), Entry("b", 2, Some(2), Some(0)),
                           Entry("b", 20, Some(3), Some(1)), Entry("c", 3, None, Some(2)), Entry("d", 4, None, None);
    assert c1.entries == [a, b, b20, c, d];
    var es1 := WithPrev(c1.entries, 3, Some(1));
    assert es1 == [a, b, b20, c.(prev := Some(1)), d];
    var es2 := WithNext(es1, 1, Some(3));
    assert es2 == [a, b.(next := Some(3)), b20, c.(prev := Some(1)), d];
    assert c1.cache - {"b"} == map["c" := 3];
    assert Del(c1, "b") == c1.(entries := es2, cache := map["c" := 3]);
  }

  /** The linking step of that `Set`: "d" goes after "c", the old `first`. */
  lemma LinkAfterReset()
    ensures LinkFirst(ABBCEvicted(), "d", 4) == ABBCD()
  {
    var c := ABBCEvicted();
    var es := WithPrev(c.entries, 4, Some(3));
    var es1 := WithNext(es, 3, Some(4));
    assert es1 == ABBCD().entries;
  }

  /** `last` now names an entry of "b", which is unbound: setting "e" evicts nothing. */
  lemma SetEAfterReset(c: Lrucache<int>)
    requires c == ABBCD()
    ensures Set(c, "e", 5).cache == map["c" := 3, "d" := 4, "e" := 5]
  {
    SetWithStaleLast(c, "e", 5);
  }

  /**
   After re-setting a present key, the chain holds a superseded entry, and
   three more distinct `Set`s into capacity 2 end with three keys bound.
   */
  lemma ResetPresentOverflows(c0: Lrucache<int>)
    requires NewLrucache<int>(2) == Success(c0)
    ensures Len(Set(Set(Set(Set(Set(Set(c0, "a", 1), "b", 2), "b", 20), "c", 3), "d", 4), "e", 5)) == 3
  {
    TwoSets(c0);
    ResetB();
    SetCAfterReset();
    SetDAfterReset();
    SetEAfterReset(ABBCD());
    LenOfThree(Set(ABBCD(), "e", 5), "c", "d", "e", 3, 4, 5);
  }
}
