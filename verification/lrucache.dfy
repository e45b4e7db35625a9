/**
 A model of the Go `Lrucache`: a string-keyed cache made of a map index and a
 hand-built doubly linked chain of entries.

 Pointers are modelled as indices into an arena `entries`. The Go code never
 frees an entry while the chain can still reach it (removed entries stay
 reachable through `last` and `prev`), so the arena only ever grows: a new
 entry is appended by every `Set`, and `Del` and `Flush` keep the arena's
 length and payloads (`Del` only rewrites the neighbours' links).
 `next` points toward newer entries and `prev` toward older ones; `first` is
 the newest insertion and `last` the oldest.
 */
module LruCache {
  import opened Wrappers

  /** One Go `entry`: key, opaque payload and the two chain links. */
  datatype Entry<V> = Entry(key: string, value: V, next: Option<nat>, prev: Option<nat>)

  /** The Go `Lrucache` struct: capacity, index map and the two chain ends. */
  datatype Lrucache<V> = Lrucache(
    capacity: int,
    cache: map<string, nat>,
    first: Option<nat>,
    last: Option<nat>,
    entries: seq<Entry<V>>)

  /** A link is nil or names an entry of the arena. */
  predicate InArena<V>(c: Lrucache<V>, p: Option<nat>)
  {
    LinkIn(p, |c.entries|)
  }

  /**
   The shape every reachable cache has: every pointer is nil or into the arena,
   the map sends each key to an entry carrying that key, and a nil `first`
   means the chain was never started.
   */
  predicate Valid<V>(c: Lrucache<V>)
  {
    && InArena(c, c.first)
    && InArena(c, c.last)
    && (c.first.None? ==> c.last.None?)
    && KeysIndexed(c.cache, c.entries)
    && LinksInArena(c.entries)
  }

  /** The map sends each key to an entry of `es` that carries that key. */
  predicate KeysIndexed<V>(cache: map<string, nat>, es: seq<Entry<V>>)
  {
    forall k :: k in cache ==> cache[k] < |es| && es[cache[k]].key == k
  }

  /** Every `next` and `prev` link of `es` is nil or names an entry of `es`. */
  predicate LinksInArena<V>(es: seq<Entry<V>>)
  {
    forall i :: 0 <= i < |es| ==> LinkIn(es[i].next, |es|) && LinkIn(es[i].prev, |es|)
  }

  /** A link is nil or below `n`. */
  predicate LinkIn(p: Option<nat>, n: nat)
  {
    p.None? || p.value < n
  }

  /** Entries `0 .. |c.entries|-1` of `r` carry the same key and value as in `c`. */
  ghost predicate SamePayloads<V>(c: Lrucache<V>, r: Lrucache<V>)
  {
    && |c.entries| <= |r.entries|
    && forall i :: 0 <= i < |c.entries| ==>
         r.entries[i].key == c.entries[i].key && r.entries[i].value == c.entries[i].value
  }

  /** Go `NewLrucache`: refuses a non-positive capacity, else an empty cache with no chain. */
  function NewLrucache<V>(capacity: int): (r: Result<Lrucache<V>, string>)
    ensures r.Failure? <==> capacity <= 0
    ensures r.Failure? ==> r.error == "invalid capacity"
    ensures r.Success? ==>
              && r.value.capacity == capacity
              && r.value.cache == map[]
              && r.value.first.None? && r.value.last.None?
              && r.value.entries == []
              && Valid(r.value)
  {
    if capacity <= 0 then Failure("invalid capacity")
    else Success(Lrucache(capacity, map[], None, None, []))
  }

  /** Go `Len`: the number of keys in the index map (the chain is not consulted). */
  function Len<V>(c: Lrucache<V>): (n: nat)
  {
    |c.cache|
  }

  /** Go `Get`: the payload of the entry the map holds for `key`, if any; `None` is `(nil, false)`. */
  function Get<V>(c: Lrucache<V>, key: string): (r: Option<V>)
    requires Valid(c)
    ensures r.Some? <==> key in c.cache
    ensures r.Some? ==> r.value == c.entries[c.cache[key]].value
  {
    if key in c.cache then Some(c.entries[c.cache[key]].value) else None
  }

  /**
   Go `del`: unlink the entry the map holds for `key` from its neighbours and
   drop the key from the map. The neighbours are patched in the code's order
   (first the newer neighbour's `prev`, then the older neighbour's `next`,
   reading the entry's links afresh), and `first`/`last` are never touched.
   */
  function Del<V>(c: Lrucache<V>, key: string): (r: Lrucache<V>)
    requires Valid(c)
    ensures Valid(r)
    ensures r.cache == c.cache - {key}
    ensures r.capacity == c.capacity && r.first == c.first && r.last == c.last
    ensures |r.entries| == |c.entries| && SamePayloads(c, r)
    ensures key !in c.cache ==> r == c
    ensures key in c.cache ==>
              var e := c.cache[key];
              var n := c.entries[e].next;
              var p := c.entries[e].prev;
              && (n.Some? ==> r.entries[n.value].prev == p)
              && (p.Some? ==> r.entries[p.value].next == n)
              && forall i :: 0 <= i < |c.entries| && Some(i) != n && Some(i) != p ==> r.entries[i] == c.entries[i]
    ensures key in c.cache ==>
              var e := c.cache[key];
              var n := c.entries[e].next;
              var p := c.entries[e].prev;
              && (n.Some? && n != p ==> r.entries[n.value].next == c.entries[n.value].next)
              && (p.Some? && p != n ==> r.entries[p.value].prev == c.entries[p.value].prev)
  {
    if key !in c.cache then c
    else
      var e := c.cache[key];
      var es := c.entries;
      var es1 := if es[e].next.Some? then WithPrev(es, es[e].next.value, es[e].prev) else es;
      var es2 := if es1[e].prev.Some? then WithNext(es1, es1[e].prev.value, es1[e].next) else es1;
      c.(entries := es2, cache := c.cache - {key})
  }

  /** `es` with the `prev` link of entry `n` replaced by `p`; nothing else changes. */
  function WithPrev<V>(es: seq<Entry<V>>, n: nat, p: Option<nat>): (r: seq<Entry<V>>)
    requires n < |es|
    ensures |r| == |es| && r[n].prev == p
    ensures forall i :: 0 <= i < |es| ==>
              r[i].key == es[i].key && r[i].value == es[i].value && r[i].next == es[i].next
    ensures forall i :: 0 <= i < |es| && i != n ==> r[i] == es[i]
  {
    es[n := es[n].(prev := p)]
  }

  /** `es` with the `next` link of entry `n` replaced by `q`; nothing else changes. */
  function WithNext<V>(es: seq<Entry<V>>, n: nat, q: Option<nat>): (r: seq<Entry<V>>)
    requires n < |es|
    ensures |r| == |es| && r[n].next == q
    ensures forall i :: 0 <= i < |es| ==>
              r[i].key == es[i].key && r[i].value == es[i].value && r[i].prev == es[i].prev
    ensures forall i :: 0 <= i < |es| && i != n ==> r[i] == es[i]
  {
    es[n := es[n].(next := q)]
  }

  /** The eviction guard of `set`: the map is exactly full and `last` is not nil. */
  predicate EvictionDue<V>(c: Lrucache<V>)
  {
    Len(c) == c.capacity && c.last.Some?
  }

  /**
   The key whose binding an eviction removes: the key stored in the `last`
   entry, when the map still binds it. When the map does not, the eviction
   step deletes nothing.
   */
  function Victim<V>(c: Lrucache<V>): (s: set<string>)
    requires Valid(c)
    ensures |s| <= 1 && s <= c.cache.Keys
  {
    if EvictionDue(c) && c.entries[c.last.value].key in c.cache
    then {c.entries[c.last.value].key} else {}
  }

  /** `set` step 1: allocate the new entry, unlinked, at the end of the arena. */
  function Allocate<V>(c: Lrucache<V>, key: string, value: V): (r: Lrucache<V>)
    requires Valid(c)
    ensures Valid(r) && SamePayloads(c, r) && |r.entries| == |c.entries| + 1
    ensures r.entries[|c.entries|] == Entry(key, value, None, None)
    ensures forall i :: 0 <= i < |c.entries| ==> r.entries[i] == c.entries[i]
    ensures r.capacity == c.capacity && r.cache == c.cache && r.first == c.first && r.last == c.last
    ensures EvictionDue(r) == EvictionDue(c) && Victim(r) == Victim(c)
  {
    c.(entries := c.entries + [Entry(key, value, None, None)])
  }

  /** `set` step 2: when full, delete the key of `last` and move `last` one step along `next`. */
  function Evict<V>(c: Lrucache<V>): (r: Lrucache<V>)
    requires Valid(c)
    ensures Valid(r) && SamePayloads(c, r) && |r.entries| == |c.entries|
    ensures r.capacity == c.capacity && r.first == c.first
    ensures r.cache == c.cache - Victim(c)
    ensures r.last == if EvictionDue(c) then c.entries[c.last.value].next else c.last
    ensures !EvictionDue(c) ==> r == c
    ensures EvictionDue(c) ==> r.entries == Del(c, c.entries[c.last.value].key).entries
  {
    if EvictionDue(c) then
      var nextLast := c.entries[c.last.value].next;
      VictimWhenDue(c);
      WithLast(Del(c, c.entries[c.last.value].key), nextLast)
    else c
  }

  /** When the eviction is due, removing the victim is removing the key of the `last` entry. */
  lemma VictimWhenDue<V>(c: Lrucache<V>)
    requires Valid(c) && EvictionDue(c)
    ensures c.cache - Victim(c) == c.cache - {c.entries[c.last.value].key}
  {
  }

  /** `c` with `last` replaced by the arena link `p`. */
  function WithLast<V>(c: Lrucache<V>, p: Option<nat>): (r: Lrucache<V>)
    requires Valid(c) && InArena(c, p) && c.first.Some?
    ensures Valid(r) && r.entries == c.entries && r.last == p
    ensures r.capacity == c.capacity && r.cache == c.cache && r.first == c.first
  {
    c.(last := p)
  }

  /** `set` step 3: on an empty chain, bind the key and make the new entry both ends. */
  function StartChain<V>(c: Lrucache<V>, key: string, e: nat): (r: Lrucache<V>)
    requires Valid(c) && e < |c.entries| && c.entries[e].key == key
    ensures Valid(r) && r.entries == c.entries && r.capacity == c.capacity
    ensures r.first.Some?
    ensures r.cache[key := e] == c.cache[key := e]
    ensures c.first.Some? ==> r == c
    ensures c.first.None? ==> r.cache == c.cache[key := e]
    ensures c.first.None? ==> r.first == Some(e) && r.last == Some(e)
  {
    if c.first.None? && c.last.None? then
      c.(cache := c.cache[key := e], first := Some(e), last := Some(e))
    else c
  }

  /**
   `set` step 4: link the new entry after `first` and make it `first`. Right
   after step 3 `first` is the new entry itself, which gives the self-loop.
   */
  function LinkFirst<V>(c: Lrucache<V>, key: string, e: nat): (r: Lrucache<V>)
    requires Valid(c) && e < |c.entries| && c.entries[e].key == key && c.first.Some?
    ensures Valid(r) && SamePayloads(c, r) && |r.entries| == |c.entries|
    ensures r.capacity == c.capacity && r.last == c.last && r.first == Some(e)
    ensures r.cache == c.cache[key := e]
    ensures r.entries[e].prev == c.first && r.entries[c.first.value].next == Some(e)
    ensures forall i :: 0 <= i < |c.entries| && i != e && i != c.first.value ==> r.entries[i] == c.entries[i]
    ensures e != c.first.value ==>
              r.entries[e].next == c.entries[e].next && r.entries[c.first.value].prev == c.entries[c.first.value].prev
  {
    var f := c.first.value;
    var es := WithPrev(c.entries, e, Some(f));
    var es1 := WithNext(es, f, Some(e));
    c.(entries := es1, first := Some(e), cache := c.cache[key := e])
  }

  /**
   Go `set`/`Set`: allocate an entry, evict when exactly full (even if `key` is
   already present), then link the entry in as `first` and bind `key` to it.
   What happens to the other keys and to `last` is stated by the lemmas below.
   */
  function Set<V>(c: Lrucache<V>, key: string, value: V): (r: Lrucache<V>)
    requires Valid(c)
    ensures Valid(r)
    ensures r.capacity == c.capacity
    ensures |r.entries| == |c.entries| + 1
    ensures key in r.cache && r.cache[key] == |c.entries|
    ensures r.first == Some(|c.entries|)
  {
    var e := |c.entries|;
    var c1 := Allocate(c, key, value);
    var c2 := Evict(c1);
    var c3 := StartChain(c2, key, e);
    LinkFirst(c3, key, e)
  }

  /**
   After `Set(key, value)` the map binds `key` to the new entry, which holds
   `value`, even when the eviction step of the same call deleted `key`; the
   payload of every older entry is untouched.
   */
  lemma SetStoresValue<V>(c: Lrucache<V>, key: string, value: V)
    requires Valid(c)
    ensures var r := Set(c, key, value);
      && Get(r, key) == Some(value)
      && r.entries[|c.entries|].key == key
      && SamePayloads(c, r)
  {
    var e := |c.entries|;
    var c1 := Allocate(c, key, value);
    var c2 := Evict(c1);
    var c3 := StartChain(c2, key, e);
    var r := LinkFirst(c3, key, e);
    assert r.entries[e].key == key && r.entries[e].value == value;
    SamePayloadsTransitive(c, c1, c2);
    SamePayloadsTransitive(c, c2, r);
  }

  /** Keeping payloads composes. */
  lemma SamePayloadsTransitive<V>(a: Lrucache<V>, b: Lrucache<V>, c: Lrucache<V>)
    requires SamePayloads(a, b) && SamePayloads(b, c)
    ensures SamePayloads(a, c)
  {
  }

  /**
   `Set` removes the binding of the victim (the key of the `last` entry, when
   the map is exactly full and still binds it), binds `key`, and leaves every
   other binding where it was.
   */
  lemma SetRebinds<V>(c: Lrucache<V>, key: string, value: V)
    requires Valid(c)
    ensures Set(c, key, value).cache == (c.cache - Victim(c))[key := |c.entries|]
  {
    var e := |c.entries|;
    var c2 := Evict(Allocate(c, key, value));
    assert c2.cache == c.cache - Victim(c);
    var c3 := StartChain(c2, key, e);
    assert c3.cache[key := e] == c2.cache[key := e];
  }

  /**
   When the eviction is due, `last` moves one step along the `next` link of
   the old `last` entry (which may be nil); otherwise a non-nil `last` stays.
   */
  lemma SetMovesLast<V>(c: Lrucache<V>, key: string, value: V)
    requires Valid(c)
    ensures var r := Set(c, key, value);
      && (EvictionDue(c) ==> r.last == c.entries[c.last.value].next)
      && (!EvictionDue(c) && c.last.Some? ==> r.last == c.last)
  {
    var e := |c.entries|;
    var c2 := Evict(Allocate(c, key, value));
    assert EvictionDue(c) ==> c2.last == c.entries[c.last.value].next;
    assert c.first.Some? ==> StartChain(c2, key, e) == c2;
  }

  /** Go `Flush`: empty the map; the chain, its ends and the capacity stay as they were. */
  function Flush<V>(c: Lrucache<V>): (r: Lrucache<V>)
    requires Valid(c)
    ensures Valid(r)
    ensures Len(r) == 0
    ensures forall k :: Get(r, k).None?
    ensures r.capacity == c.capacity && r.first == c.first && r.last == c.last
    ensures r.entries == c.entries
  {
    c.(cache := map[])
  }
  /** `Len` counts exactly the keys `Get` finds. */
  lemma LenCountsFoundKeys<V>(c: Lrucache<V>, found: set<string>)
    requires Valid(c)
    requires forall k :: k in found <==> Get(c, k).Some?
    ensures Len(c) == |found|
  {
    assert found == c.cache.Keys;
  }

  /**
   Reads after a rebinding: when `r` keeps every payload of `c`, drops the
   victim's binding and binds `key` to a fresh entry holding `value`, every
   other key reads as before and the victim reads nothing.
   */
  lemma RebindReads<V>(c: Lrucache<V>, r: Lrucache<V>, key: string, value: V)
    requires Valid(c) && Valid(r) && SamePayloads(c, r)
    requires r.cache == (c.cache - Victim(c))[key := |c.entries|]
    ensures forall k :: k != key && k !in Victim(c) ==> Get(r, k) == Get(c, k)
    ensures forall k :: k != key && k in Victim(c) ==> Get(r, k).None?
  {
  }

  /**
   `Set` of a key already present while the map is below capacity overwrites
   the binding and evicts nothing: `Len` is unchanged and every other key
   still reads the same value.
   */
  lemma SetPresentBelowCapacity<V>(c: Lrucache<V>, key: string, value: V)
    requires Valid(c) && key in c.cache && Len(c) < c.capacity
    ensures Len(Set(c, key, value)) == Len(c)
    ensures Get(Set(c, key, value), key) == Some(value)
    ensures forall k :: k != key ==> Get(Set(c, key, value), k) == Get(c, k)
  {
    var r := Set(c, key, value);
    SetRebinds(c, key, value);
    SetStoresValue(c, key, value);
    assert Victim(c) == {};
    RebindReads(c, r, key, value);
    assert r.cache == c.cache[key := |c.entries|];
  }

  /** `Set` of an absent key below capacity adds exactly that key. */
  lemma SetAbsentBelowCapacity<V>(c: Lrucache<V>, key: string, value: V)
    requires Valid(c) && key !in c.cache && Len(c) < c.capacity
    ensures Len(Set(c, key, value)) == Len(c) + 1
    ensures Get(Set(c, key, value), key) == Some(value)
    ensures forall k :: k != key ==> Get(Set(c, key, value), k) == Get(c, k)
  {
    var r := Set(c, key, value);
    SetRebinds(c, key, value);
    SetStoresValue(c, key, value);
    assert Victim(c) == {};
    RebindReads(c, r, key, value);
    assert r.cache == c.cache[key := |c.entries|];
  }

  /**
   The eviction check ignores whether `key` is present: in an exactly full
   cache whose `last` entry's key is still bound and differs from `key`,
   setting a present `key` still deletes that other key, so `Len` drops by one.
   */
  lemma SetPresentWhenFullEvicts<V>(c: Lrucache<V>, key: string, value: V)
    requires Valid(c) && key in c.cache && EvictionDue(c)
    requires c.entries[c.last.value].key in c.cache && c.entries[c.last.value].key != key
    ensures c.entries[c.last.value].key !in Set(c, key, value).cache
    ensures Len(Set(c, key, value)) == Len(c) - 1
  {
    var r := Set(c, key, value);
    SetRebinds(c, key, value);
    var v := c.entries[c.last.value].key;
    assert Victim(c) == {v};
    var m := c.cache - {v};
    assert key in m && r.cache == m[key := |c.entries|];
    assert |r.cache| == |m|;
    RemoveOneKey(c.cache, v);
  }

  /** Removing a bound key from a map removes exactly one binding. */
  lemma RemoveOneKey(m: map<string, nat>, v: string)
    requires v in m
    ensures |m - {v}| == |m| - 1
  {
    assert (m - {v}).Keys == m.Keys - {v};
  }

  /**
   When the map is exactly full but the `last` entry's key is no longer bound
   (it was deleted, flushed or rebound), the eviction step deletes nothing:
   `Set` of a new key then takes the map past its capacity.
   */
  lemma SetWithStaleLast<V>(c: Lrucache<V>, key: string, value: V)
    requires Valid(c) && EvictionDue(c) && c.entries[c.last.value].key !in c.cache
    ensures Set(c, key, value).cache == c.cache[key := |c.entries|]
    ensures key !in c.cache ==> Len(Set(c, key, value)) == c.capacity + 1
  {
    SetRebinds(c, key, value);
    assert Victim(c) == {};
  }

  /**
   On a started chain whose `last` is nil the eviction guard cannot fire:
   `Set` leaves `last` nil, so it stays nil for every later `Set`, and the
   call only adds the binding of `key`.
   */
  lemma SetWithNilLast<V>(c: Lrucache<V>, key: string, value: V)
    requires Valid(c) && c.first.Some? && c.last.None?
    ensures Set(c, key, value).last.None?
    ensures Set(c, key, value).cache == c.cache[key := |c.entries|]
    ensures key !in c.cache ==> Len(Set(c, key, value)) == Len(c) + 1
  {
    var e := |c.entries|;
    var c2 := Evict(Allocate(c, key, value));
    assert c2.last.None?;
    assert StartChain(c2, key, e) == c2;
    SetRebinds(c, key, value);
    assert Victim(c) == {};
  }

  /**
   Every key other than `key` and the victim reads the same value after `Set`
   as before; the victim reads nothing.
   */
  lemma SetKeepsOthers<V>(c: Lrucache<V>, key: string, value: V)
    requires Valid(c)
    ensures forall k :: k != key && k !in Victim(c) ==> Get(Set(c, key, value), k) == Get(c, k)
    ensures forall k :: k != key && k in Victim(c) ==> Get(Set(c, key, value), k).None?
  {
    SetRebinds(c, key, value);
    SetStoresValue(c, key, value);
    RebindReads(c, Set(c, key, value), key, value);
  }

  /**
   `Del(key)` makes `key` unreadable, leaves every other key reading the same
   value, and shrinks `Len` by one exactly when `key` was present.
   */
  lemma DelRemovesOnlyKey<V>(c: Lrucache<V>, key: string)
    requires Valid(c)
    ensures Get(Del(c, key), key).None?
    ensures forall k :: k != key ==> Get(Del(c, key), k) == Get(c, k)
    ensures Len(Del(c, key)) == if key in c.cache then Len(c) - 1 else Len(c)
  {
  }

  /** Deleting twice is deleting once. */
  lemma DelIdempotent<V>(c: Lrucache<V>, key: string)
    requires Valid(c)
    ensures Del(Del(c, key), key) == Del(c, key)
  {
  }
}
