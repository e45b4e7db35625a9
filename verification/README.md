# lrucache in Dafny

A model of the Go package `lrucache`. The package is a string-keyed cache
with a capacity, built from two parts:

- a map from keys to entries;
- a hand-built doubly linked chain of those entries, with a `firstEntry`
  (the newest insertion) and a `lastEntry` (the eviction candidate).

The public operations are `NewLrucache`, `Set`, `Get`, `Del`, `Len` and
`Flush`.

The package's name promises a least-recently-used cache, in which `Get`
promotes the entry it reads. The code does not do that, and where the two
disagree the model follows the code as written:

- `Get` does not move the entry it reads, so eviction is in insertion order
  (first in, first out), not recency order.
- `set` evicts whenever the map is exactly full and `lastEntry` is not nil.
  It does this even when the key being set is already present.
- The first insert into an empty chain makes the new entry its own
  neighbour. Both blocks of `set` run: the one that starts the chain and the
  one that links after `firstEntry`.
- `del` unlinks an entry from its neighbours but never moves `firstEntry` or
  `lastEntry`. So `lastEntry` can be left on an entry whose key is no longer
  bound. A later eviction then deletes nothing.
- Deleting the newest key sets the `next` of its older neighbour to nil. When
  that neighbour is later evicted, `lastEntry` moves along the nil link, and
  from then on the eviction guard never fires, so every fresh key adds a
  binding whatever the capacity.
- `Flush` clears only the map. The chain and both of its ends survive.

Pointers are indices into an arena `entries`. Entries are only ever
appended, and `Del` and `Flush` keep the arena's length and payloads (`Del`
rewrites only the links of the deleted entry's two neighbours). `next` leads to
newer entries and `prev` to older ones.

The predicate `LruCache.Valid` is the invariant of every reachable state:

- every link is nil or names an entry of the arena;
- the map sends each key to an entry carrying that key;
- a nil `first` implies a nil `last`.

`NewLrucache` establishes it, and every operation preserves it.

Modules:

- `Wrappers`: `Option` and `Result`.
- `LruCache`: the struct, the operations, and `set` split into its four
  steps (`Allocate`, `Evict`, `StartChain`, `LinkFirst`), with lemmas about
  single calls.
- `Trace`: sequences of public calls, and the fact that reads never affect
  later state.
- `Fifo`: the path on which the capacity bound is proved. That path is a
  fresh cache of capacity at least 2 that receives only `Set`s of distinct
  keys.
  On it, eviction is proved to be first in, first out.
- `Scenarios`: concrete runs, namely the repository's test and the paths on
  which the map outgrows the capacity.

## Model

| member | source | states |
|---|---|---|
| LruCache.NewLrucache | lrucache.go:39-50 | fails exactly when capacity <= 0, with the error "invalid capacity"; otherwise gives the capacity, an empty map, an empty arena, nil first and last, and a valid state |
| LruCache.Get | lrucache.go:87-97 | finds a value exactly when the key is in the map, and the value is the payload of the entry the map holds for the key |
| LruCache.Del | lrucache.go:99-120 | removes exactly `key` from the map; keeps capacity, first, last, arena size and every payload; keeps validity; for a present key, the next entry's prev becomes the deleted entry's prev and the previous entry's next becomes its next, the other link of each neighbour is kept, and every other entry is unchanged; an absent key changes nothing at all |
| LruCache.Victim | lrucache.go:61-64 | the eviction removes at most one key, and only a key that is currently bound |
| LruCache.Allocate | lrucache.go:53-59 | the new entry holds key and value with nil links, is placed after all old entries, and leaves the map, the ends and the eviction guard alone |
| LruCache.Evict | lrucache.go:61-65 | when the map is exactly full and last is not nil (the guard `LruCache.EvictionDue`), the victim's binding goes, the arena is exactly what `Del` of the last entry's key leaves (its neighbours unlinked from it), and last moves to the old last entry's next (read before the delete); otherwise nothing changes |
| LruCache.StartChain | lrucache.go:66-70 | on an empty chain `key` is bound to the new entry and both ends become that entry; on a started chain nothing changes |
| LruCache.LinkFirst | lrucache.go:71-76 | first becomes the new entry, `key` is bound to it, last is kept, and validity and payloads are preserved; the new entry's prev is the old first and the old first's next is the new entry, while the new entry's next and the old first's prev are kept; every other entry is unchanged |
| LruCache.Set | lrucache.go:52-85 | the result is valid and keeps the capacity; it grows the arena by one, binds `key` to the new entry, and makes that entry first |
| LruCache.SetStoresValue | lrucache.go:52-85 | after `Set(k, v)`, `Get(k)` returns `v`, even when the same call's eviction deleted `k`; older payloads are untouched |
| LruCache.SetRebinds | lrucache.go:61-76 | the map after `Set` is the old map minus the victim, with `key` rebound to the new entry |
| LruCache.SetMovesLast | lrucache.go:61-76 | when the eviction is due, last moves along the old last entry's next link (possibly to nil); otherwise a non-nil last stays |
| LruCache.SetPresentBelowCapacity | lrucache.go:52-85 | re-setting a present key below capacity keeps `Len`, stores the new value, and leaves every other key's reading alone |
| LruCache.SetAbsentBelowCapacity | lrucache.go:52-85 | setting an absent key below capacity raises `Len` by one and leaves every other key's reading alone |
| LruCache.SetPresentWhenFullEvicts | lrucache.go:61-64 | in an exactly full cache, re-setting a present key still evicts the other key held by the last entry, so `Len` drops by one |
| LruCache.SetWithStaleLast | lrucache.go:61-76 | when the map is exactly full but the key of the last entry is no longer bound, the eviction deletes nothing, so setting a new key leaves capacity + 1 keys bound |
| LruCache.SetWithNilLast | lrucache.go:61-76 | on a started chain whose last is nil, `Set` keeps last nil and adds `key` without evicting, so a fresh key raises `Len` by one whatever the capacity |
| LruCache.SetKeepsOthers | lrucache.go:52-85 | keys other than `key` and the victim read the same after `Set`; the victim reads nothing |
| LruCache.RebindReads | lrucache.go:92-96 | a state that drops the victim and binds `key` while keeping payloads gives the same `Get` for every other key |
| LruCache.Flush | lrucache.go:127-132 | the result has `Len` 0 and every `Get` misses; capacity, first, last and the whole chain are unchanged |
| LruCache.LenCountsFoundKeys | lrucache.go:122-125 | `LruCache.Len`, the size of the map, equals the number of keys `Get` finds |
| LruCache.DelRemovesOnlyKey | lrucache.go:99-120 | after `Del(k)`, `k` misses, every other key reads the same, and `Len` drops by one exactly when `k` was bound |
| LruCache.DelIdempotent | lrucache.go:99-112 | deleting twice is deleting once |
| Trace.Step | lrucache.go:30-37 | every call keeps validity and capacity, and `Get` and `Len` leave the state unchanged |
| Trace.Run | lrucache.go:30-37 | a sequence of calls keeps validity and capacity |
| Trace.ReadsDoNotAffectState | lrucache.go:87-97 | running a trace gives the same state as running only its writes, so `Get` never changes which entry a later `Set` evicts |
| Fifo.FirstSetShape | lrucache.go:66-76 | the first `Set` on a fresh cache yields one entry linked to itself, with first = last = that entry |
| Fifo.SetLinksWithoutEviction | lrucache.go:71-76 | below the full point, `Set` links the new entry after first, keeps last, and binds `key` with no other change |
| Fifo.EvictOldest | lrucache.go:61-64 | evicting the oldest chained entry unlinks it from both neighbours and moves last to the next entry |
| Fifo.SetLinksWithEviction | lrucache.go:61-76 | at the full point, `Set` unbinds the oldest key, moves last one entry along, and links the new entry after first |
| Fifo.SetKeepsFifoShape | lrucache.go:52-77 | a `Set` of a fresh key preserves the first-in-first-out shape (window of bound keys, chained by next, ends at its edges) |
| Fifo.SlideSetEvicts | lrucache.go:61-64 | once full, a fresh `Set` removes exactly the oldest bound key and moves last along next |
| Fifo.DistinctSetsShape | lrucache.go:52-77 | from a fresh cache of capacity at least 2, every trace of distinct `Set`s reaches the first-in-first-out shape |
| Fifo.DistinctSetsWithinCapacity | lrucache.go:52-85 | on that path `Len` never exceeds the capacity and equals min(number of sets, capacity); the newest keys read their values and the older ones are gone |
| Fifo.ShapeFullSet | lrucache.go:61-64 | on that path, once full, the next `Set` evicts the oldest key still bound, last names that key's entry, and it moves to the following entry |
| Fifo.DistinctWritesWithinCapacity | lrucache.go:87-97 | interleaving `Get` and `Len` calls into such a trace keeps the bound |
| Scenarios.BasicFunctions | lrucache_test.go:7-55 | capacities -1 and 0 fail, capacity 5 succeeds; six distinct keys in any order leave `Len` 5; a deleted key misses; `Flush` leaves `Len` 0 |
| Scenarios.SixIntoFive | lrucache_test.go:8-34 | keys a..f with values 1..6 set in order into capacity 5: "a" is evicted and "f" reads 6 |
| Scenarios.GetDoesNotPromote | lrucache.go:87-97 | capacity 2: Set a, Set b, Get a, Set c evicts "a", not "b" |
| Scenarios.CapacityOneOverflows | lrucache.go:61-76 | in capacity 1 the self-linked first entry leaves last stale, and three distinct keys leave two bound |
| Scenarios.DelOldestOverflows | lrucache.go:99-112 | deleting the oldest key leaves last on its entry; two more sets into capacity 2 leave three keys bound |
| Scenarios.FlushRefillOverflows | lrucache.go:127-132 | after `Flush`, refilling capacity 2 ends with three keys bound, because last still names an old entry |
| Scenarios.ResetPresentEvicts | lrucache.go:61-76 | in a full capacity-2 cache, re-setting "b" evicts "a" and leaves last on the superseded entry of "b" |
| Scenarios.ResetPresentOverflows | lrucache.go:61-76 | after that re-set, three more distinct sets into capacity 2 leave three keys bound |
| Scenarios.DelNewestStopsEviction | lrucache.go:99-120 | capacity 2: Set a, Set b, Del b, Set c, Set d leaves last nil, and a further Set e leaves three keys bound |

## Left out

- The `sync.Mutex` embedded in the struct, and the locking in `Set`, `Get` and `Del`: the model is sequential. `Len` and `Flush` take no lock in the source; that race is not modelled either.
- The `added` timestamp of an entry: it is written by `set` and never read.
- The content of `Value`: the payload is a type parameter `V`, compared only for equality in specifications.
- The `Cache` interface as a Go type: its five methods are the cases of `Trace.Op`.
- Go `int` width: capacity and lengths are unbounded integers. The code only compares and counts them, so no overflow path exists at realistic sizes.
- The test's `Get("d")` returning 4: which key the test evicts depends on Go map iteration order. `Scenarios.BasicFunctions` keeps the order-independent checks; it states the deletion of "d" for any state, whether or not "d" was bound.
- The test's fatal-error reporting and the Go `error` value: the model returns the message string in `Result.Failure`.
- Constant-time operations and hashing: the arena and the Dafny map say nothing about cost.
- Reclaiming memory: unreachable entries stay in the arena forever, which changes no observable result.
