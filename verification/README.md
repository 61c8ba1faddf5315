# LRU cache model

A Dafny model of the bounded key-value cache with least-recently-used
eviction in `main.go`. The cache (`LRUCache`) pairs a recency list of
`CacheEntry{key, value}` records, most recently used at the front, with an
index from key to list element. `Get` moves a hit to the front. `Set` either
overwrites an existing entry and moves it to the front, or pushes a new entry
to the front and, when the list then holds more than `capacity` entries,
evicts the back entry from both list and index.

The model is functional. A cache is the immutable value
`Cache(capacity, entries, index)`:

- `entries` is the recency list as a sequence, front first;
- `index` is a map whose domain is the set of listed keys; it carries each
  entry's value where the Go code holds a pointer to the list element;
- `Get` and `Set` are pure functions from a cache to the next cache.

`Lru.Valid` is the representation invariant: list and index hold the same
keys and values, no key is listed twice, and the list holds at most
`max(capacity, 0)` entries. Every operation is proved to keep it.

Modules:

- `Wrappers`: `Option`, for the `(value, ok)` result of `Get`.
- `Entries`: the recency list. Lookup by key (`Position`), unlinking
  (`Detach`) and an independent filter (`Without`) that unlinking is proved
  equal to.
- `Lru`: the cache state, `New`, `Get`, `Set`, and the invariant.
- `LruProperties`: laws relating several calls.
- `Recency`: the cache against its call history. The "last use" of a key is
  the position of the last call naming it. Over any run from a fresh cache,
  the list is proved to be the resident keys ordered by last use, so eviction
  removes the least recently used key. Each resident value is proved to be the
  last one written.
- `Demo`: the call sequence of `main`, replayed.

The capacity is an unbounded `int` and is not required to be positive:
`NewLRUCache` does not reject a capacity of zero or less. With such a
capacity, every `Set` of a new key pushes the entry and evicts it at once, so
the cache stays empty, `Set` does not keep its key and a following `Get`
misses. `LruProperties.SetThenGet` is therefore stated for capacity ≥ 1, and
`LruProperties.NonPositiveCapacityStaysEmpty` proves the degenerate case.

## Model

| member | source | states |
|---|---|---|
| Lru.New | main.go:24-29 | a new cache is valid and empty (no entries, empty index) and records the given capacity unchanged, even when it is not positive |
| Lru.Get | main.go:33-44 | a hit answers the key's current value, moves its entry to the front with every other entry in its original order, and leaves the index, the values and the multiset of entries unchanged; a miss answers nothing and leaves the cache unchanged; the invariant is kept |
| Lru.Set | main.go:47-71 | an existing key gets the new value and moves to the front, others keep their order, size unchanged; a new key with room is pushed to the front and indexed; a new key into a full cache is pushed and the back entry is dropped from list and index; with no room at all the cache is unchanged; the invariant is kept |
| Lru.MoveToFront | main.go:37-40 | moving a resident entry to the front, with its old or a new value, keeps list and index consistent, and unlinking it equals filtering its key out |
| Lru.PushEvict | main.go:58-68 | pushing a new key onto a full cache and removing the back entry from list and index yields a valid cache; when the list was empty the pushed entry itself is evicted and the cache stays empty |
| Entries.Position | main.go:37 | the index lookup finds the position of the first entry with the key, and that entry carries the key |
| Entries.Detach | main.go:39 | unlinking the element at a position (the first half of `list.MoveToFront`, also at main.go:55) shortens the list by one and keeps every other element, those before it in place and those after it shifted up by one |
| Lru.Size | main.go:63 | the list length `list.Len()` equals, in a valid cache, the number of keys in the index |
| Entries.DetachIsWithout | main.go:39 | in a list without duplicate keys, unlinking one element equals removing its key, keeping the others in their original order |
| LruProperties.SetThenGet | main.go:47-70 | with capacity at least 1, after `Set(k, v)` the entry `(k, v)` is at the front and `Get(k)` answers `v` |
| LruProperties.SetSize | main.go:52-69 | a `Set` never shrinks the cache and grows it by at most one entry |
| LruProperties.SetEvictsAtMostOne | main.go:63-68 | a `Set` removes at most one resident key |
| LruProperties.NonPositiveCapacityStaysEmpty | main.go:56-69 | with capacity zero or less the cache is empty, `Set` leaves it unchanged, and a following `Get` misses |
| LruProperties.GetTwice | main.go:37-40 | a second `Get` of the same key answers the same and changes nothing further |
| LruProperties.UpdateInPlace | main.go:52-55 | overwriting a resident key keeps the size and the key set, and `Get` answers the last value written |
| Recency.Apply | main.go:33-71 | any single `Get` or `Set` keeps the invariant and the capacity |
| Recency.Run | main.go:24-70 | every cache reachable from `NewLRUCache` by `Get`/`Set` calls is valid, so its size never exceeds `max(capacity, 0)` |
| Recency.ApplyKeepsOrder | main.go:37-69 | after any call the recency list is still ordered by last use, most recent first |
| Recency.ApplyKeepsValues | main.go:52-69 | after any call every resident value is still the last value written for its key |
| Recency.RunFollowsHistory | main.go:33-71 | over any call history from a fresh cache, every listed key has been used, the list runs from the most to the least recently used key, and each resident value is the last one set |
| Recency.EvictsOldest | main.go:63-68 | in any valid cache whose list is ordered by last use (by `Recency.RunFollowsHistory`, every cache reachable from `NewLRUCache`), when a `Set` of a new key overflows it, the evicted back entry was used less recently than every other resident key; it is the only key that leaves and the written key enters |
| Recency.GetReturnsLastSet | main.go:37-40 | on any reachable cache, a `Get` hit answers the value of the last `Set` of that key |
| Demo.Filled | main.go:88-93 | three insertions into a capacity-3 cache give the order course, division, company |
| Demo.ReadCompany | main.go:97 | reading "company" answers "Yandex" and moves it to the front: company, course, division |
| Demo.EvictTwice | main.go:104-105 | setting "year" evicts "division", then setting "age" evicts "course" |
| Demo.MainScenario | main.go:86-107 | the whole demo sequence ends with age, year, company from front to back, with "Yandex" read for "company" on the way |

## Left out

- The `sync.Mutex` of `LRUCache` (main.go:14, 34-35, 48-49, 75-76): each operation is modelled as one atomic transition, so linearizability under concurrent callers is not modelled.
- `PrintCache` (main.go:74-84): formatting and standard output only; the head-to-tail contents it prints are the `entries` sequence.
- The `fmt` output in `main` (main.go:86-108): only its call sequence is replayed, in `Demo.MainScenario`.
- The pointer mechanics of `container/list` and the `interface{}` type assertions: the list is an immutable sequence, the index holds the located entry's value instead of an element pointer, and `Position` recovers the element's place by key. Constant-time cost is not modelled.
- The `oldest != nil` test (main.go:65): after a push the list is never empty, so the model always takes that branch.
- Keys are any type with equality and values any type, instead of Go's `string` and `interface{}`. The demo uses a two-case `Value` type for its string and integer values.
- The `nil` value of a `Get` miss: a miss answers `None`, which stands for Go's `nil, false`.
