/** The LRU cache of main.go: a bounded key-value store whose recency list
    keeps the most recently used entry at the front and evicts from the back.
    Each public operation is one atomic transition on an immutable state, so
    the mutex that serialises them in main.go has no counterpart here. */
module Lru {
  import opened Wrappers
  import opened Entries

  /** `LRUCache`: the configured capacity, the recency list (front first) and
      the index. The index stands for Go's `map[string]*list.Element`; instead
      of a pointer it carries the located entry's value. */
  datatype Cache<K, V> = Cache(capacity: int, entries: seq<Entry<K, V>>, index: map<K, V>)

  /** The result of `Get`: the cache after the lookup and the found value
      (`None` for Go's `nil, false`). */
  datatype Got<K, V> = Got(cache: Cache<K, V>, value: Option<V>)

  /** The size bound the cache keeps: a non-positive capacity admits no
      resident entry at all. */
  function Bound(capacity: int): nat
  {
    if capacity < 0 then 0 else capacity
  }

  /** The index locates exactly the listed keys, and for each of them holds
      the value of its entry. */
  ghost predicate IndexAgrees<K, V>(s: seq<Entry<K, V>>, m: map<K, V>)
  {
    && m.Keys == Keys(s)
    && forall i :: 0 <= i < |s| ==> s[i].key in m && m[s[i].key] == s[i].value
  }

  /** Representation invariant: list and index agree on keys and values, no
      key is listed twice, and the list never holds more than the bound. */
  ghost predicate Valid<K, V>(c: Cache<K, V>)
  {
    && NoDupKeys(c.entries)
    && IndexAgrees(c.entries, c.index)
    && |c.entries| <= Bound(c.capacity)
  }

  /** The number of resident entries (`list.Len()`); in a valid cache it is
      also the number of indexed keys. */
  function Size<K, V>(c: Cache<K, V>): (n: nat)
    ensures Valid(c) ==> n == |c.index|
  {
    KeysCardinality(c.entries);
    |c.entries|
  }

  /** `NewLRUCache`: an empty cache; the capacity is recorded as given, even
      when it is zero or negative. */
  function New<K, V>(capacity: int): (c: Cache<K, V>)
    ensures Valid(c)
    ensures c.capacity == capacity
    ensures Size(c) == 0 && c.index.Keys == {}
  {
    Cache(capacity, [], map[])
  }

  /** `Get`: a hit answers the entry's current value and moves the entry to
      the front; a miss answers nothing and changes nothing. */
  function Get<K(==), V>(c: Cache<K, V>, key: K): (r: Got<K, V>)
    requires Valid(c)
    ensures Valid(r.cache) && r.cache.capacity == c.capacity
    ensures r.value.Some? <==> key in c.index
    ensures key in c.index ==>
      && r.value == Some(c.index[key])
      && r.cache.index == c.index
      && r.cache.entries == [Entry(key, c.index[key])] + Without(c.entries, key)
      && multiset(r.cache.entries) == multiset(c.entries)
    ensures key !in c.index ==> r.cache == c
  {
    if key in c.index then
      var i := Position(c.entries, key);
      MoveToFront(c, i, c.entries[i].value);
      MoveToFrontIsPermutation(c.entries, i);
      Got(c.(entries := [c.entries[i]] + Detach(c.entries, i)), Some(c.entries[i].value))
    else
      Got(c, None)
  }

  /** `Set`: an existing key has its value overwritten and moves to the front;
      a new key is pushed to the front, and if the list then exceeds the
      capacity the back entry is dropped from both list and index. */
  function Set<K(==), V>(c: Cache<K, V>, key: K, value: V): (r: Cache<K, V>)
    requires Valid(c)
    ensures Valid(r) && r.capacity == c.capacity
    // update in place: same size, no eviction, the others keep their order
    ensures key in c.index ==>
      && r.entries == [Entry(key, value)] + Without(c.entries, key)
      && r.index == c.index[key := value]
    // insertion with room to spare
    ensures key !in c.index && |c.entries| < c.capacity ==>
      && r.entries == [Entry(key, value)] + c.entries
      && r.index == c.index[key := value]
    // insertion into a full cache evicts the back entry, and only that one
    ensures key !in c.index && |c.entries| >= c.capacity && |c.entries| > 0 ==>
      var oldest := c.entries[|c.entries| - 1];
      && r.entries == [Entry(key, value)] + c.entries[..|c.entries| - 1]
      && r.index == (c.index - {oldest.key})[key := value]
    // with no room at all, the pushed entry is evicted at once
    ensures key !in c.index && |c.entries| >= c.capacity && |c.entries| == 0 ==>
      r == c
  {
    if key in c.index then
      var i := Position(c.entries, key);
      MoveToFront(c, i, value);
      c.(entries := [Entry(key, value)] + Detach(c.entries, i), index := c.index[key := value])
    else
      var pushed := [Entry(key, value)] + c.entries;
      var index := c.index[key := value];
      if |pushed| > c.capacity then
        // `list.Back()` of a list just pushed to is never nil
        var oldest := pushed[|pushed| - 1];
        PushEvict(c, key, value);
        c.(entries := pushed[..|pushed| - 1], index := index - {oldest.key})
      else
        ValidCons(c.capacity, Entry(key, value), c.entries, c.index);
        c.(entries := pushed, index := index)
  }

  /** Pushing an entry with a fresh key onto a consistent list, with room
      for it, gives a valid cache. */
  lemma ValidCons<K, V>(capacity: int, e: Entry<K, V>, s: seq<Entry<K, V>>, m: map<K, V>)
    requires NoDupKeys(s) && IndexAgrees(s, m) && e.key !in Keys(s)
    requires |s| < Bound(capacity)
    ensures Valid(Cache(capacity, [e] + s, m[e.key := e.value]))
  {
    KeysCons(e, s);
    var t := [e] + s;
    forall i, j | 0 <= i < j < |t|
      ensures t[i].key != t[j].key
    {
      assert t[j] == s[j - 1];
      if i > 0 {
        assert t[i] == s[i - 1];
      }
    }
    forall i | 0 <= i < |t|
      ensures t[i].key in m[e.key := e.value] && m[e.key := e.value][t[i].key] == t[i].value
    {
      if i > 0 {
        assert t[i] == s[i - 1];
      }
    }
  }

  /** Unlinking an entry from a consistent list and dropping its key from the
      index keeps the two consistent. */
  lemma AgreesDetach<K, V>(s: seq<Entry<K, V>>, m: map<K, V>, i: nat)
    requires NoDupKeys(s) && IndexAgrees(s, m) && i < |s|
    ensures NoDupKeys(Detach(s, i)) && IndexAgrees(Detach(s, i), m - {s[i].key})
    ensures s[i].key !in Keys(Detach(s, i))
  {
    DetachKeys(s, i);
    var t := Detach(s, i);
    forall j | 0 <= j < |t|
      ensures t[j].key in m - {s[i].key} && (m - {s[i].key})[t[j].key] == t[j].value
    {
      if j < i {
        assert t[j] == s[j];
      } else {
        assert t[j] == s[j + 1];
      }
    }
  }

  /** Moving entry `i` to the front with value `v` (both `Get` and the update
      branch of `Set`) keeps the cache valid. */
  lemma MoveToFront<K, V>(c: Cache<K, V>, i: nat, v: V)
    requires Valid(c) && i < |c.entries|
    ensures Valid(c.(entries := [Entry(c.entries[i].key, v)] + Detach(c.entries, i),
                     index := c.index[c.entries[i].key := v]))
    ensures Detach(c.entries, i) == Without(c.entries, c.entries[i].key)
    ensures v == c.entries[i].value ==> c.index[c.entries[i].key := v] == c.index
  {
    var k := c.entries[i].key;
    AgreesDetach(c.entries, c.index, i);
    DetachIsWithout(c.entries, i);
    ValidCons(c.capacity, Entry(k, v), Detach(c.entries, i), c.index - {k});
    assert (c.index - {k})[k := v] == c.index[k := v];
  }

  /** Pushing a fresh key onto a full cache and dropping the back entry keeps
      the cache valid. */
  lemma PushEvict<K, V>(c: Cache<K, V>, key: K, value: V)
    requires Valid(c) && key !in c.index && |c.entries| + 1 > c.capacity
    ensures var pushed := [Entry(key, value)] + c.entries;
      var r := c.(entries := pushed[..|pushed| - 1],
                  index := c.index[key := value] - {pushed[|pushed| - 1].key});
      && Valid(r)
      && (|c.entries| == 0 ==> r == c)
      && (|c.entries| > 0 ==>
            && r.entries == [Entry(key, value)] + c.entries[..|c.entries| - 1]
            && r.index == (c.index - {c.entries[|c.entries| - 1].key})[key := value])
  {
    var pushed := [Entry(key, value)] + c.entries;
    var n := |c.entries|;
    if n == 0 {
      assert pushed[..0] == [];
      assert c.index == map[];
      assert c.index[key := value] - {key} == map[];
    } else {
      var last := c.entries[n - 1];
      AgreesDetach(c.entries, c.index, n - 1);
      assert c.entries[..n - 1] == Detach(c.entries, n - 1);
      assert pushed[..n] == [Entry(key, value)] + c.entries[..n - 1];
      assert c.index[key := value] - {last.key} == (c.index - {last.key})[key := value];
      ValidCons(c.capacity, Entry(key, value), c.entries[..n - 1], c.index - {last.key});
    }
  }

  lemma MoveToFrontIsPermutation<K, V>(s: seq<Entry<K, V>>, i: nat)
    requires i < |s|
    ensures multiset([s[i]] + Detach(s, i)) == multiset(s)
  {
    assert s == s[..i] + [s[i]] + s[i + 1..];
  }
}
