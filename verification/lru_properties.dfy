/** Properties of `Get` and `Set` that relate several calls, or hold for a
    whole class of caches. */
module LruProperties {
  import opened Wrappers
  import opened Entries
  import opened Lru

  /** With room for at least one entry, a `Set` is immediately visible: the
      key is the most recently used entry and a `Get` answers the new value. */
  lemma SetThenGet<K, V>(c: Cache<K, V>, key: K, value: V)
    requires Valid(c) && c.capacity >= 1
    ensures Set(c, key, value).entries[0] == Entry(key, value)
    ensures Get(Set(c, key, value), key).value == Some(value)
  {
  }

  /** A `Set` never shrinks the cache and grows it by at most one entry. */
  lemma SetSize<K, V>(c: Cache<K, V>, key: K, value: V)
    requires Valid(c)
    ensures Size(c) <= Size(Set(c, key, value)) <= Size(c) + 1
  {
    if key in c.index {
      SizeOfMoveToFront(c, key);
    }
  }

  /** A `Set` evicts at most one resident key. */
  lemma SetEvictsAtMostOne<K, V>(c: Cache<K, V>, key: K, value: V)
    requires Valid(c)
    ensures |c.index.Keys - Set(c, key, value).index.Keys| <= 1
  {
    var r := Set(c, key, value);
    var gone := c.index.Keys - r.index.Keys;
    if key !in c.index && |c.entries| >= c.capacity && |c.entries| > 0 {
      var victim := c.entries[|c.entries| - 1].key;
      assert gone <= {victim};
      SubsetOfSingleton(gone, victim);
    } else {
      assert gone == {};
    }
  }

  lemma SubsetOfSingleton<T>(s: set<T>, x: T)
    requires s <= {x}
    ensures |s| <= 1
  {
    if s != {} {
      assert s == {x};
    }
  }

  /** A cache whose capacity is zero or negative holds nothing and every
      `Set` leaves it so: the new entry is pushed and evicted at once. */
  lemma NonPositiveCapacityStaysEmpty<K, V>(c: Cache<K, V>, key: K, value: V)
    requires Valid(c) && c.capacity <= 0
    ensures Size(c) == 0
    ensures Set(c, key, value) == c
    ensures Get(Set(c, key, value), key).value == None
  {
  }

  /** Repeated reads are idempotent: a second `Get` of the same key finds it
      already at the front and changes nothing more. */
  lemma {:induction false} GetTwice<K, V>(c: Cache<K, V>, key: K)
    requires Valid(c)
    ensures Get(Get(c, key).cache, key) == Get(c, key)
  {
    var g := Get(c, key);
    if key in c.index {
      var s := g.cache.entries;
      assert s[0].key == key;
      assert Position(s, key) == 0;
      assert [s[0]] + Detach(s, 0) == s;
    }
  }

  /** Overwriting a key keeps the cache size and the resident keys, and the
      last value written is the one read back. */
  lemma UpdateInPlace<K, V>(c: Cache<K, V>, key: K, v1: V, v2: V)
    requires Valid(c) && c.capacity >= 1
    ensures var c1 := Set(c, key, v1);
      var c2 := Set(c1, key, v2);
      && Size(c2) == Size(c1)
      && c2.index.Keys == c1.index.Keys
      && Get(c2, key).value == Some(v2)
  {
    var c1 := Set(c, key, v1);
    var c2 := Set(c1, key, v2);
    assert key in c1.index;
    assert c2.entries == [Entry(key, v2)] + Without(c1.entries, key);
    assert c1.entries == [Entry(key, v1)] + Without(c.entries, key) || key !in c.index;
    SizeOfMoveToFront(c1, key);
  }

  /** Moving a resident key to the front keeps the number of entries. */
  lemma SizeOfMoveToFront<K, V>(c: Cache<K, V>, key: K)
    requires Valid(c) && key in c.index
    ensures |Without(c.entries, key)| + 1 == |c.entries|
  {
    var i := Position(c.entries, key);
    DetachIsWithout(c.entries, i);
  }
}
