/** The cache against a reference account of its history. A run of `Get`
    and `Set` calls from a fresh cache is recorded as a sequence of calls;
    the time a key was last used is the position of the last call naming it.
    The recency list is then exactly the resident keys ordered by last use,
    most recent first, so the back entry that an overflowing `Set` evicts is
    the least recently used one, and every resident value is the last one
    written for its key. */
module Recency {
  import opened Wrappers
  import opened Entries
  import opened Lru

  /** One call on the cache's public interface. */
  datatype Op<K, V> = GetOp(key: K) | SetOp(key: K, value: V)

  /** The cache after one call. */
  function Apply<K(==), V>(c: Cache<K, V>, op: Op<K, V>): (r: Cache<K, V>)
    requires Valid(c)
    ensures Valid(r) && r.capacity == c.capacity
  {
    match op
    case GetOp(k) => Get(c, k).cache
    case SetOp(k, v) => Set(c, k, v)
  }

  /** The cache reached from `NewLRUCache(capacity)` by the calls in `ops`,
      in order. */
  function Run<K(==), V>(capacity: int, ops: seq<Op<K, V>>): (c: Cache<K, V>)
    ensures Valid(c) && c.capacity == capacity
    ensures Size(c) <= Bound(capacity)
    decreases |ops|
  {
    if ops == [] then New(capacity)
    else Apply(Run(capacity, ops[..|ops| - 1]), ops[|ops| - 1])
  }

  /** When `k` was last used: the position of the last call naming it, or -1
      if no call does. */
  ghost function LastUse<K, V>(ops: seq<Op<K, V>>, k: K): (t: int)
    ensures -1 <= t < |ops|
    ensures t >= 0 ==> ops[t].key == k
    ensures forall u :: t < u < |ops| ==> ops[u].key != k
    decreases |ops|
  {
    if ops == [] then -1
    else if ops[|ops| - 1].key == k then |ops| - 1
    else LastUse(ops[..|ops| - 1], k)
  }

  /** The value of the last `Set` of `k`, if there was one. */
  ghost function LastSet<K, V>(ops: seq<Op<K, V>>, k: K): (r: Option<V>)
    ensures r.Some? ==>
      exists t :: 0 <= t < |ops| && ops[t] == SetOp(k, r.value)
        && (forall u :: t < u < |ops| ==> !(ops[u].SetOp? && ops[u].key == k))
    ensures r.None? ==> forall t :: 0 <= t < |ops| ==> !(ops[t].SetOp? && ops[t].key == k)
    decreases |ops|
  {
    if ops == [] then None
    else if ops[|ops| - 1].SetOp? && ops[|ops| - 1].key == k then Some(ops[|ops| - 1].value)
    else LastSet(ops[..|ops| - 1], k)
  }

  /** Every listed key has been used, and the list runs from the most to the
      least recently used key. */
  ghost predicate OrderedByLastUse<K, V>(s: seq<Entry<K, V>>, ops: seq<Op<K, V>>)
  {
    && (forall i :: 0 <= i < |s| ==> LastUse(ops, s[i].key) >= 0)
    && (forall i, j :: 0 <= i < j < |s| ==> LastUse(ops, s[i].key) > LastUse(ops, s[j].key))
  }

  /** Every resident value is the last one written for its key. */
  ghost predicate ValuesAreLastSet<K, V>(m: map<K, V>, ops: seq<Op<K, V>>)
  {
    forall k :: k in m ==> LastSet(ops, k) == Some(m[k])
  }

  lemma LastUseSnoc<K, V>(ops: seq<Op<K, V>>, op: Op<K, V>, k: K)
    ensures LastUse(ops + [op], k) == if op.key == k then |ops| else LastUse(ops, k)
  {
    assert (ops + [op])[..|ops|] == ops;
  }

  lemma LastSetSnoc<K, V>(ops: seq<Op<K, V>>, op: Op<K, V>, k: K)
    ensures LastSet(ops + [op], k) == if op.SetOp? && op.key == k then Some(op.value) else LastSet(ops, k)
  {
    assert (ops + [op])[..|ops|] == ops;
  }

  /** A call on a key not in the list leaves the list's order by last use
      intact. */
  lemma OrderedSnoc<K, V>(s: seq<Entry<K, V>>, ops: seq<Op<K, V>>, op: Op<K, V>)
    requires OrderedByLastUse(s, ops) && op.key !in Keys(s)
    ensures OrderedByLastUse(s, ops + [op])
    ensures forall i :: 0 <= i < |s| ==> LastUse(ops + [op], s[i].key) < |ops|
  {
    forall i | 0 <= i < |s|
      ensures LastUse(ops + [op], s[i].key) == LastUse(ops, s[i].key)
    {
      LastUseSnoc(ops, op, s[i].key);
    }
  }

  /** Unlinking an entry keeps the others in order. */
  lemma OrderedDetach<K, V>(s: seq<Entry<K, V>>, ops: seq<Op<K, V>>, i: nat)
    requires OrderedByLastUse(s, ops) && i < |s|
    ensures OrderedByLastUse(Detach(s, i), ops)
  {
    var t := Detach(s, i);
    forall a, b | 0 <= a < b < |t|
      ensures LastUse(ops, t[a].key) > LastUse(ops, t[b].key)
    {
      var a' := if a < i then a else a + 1;
      var b' := if b < i then b else b + 1;
      assert t[a] == s[a'] && t[b] == s[b'];
    }
    forall a | 0 <= a < |t|
      ensures LastUse(ops, t[a].key) >= 0
    {
      assert t[a] == s[if a < i then a else a + 1];
    }
  }

  /** The entry just used goes in front of an ordered list of older ones. */
  lemma OrderedCons<K, V>(e: Entry<K, V>, s: seq<Entry<K, V>>, ops: seq<Op<K, V>>)
    requires OrderedByLastUse(s, ops) && LastUse(ops, e.key) >= 0
    requires forall i :: 0 <= i < |s| ==> LastUse(ops, s[i].key) < LastUse(ops, e.key)
    ensures OrderedByLastUse([e] + s, ops)
  {
    var t := [e] + s;
    forall a, b | 0 <= a < b < |t|
      ensures LastUse(ops, t[a].key) > LastUse(ops, t[b].key)
    {
      assert t[b] == s[b - 1];
      if a > 0 {
        assert t[a] == s[a - 1];
      }
    }
  }

  /** The list with the entry for `key` moved to the front, after a call
      naming `key`, is ordered by last use. */
  lemma OrderedMoveToFront<K, V>(c: Cache<K, V>, ops: seq<Op<K, V>>, op: Op<K, V>, v: V)
    requires Valid(c) && OrderedByLastUse(c.entries, ops) && op.key in c.index
    ensures OrderedByLastUse([Entry(op.key, v)] + Without(c.entries, op.key), ops + [op])
  {
    var i := Position(c.entries, op.key);
    DetachIsWithout(c.entries, i);
    DetachKeys(c.entries, i);
    OrderedDetach(c.entries, ops, i);
    OrderedPush(Entry(op.key, v), Detach(c.entries, i), ops, op);
  }

  /** Pushing the entry of the key just named onto an ordered list of other
      keys gives an ordered list. */
  lemma OrderedPush<K, V>(e: Entry<K, V>, s: seq<Entry<K, V>>, ops: seq<Op<K, V>>, op: Op<K, V>)
    requires OrderedByLastUse(s, ops) && op.key !in Keys(s) && e.key == op.key
    ensures OrderedByLastUse([e] + s, ops + [op])
  {
    OrderedSnoc(s, ops, op);
    LastUseSnoc(ops, op, op.key);
    OrderedCons(e, s, ops + [op]);
  }

  /** One call keeps the list ordered by last use. */
  lemma ApplyKeepsOrder<K, V>(c: Cache<K, V>, ops: seq<Op<K, V>>, op: Op<K, V>)
    requires Valid(c) && OrderedByLastUse(c.entries, ops)
    ensures OrderedByLastUse(Apply(c, op).entries, ops + [op])
  {
    var k := op.key;
    if k in c.index {
      var v := if op.SetOp? then op.value else c.index[k];
      OrderedMoveToFront(c, ops, op, v);
    } else if op.GetOp? {
      OrderedSnoc(c.entries, ops, op);
    } else {
      var n := |c.entries|;
      if n < c.capacity {
        OrderedPush(Entry(k, op.value), c.entries, ops, op);
      } else if n > 0 {
        OrderedDetach(c.entries, ops, n - 1);
        assert c.entries[..n - 1] == Detach(c.entries, n - 1);
        DetachKeys(c.entries, n - 1);
        OrderedPush(Entry(k, op.value), c.entries[..n - 1], ops, op);
      }
    }
  }

  /** One call keeps every resident value the last one written. */
  lemma ApplyKeepsValues<K, V>(c: Cache<K, V>, ops: seq<Op<K, V>>, op: Op<K, V>)
    requires Valid(c) && ValuesAreLastSet(c.index, ops)
    ensures ValuesAreLastSet(Apply(c, op).index, ops + [op])
  {
    var r := Apply(c, op);
    forall x | x in r.index
      ensures LastSet(ops + [op], x) == Some(r.index[x])
    {
      LastSetSnoc(ops, op, x);
      if op.SetOp? {
        assert x in c.index[op.key := op.value] && r.index[x] == c.index[op.key := op.value][x];
      }
    }
  }

  /** Over any history from a fresh cache, the recency list is ordered by
      last use and holds the last value written for each resident key. */
  lemma {:induction false} RunFollowsHistory<K, V>(capacity: int, ops: seq<Op<K, V>>)
    ensures OrderedByLastUse(Run(capacity, ops).entries, ops)
    ensures ValuesAreLastSet(Run(capacity, ops).index, ops)
    decreases |ops|
  {
    if ops != [] {
      var init := ops[..|ops| - 1];
      RunFollowsHistory(capacity, init);
      assert ops == init + [ops[|ops| - 1]];
      ApplyKeepsOrder(Run(capacity, init), init, ops[|ops| - 1]);
      ApplyKeepsValues(Run(capacity, init), init, ops[|ops| - 1]);
    }
  }

  /** In a cache ordered by last use, the back entry that an overflowing
      `Set` evicts is older than every other resident key; it is the only key
      that leaves, and the written key comes in. By `RunFollowsHistory` every
      cache reachable from a fresh one is ordered by last use, so eviction
      always takes the least recently used key. */
  lemma EvictsOldest<K, V>(c: Cache<K, V>, ops: seq<Op<K, V>>, key: K, value: V)
    requires Valid(c) && OrderedByLastUse(c.entries, ops)
    requires key !in c.index && |c.entries| >= c.capacity && |c.entries| > 0
    ensures var victim := c.entries[|c.entries| - 1].key;
      && Set(c, key, value).index.Keys == c.index.Keys - {victim} + {key}
      && forall k :: k in c.index && k != victim ==> LastUse(ops, k) > LastUse(ops, victim)
  {
    var n := |c.entries|;
    var victim := c.entries[n - 1].key;
    assert Set(c, key, value).index == (c.index - {victim})[key := value];
    forall k | k in c.index && k != victim
      ensures LastUse(ops, k) > LastUse(ops, victim)
    {
      assert k in Keys(c.entries);
      var i :| 0 <= i < n && c.entries[i].key == k;
    }
  }

  /** A hit returns the last value written for the key. */
  lemma GetReturnsLastSet<K, V>(capacity: int, ops: seq<Op<K, V>>, key: K)
    ensures var g := Get(Run(capacity, ops), key);
      g.value.Some? ==> g.value == LastSet(ops, key)
  {
    RunFollowsHistory(capacity, ops);
  }
}
