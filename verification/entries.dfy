/** The recency list of the cache: a sequence of entries, most recently used
    first. The pointer mechanics of a doubly linked list are replaced by
    positions in an immutable sequence. */
module Entries {

  /** One stored association (`CacheEntry` in main.go). */
  datatype Entry<K, V> = Entry(key: K, value: V)

  /** The keys present in a recency list. */
  function Keys<K(==), V>(s: seq<Entry<K, V>>): set<K>
  {
    set i | 0 <= i < |s| :: s[i].key
  }

  /** No key occurs twice in the list. */
  ghost predicate NoDupKeys<K, V>(s: seq<Entry<K, V>>)
  {
    forall i, j :: 0 <= i < j < |s| ==> s[i].key != s[j].key
  }

  /** Where the entry with key `k` sits; this is what the index's element
      pointer locates in constant time. */
  function Position<K(==), V>(s: seq<Entry<K, V>>, k: K): (i: nat)
    requires k in Keys(s)
    ensures i < |s| && s[i].key == k
    ensures forall j :: 0 <= j < i ==> s[j].key != k
  {
    if s[0].key == k then 0
    else
      assert k in Keys(s[1..]) by {
        var n :| 0 <= n < |s| && s[n].key == k;
        assert s[1..][n - 1].key == k;
      }
      1 + Position(s[1..], k)
  }

  /** The list with the element at position `i` unlinked: the first half of
      `list.MoveToFront`, which takes the element out before relinking it at
      the front. */
  function Detach<K(==), V>(s: seq<Entry<K, V>>, i: nat): (r: seq<Entry<K, V>>)
    requires i < |s|
    ensures |r| == |s| - 1
    ensures forall j :: 0 <= j < i ==> r[j] == s[j]
    ensures forall j :: i <= j < |r| ==> r[j] == s[j + 1]
  {
    s[..i] + s[i + 1..]
  }

  /** Reference definition of "every entry except those with key `k`, in
      their original order", independent of positions. */
  function Without<K(==), V>(s: seq<Entry<K, V>>, k: K): (r: seq<Entry<K, V>>)
    ensures |r| <= |s|
  {
    if s == [] then []
    else if s[0].key == k then Without(s[1..], k)
    else [s[0]] + Without(s[1..], k)
  }

  lemma KeysCons<K, V>(e: Entry<K, V>, s: seq<Entry<K, V>>)
    ensures Keys([e] + s) == {e.key} + Keys(s)
  {
    var t := [e] + s;
    forall k | k in Keys(t)
      ensures k in {e.key} + Keys(s)
    {
      var n :| 0 <= n < |t| && t[n].key == k;
      if n > 0 {
        assert s[n - 1].key == k;
      }
    }
    forall k | k in Keys(s)
      ensures k in Keys(t)
    {
      var n :| 0 <= n < |s| && s[n].key == k;
      assert t[n + 1].key == k;
    }
    assert t[0].key == e.key;
  }

  lemma {:induction false} KeysWithout<K, V>(s: seq<Entry<K, V>>, k: K)
    ensures Keys(Without(s, k)) == Keys(s) - {k}
    decreases |s|
  {
    if s != [] {
      assert s == [s[0]] + s[1..];
      KeysCons(s[0], s[1..]);
      KeysWithout(s[1..], k);
      if s[0].key != k {
        KeysCons(s[0], Without(s[1..], k));
      }
    }
  }

  /** Removing an absent key leaves the list as it is. */
  lemma {:induction false} WithoutAbsent<K, V>(s: seq<Entry<K, V>>, k: K)
    requires k !in Keys(s)
    ensures Without(s, k) == s
    decreases |s|
  {
    if s != [] {
      assert s == [s[0]] + s[1..];
      KeysCons(s[0], s[1..]);
      WithoutAbsent(s[1..], k);
    }
  }

  /** Without duplicate keys, unlinking the entry holding `s[i].key` is the
      same as filtering that key out: the other entries keep their order. */
  lemma {:induction false} DetachIsWithout<K, V>(s: seq<Entry<K, V>>, i: nat)
    requires NoDupKeys(s) && i < |s|
    ensures Detach(s, i) == Without(s, s[i].key)
    decreases i
  {
    assert s == [s[0]] + s[1..];
    if i == 0 {
      assert s[0].key !in Keys(s[1..]);
      WithoutAbsent(s[1..], s[0].key);
      assert Detach(s, 0) == s[1..];
    } else {
      DetachIsWithout(s[1..], i - 1);
      assert Detach(s, i) == [s[0]] + Detach(s[1..], i - 1);
    }
  }

  /** Unlinking one element keeps the list free of duplicate keys and drops
      exactly that element's key. */
  lemma DetachKeys<K, V>(s: seq<Entry<K, V>>, i: nat)
    requires NoDupKeys(s) && i < |s|
    ensures NoDupKeys(Detach(s, i))
    ensures Keys(Detach(s, i)) == Keys(s) - {s[i].key}
  {
    DetachIsWithout(s, i);
    KeysWithout(s, s[i].key);
  }

  /** A list without duplicate keys has as many keys as entries. */
  lemma {:induction false} KeysCardinality<K, V>(s: seq<Entry<K, V>>)
    ensures NoDupKeys(s) ==> |Keys(s)| == |s|
    decreases |s|
  {
    if s != [] && NoDupKeys(s) {
      assert s == [s[0]] + s[1..];
      KeysCons(s[0], s[1..]);
      assert NoDupKeys(s[1..]) by {
        forall i, j | 0 <= i < j < |s[1..]|
          ensures s[1..][i].key != s[1..][j].key
        {
          assert s[1..][i] == s[i + 1] && s[1..][j] == s[j + 1];
        }
      }
      assert s[0].key !in Keys(s[1..]) by {
        forall n | 0 <= n < |s[1..]|
          ensures s[1..][n].key != s[0].key
        {
          assert s[1..][n] == s[n + 1];
        }
      }
      KeysCardinality(s[1..]);
    }
  }
}
