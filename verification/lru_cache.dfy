/** The least-recently-used cache of `task_1.py`. Its ordered dictionary is a
    recency sequence of distinct keys (least recent first) plus a map from
    key to value. */
module LruCache {
  import opened Options

  /** The constructor's default capacity. */
  const DefaultCapacity: int := 1000

  datatype Lru<K, V> = Lru(capacity: int, order: seq<K>, entries: map<K, V>)

  ghost predicate Distinct<K(!new)>(s: seq<K>)
  {
    forall i, j :: 0 <= i < j < |s| ==> s[i] != s[j]
  }

  /** The largest size the cache can hold: no more than its capacity, and
      nothing at all when the capacity is zero or negative. */
  function Bound(capacity: int): nat
  {
    if capacity < 0 then 0 else capacity
  }

  /** The ordered dictionary is consistent and within capacity. */
  ghost predicate Valid<K(!new), V>(c: Lru<K, V>)
  {
    && Distinct(c.order)
    && (forall k :: k in c.order <==> k in c.entries)
    && |c.order| <= Bound(c.capacity)
  }

  // ---------------------------------------------------------------------------
  // Sequence helpers
  // ---------------------------------------------------------------------------

  /** The elements of `s` that satisfy `keep`, in their original order. */
  function Filter<K(!new)>(s: seq<K>, keep: K -> bool): (r: seq<K>)
    ensures forall x :: x in r <==> x in s && keep(x)
    ensures Distinct(s) ==> Distinct(r)
    ensures |r| <= |s|
  {
    if s == [] then []
    else
      var rest := Filter(s[1..], keep);
      assert forall x :: x in s[1..] ==> x in s;
      if keep(s[0]) then
        assert Distinct(s) ==> s[0] !in s[1..];
        [s[0]] + rest
      else
        rest
  }

  /** `a` is `b` with some elements left out. */
  predicate IsSubsequence<K(==,!new)>(a: seq<K>, b: seq<K>)
    decreases |b|
  {
    a == [] || (b != [] && if a[0] == b[0] then IsSubsequence(a[1..], b[1..]) else IsSubsequence(a, b[1..]))
  }

  lemma {:induction false} FilterIsSubsequence<K(!new)>(s: seq<K>, keep: K -> bool)
    ensures IsSubsequence(Filter(s, keep), s)
  {
    if s != [] {
      FilterIsSubsequence(s[1..], keep);
      if !keep(s[0]) {
        assert s[0] !in Filter(s[1..], keep);
      }
    }
  }

  lemma {:induction false} FilterSameOn<K(!new)>(s: seq<K>, p: K -> bool, q: K -> bool)
    requires forall x :: x in s ==> p(x) == q(x)
    ensures Filter(s, p) == Filter(s, q)
  {
    if s != [] {
      assert s[0] in s;
      assert forall x :: x in s[1..] ==> x in s;
      FilterSameOn(s[1..], p, q);
    }
  }

  function NotKey<K(==,!new)>(k: K): K -> bool
  {
    x => x != k
  }

  /** `s` without `k`. */
  function RemoveKey<K(==,!new)>(s: seq<K>, k: K): (r: seq<K>)
    ensures forall x :: x in r <==> x in s && x != k
    ensures Distinct(s) ==> Distinct(r)
  {
    Filter(s, NotKey(k))
  }

  lemma {:induction false} RemoveKeyLength<K(!new)>(s: seq<K>, k: K)
    ensures Distinct(s) ==> |RemoveKey(s, k)| == if k in s then |s| - 1 else |s|
  {
    if s != [] && Distinct(s) {
      assert Distinct(s[1..]) by {
        forall i, j | 0 <= i < j < |s[1..]| ensures s[1..][i] != s[1..][j] {
          assert s[1..][i] == s[i + 1] && s[1..][j] == s[j + 1];
        }
      }
      RemoveKeyLength(s[1..], k);
      assert k in s <==> k == s[0] || k in s[1..];
      if k == s[0] {
        assert k !in s[1..];
      }
    }
  }

  lemma {:induction false} RemoveKeyAbsent<K(!new)>(s: seq<K>, k: K)
    requires k !in s
    ensures RemoveKey(s, k) == s
  {
    if s != [] {
      RemoveKeyAbsent(s[1..], k);
      assert [s[0]] + s[1..] == s;
    }
  }

  lemma {:induction false} RemoveKeyLast<K(!new)>(s: seq<K>, k: K)
    ensures RemoveKey(s + [k], k) == RemoveKey(s, k)
  {
    if s == [] {
      assert [k][1..] == [];
    } else {
      assert (s + [k])[1..] == s[1..] + [k];
      RemoveKeyLast(s[1..], k);
    }
  }

  /** `move_to_end`: `k` becomes the most recent key. An absent `k` is
      appended: this is `cache[key] = value` followed by `move_to_end(key)`
      in `put` (Python's `move_to_end` alone would raise `KeyError`; `get`
      calls it only for a present key). */
  function MoveToEnd<K(==,!new)>(s: seq<K>, k: K): (r: seq<K>)
    ensures |r| > 0 && r[|r| - 1] == k
    ensures forall x :: x in r <==> x in s || x == k
    ensures Distinct(s) ==> Distinct(r)
    ensures Distinct(s) ==> |r| == if k in s then |s| else |s| + 1
    ensures RemoveKey(r, k) == RemoveKey(s, k)
  {
    var rest := RemoveKey(s, k);
    RemoveKeyLength(s, k);
    RemoveKeyLast(rest, k);
    RemoveKeyAbsent(rest, k);
    rest + [k]
  }

  // ---------------------------------------------------------------------------
  // The cache operations
  // ---------------------------------------------------------------------------

  /** `LRUCache(capacity)`: empty. */
  function New<K(!new), V>(capacity: int): (c: Lru<K, V>)
    ensures Valid(c) && c.capacity == capacity && c.entries == map[]
  {
    Lru(capacity, [], map[])
  }

  /** `get`: a miss returns nothing and changes nothing; a hit returns the
      value and makes the key the most recent. */
  function Get<K(==,!new), V>(c: Lru<K, V>, key: K): (r: (Option<V>, Lru<K, V>))
    ensures key !in c.entries ==> r == (None, c)
    ensures key in c.entries ==>
              && r.0 == Some(c.entries[key])
              && r.1.entries == c.entries
              && r.1.capacity == c.capacity
              && |r.1.order| > 0 && r.1.order[|r.1.order| - 1] == key
              && RemoveKey(r.1.order, key) == RemoveKey(c.order, key)
    ensures Valid(c) ==> Valid(r.1) && |r.1.order| == |c.order|
  {
    if key !in c.entries then (None, c)
    else (Some(c.entries[key]), c.(order := MoveToEnd(c.order, key)))
  }

  /** `put`: store the pair as the most recent entry, then, if the cache is
      over capacity, drop the least recent entry. The other keys keep their
      relative recency. */
  function Put<K(==,!new), V>(c: Lru<K, V>, key: K, value: V): (r: Lru<K, V>)
    ensures r.capacity == c.capacity
    ensures c.capacity >= 1 ==>
              key in r.entries && r.entries[key] == value && |r.order| > 0 && r.order[|r.order| - 1] == key
    ensures forall k :: k in r.entries && k != key ==> k in c.entries && r.entries[k] == c.entries[k]
    ensures c.capacity >= 1 ==>
              var rest := RemoveKey(c.order, key);
              r.order == (if |rest| + 1 > c.capacity then rest[1..] else rest) + [key]
  {
    var order := MoveToEnd(c.order, key);
    var entries := c.entries[key := value];
    if |order| > c.capacity then
      Lru(c.capacity, order[1..], entries - {order[0]})
    else
      Lru(c.capacity, order, entries)
  }

  /** `put` keeps the cache consistent and within capacity. */
  lemma PutKeepsValid<K(!new), V>(c: Lru<K, V>, key: K, value: V)
    requires Valid(c)
    ensures Valid(Put(c, key, value))
  {
    var order := MoveToEnd(c.order, key);
    var entries := c.entries[key := value];
    assert forall x :: x in order <==> x in entries;
    if |order| > c.capacity {
      var rest := order[1..];
      assert order == [order[0]] + rest;
      assert Distinct(rest) by {
        forall i, j | 0 <= i < j < |rest| ensures rest[i] != rest[j] {
          assert rest[i] == order[i + 1] && rest[j] == order[j + 1];
        }
      }
      assert order[0] !in rest by {
        forall i | 0 <= i < |rest| ensures rest[i] != order[0] {
          assert rest[i] == order[i + 1];
        }
      }
      assert forall x :: x in rest <==> x in entries - {order[0]};
    }
  }

  /** `put` evicts nothing when the key is already cached or there is room,
      and otherwise evicts exactly the least recent key. */
  lemma PutEvictsLeastRecent<K(!new), V>(c: Lru<K, V>, key: K, value: V)
    requires Valid(c)
    ensures key in c.entries || |c.order| < c.capacity ==>
              Put(c, key, value).entries.Keys == c.entries.Keys + {key}
    ensures key !in c.entries && 1 <= c.capacity <= |c.order| ==>
              Put(c, key, value).entries.Keys == c.entries.Keys - {c.order[0]} + {key}
  {
    var order := MoveToEnd(c.order, key);
    if key !in c.entries && c.order != [] {
      RemoveKeyAbsent(c.order, key);
      assert order == c.order + [key];
      assert order[0] == c.order[0];
      assert order[0] != key;
    }
  }

  function Keep<K>(condition: K -> bool): K -> bool
  {
    k => !condition(k)
  }

  /** `invalidate`: drop every key satisfying `condition`; the others keep
      their values and their relative recency. */
  function Invalidate<K(==,!new), V>(c: Lru<K, V>, condition: K -> bool): (r: Lru<K, V>)
    ensures forall k :: k in r.entries <==> k in c.entries && !condition(k)
    ensures forall k :: k in r.entries ==> r.entries[k] == c.entries[k]
    ensures IsSubsequence(r.order, c.order)
    ensures Valid(c) ==> Valid(r)
    ensures r.capacity == c.capacity
  {
    FilterIsSubsequence(c.order, Keep(condition));
    Lru(c.capacity, Filter(c.order, Keep(condition)), map k | k in c.entries && !condition(k) :: c.entries[k])
  }

  /** Invalidation depends only on what the condition says about cached keys. */
  lemma InvalidateSameOn<K(!new), V>(c: Lru<K, V>, p: K -> bool, q: K -> bool)
    requires Valid(c)
    requires forall k :: k in c.entries ==> p(k) == q(k)
    ensures Invalidate(c, p) == Invalidate(c, q)
  {
    FilterSameOn(c.order, Keep(p), Keep(q));
    assert Invalidate(c, p).entries == Invalidate(c, q).entries;
  }
}
