/** Range-sum queries and point updates of `task_1.py`, without a cache and
    with an LRU cache keyed by the query's (L, R) pair. Python's slicing and
    indexing rules are modelled: negative positions count from the end, slice
    bounds are clamped, and an out-of-range assignment raises (here: `None`). */
module RangeSums {
  import opened Options
  import opened LruCache

  /** The cache key of a range query: its (L, R) pair. */
  type Range = (int, int)

  // ---------------------------------------------------------------------------
  // Sums and Python slices
  // ---------------------------------------------------------------------------

  /** Python's `sum`, left to right. */
  function Sum(s: seq<int>): int
  {
    if s == [] then 0 else s[0] + Sum(s[1..])
  }

  /** Reference: a[lo] + ... + a[hi - 1], accumulated from the right end. */
  function SumBetween(a: seq<int>, lo: nat, hi: nat): int
    requires hi <= |a|
    decreases hi
  {
    if hi <= lo then 0 else SumBetween(a, lo, hi - 1) + a[hi - 1]
  }

  lemma {:induction false} SumSnoc(s: seq<int>, x: int)
    ensures Sum(s + [x]) == Sum(s) + x
  {
    if s != [] {
      assert (s + [x])[1..] == s[1..] + [x];
      SumSnoc(s[1..], x);
    }
  }

  lemma {:induction false} SumSliceIsSumBetween(a: seq<int>, lo: nat, hi: nat)
    requires lo <= hi <= |a|
    ensures Sum(a[lo..hi]) == SumBetween(a, lo, hi)
    decreases hi
  {
    if lo < hi {
      SumSliceIsSumBetween(a, lo, hi - 1);
      assert a[lo..hi] == a[lo..hi - 1] + [a[hi - 1]];
      SumSnoc(a[lo..hi - 1], a[hi - 1]);
    }
  }

  /** Where a slice bound falls in a list of length `n`: a negative bound
      counts from the end, and the result is clamped to 0..n. */
  function SliceBound(n: nat, i: int): (b: nat)
    ensures b <= n
    ensures 0 <= i <= n ==> b == i
    ensures i < 0 <= i + n ==> b == i + n
  {
    if i < 0 then (if i + n < 0 then 0 else i + n)
    else if i > n then n
    else i
  }

  /** Python's `a[lo:hi]`. */
  function Slice(a: seq<int>, lo: int, hi: int): seq<int>
  {
    var l, h := SliceBound(|a|, lo), SliceBound(|a|, hi);
    if l < h then a[l..h] else []
  }

  /** Whether position `i` of a list of length `n` lies in `a[L:R + 1]`. */
  predicate Covers(n: nat, range: Range, i: nat)
  {
    SliceBound(n, range.0) <= i < SliceBound(n, range.1 + 1)
  }

  /** `range_sum_no_cache`: the sum of `a[L:R + 1]`, which for `0 <= L <= R < |a|`
      is a[L] + ... + a[R]. */
  function RangeSumNoCache(a: seq<int>, L: int, R: int): (r: int)
    ensures r == SumBetween(a, SliceBound(|a|, L), SliceBound(|a|, R + 1))
    ensures 0 <= L <= R < |a| ==> r == SumBetween(a, L, R + 1)
  {
    var l, h := SliceBound(|a|, L), SliceBound(|a|, R + 1);
    if l < h then SumSliceIsSumBetween(a, l, h); Sum(Slice(a, L, R + 1))
    else Sum(Slice(a, L, R + 1))
  }

  /** Writing a position outside [lo, hi) leaves the sum over [lo, hi) alone. */
  lemma {:induction false} SumBetweenUnchanged(a: seq<int>, lo: nat, hi: nat, i: nat, v: int)
    requires hi <= |a| && i < |a| && !(lo <= i < hi)
    ensures SumBetween(a[i := v], lo, hi) == SumBetween(a, lo, hi)
    decreases hi
  {
    if lo < hi {
      SumBetweenUnchanged(a, lo, hi - 1, i, v);
    }
  }

  /** Python's position for index `i` of a list of length `n`, or `None` for
      an `IndexError`. */
  function PyIndex(n: nat, i: int): (r: Option<nat>)
    ensures r.Some? <==> 0 <= i + n && i < n
    ensures r.Some? ==> r.value < n && (r.value == i || r.value == i + n)
  {
    if 0 <= i < n then Some(i)
    else if i < 0 <= i + n then Some(i + n)
    else None
  }

  /** `update_no_cache`: `a[index] = value`; `None` when Python would raise. */
  function UpdateNoCache(a: seq<int>, index: int, value: int): (r: Option<seq<int>>)
    ensures r.Some? <==> -|a| <= index < |a|
    ensures r.Some? ==> |r.value| == |a|
    ensures r.Some? ==> forall j :: 0 <= j < |a| ==>
              r.value[j] == if j == index || j == index + |a| then value else a[j]
  {
    match PyIndex(|a|, index)
    case None => None
    case Some(i) => Some(a[i := value])
  }

  // ---------------------------------------------------------------------------
  // The cached variants
  // ---------------------------------------------------------------------------

  /** The condition `update_with_cache` passes to `invalidate`: L <= index <= R. */
  function SpansIndex(index: int): Range -> bool
  {
    (range: Range) => range.0 <= index <= range.1
  }

  /** The slice of the range contains position `i`. */
  function CoversPosition(n: nat, i: nat): Range -> bool
  {
    (range: Range) => Covers(n, range, i)
  }

  /** Every cached range holds the current sum of its slice. */
  ghost predicate Coherent(a: seq<int>, c: Lru<Range, int>)
  {
    forall range :: range in c.entries ==> c.entries[range] == RangeSumNoCache(a, range.0, range.1)
  }

  /** Every cached range was asked for with `0 <= L <= R < n`. */
  ghost predicate KeysInBounds(c: Lru<Range, int>, n: nat)
  {
    forall range :: range in c.entries ==> 0 <= range.0 <= range.1 < n
  }

  /** `range_sum_with_cache`: answer from the cache on a hit, otherwise sum and
      remember the answer. */
  function RangeSumWithCache(a: seq<int>, L: int, R: int, c: Lru<Range, int>): (r: (int, Lru<Range, int>))
    ensures Coherent(a, c) ==> r.0 == RangeSumNoCache(a, L, R) && Coherent(a, r.1)
    ensures r.1.capacity == c.capacity
    ensures c.capacity >= 1 ==> (L, R) in r.1.entries
    ensures forall range :: range in r.1.entries ==> range in c.entries || range == (L, R)
  {
    var (hit, c1) := Get(c, (L, R));
    if hit.Some? then (hit.value, c1)
    else
      var s := RangeSumNoCache(a, L, R);
      (s, Put(c1, (L, R), s))
  }

  /** The cached variant keeps the cache a valid LRU cache, and in bounds when
      the query is. */
  lemma RangeSumWithCacheKeepsValid(a: seq<int>, L: int, R: int, c: Lru<Range, int>)
    requires Valid(c)
    ensures Valid(RangeSumWithCache(a, L, R, c).1)
    ensures KeysInBounds(c, |a|) && 0 <= L <= R < |a| ==> KeysInBounds(RangeSumWithCache(a, L, R, c).1, |a|)
  {
    var c1 := Get(c, (L, R)).1;
    if (L, R) !in c.entries {
      PutKeepsValid(c1, (L, R), RangeSumNoCache(a, L, R));
    }
  }

  /** `update_with_cache` as written: assign `a[index]`, then drop every cached
      range with `L <= index <= R`, comparing against `index` as given. */
  function UpdateWithCache(a: seq<int>, index: int, value: int, c: Lru<Range, int>)
    : (r: Option<(seq<int>, Lru<Range, int>)>)
    ensures r.Some? <==> -|a| <= index < |a|
    ensures r.Some? ==> r.value.0 == UpdateNoCache(a, index, value).value
    ensures r.Some? ==> forall range :: range in r.value.1.entries <==>
              range in c.entries && !(range.0 <= index <= range.1)
    ensures r.Some? && Valid(c) ==> Valid(r.value.1)
  {
    match UpdateNoCache(a, index, value)
    case None => None
    case Some(a') => Some((a', Invalidate(c, SpansIndex(index))))
  }

  /** For an in-range, non-negative index and ranges asked for in bounds, the
      invalidation removes every range whose sum the write changes. */
  lemma UpdateWithCacheKeepsCoherent(a: seq<int>, index: int, value: int, c: Lru<Range, int>)
    requires Coherent(a, c) && KeysInBounds(c, |a|) && 0 <= index < |a|
    ensures UpdateWithCache(a, index, value, c).Some?
    ensures Coherent(UpdateWithCache(a, index, value, c).value.0, UpdateWithCache(a, index, value, c).value.1)
    ensures KeysInBounds(UpdateWithCache(a, index, value, c).value.1, |a|)
  {
    var r := UpdateWithCache(a, index, value, c).value;
    assert r.0 == a[index := value];
    forall range | range in r.1.entries
      ensures r.1.entries[range] == RangeSumNoCache(r.0, range.0, range.1)
    {
      SumBetweenUnchanged(a, range.0, range.1 + 1, index, value);
    }
  }

  /** A negative index writes near the end of the list but is compared
      unnormalised, so a cached range over the written position survives with
      a stale sum. */
  lemma UpdateWithCacheNegativeIndexIsStale()
    ensures Coherent([1, 2, 3], Put(New(DefaultCapacity), (0, 2), 6))
    ensures UpdateWithCache([1, 2, 3], -1, 10, Put(New(DefaultCapacity), (0, 2), 6)).Some?
    ensures var r := UpdateWithCache([1, 2, 3], -1, 10, Put(New(DefaultCapacity), (0, 2), 6)).value;
            r.0 == [1, 2, 10] && (0, 2) in r.1.entries && r.1.entries[(0, 2)] == 6
            && RangeSumNoCache(r.0, 0, 2) == 13 && !Coherent(r.0, r.1)
  {
    var a: seq<int> := [1, 2, 3];
    var c: Lru<Range, int> := Put(New(DefaultCapacity), (0, 2), 6);
    assert c.entries == map[(0, 2) := 6];
    assert RangeSumNoCache(a, 0, 2) == 6;
    var r := UpdateWithCache(a, -1, 10, c).value;
    assert r.0 == [1, 2, 10];
    assert RangeSumNoCache(r.0, 0, 2) == 13;
  }

  /** The same raw comparison misses a cached range given with negative bounds:
      `(-3, -2)` is the slice `a[-3:-1]`, which covers position 1, yet
      `-3 <= 1 <= -2` fails, so its sum goes stale. */
  lemma UpdateWithCacheNegativeRangeIsStale()
    ensures Coherent([1, 2, 3], Put(New(DefaultCapacity), (-3, -2), 3))
    ensures UpdateWithCache([1, 2, 3], 1, 10, Put(New(DefaultCapacity), (-3, -2), 3)).Some?
    ensures var r := UpdateWithCache([1, 2, 3], 1, 10, Put(New(DefaultCapacity), (-3, -2), 3)).value;
            r.0 == [1, 10, 3] && (-3, -2) in r.1.entries && r.1.entries[(-3, -2)] == 3
            && RangeSumNoCache(r.0, -3, -2) == 11 && !Coherent(r.0, r.1)
  {
    var a: seq<int> := [1, 2, 3];
    var c: Lru<Range, int> := Put(New(DefaultCapacity), (-3, -2), 3);
    assert c.entries == map[(-3, -2) := 3];
    assert RangeSumNoCache(a, -3, -2) == 3;
    var r := UpdateWithCache(a, 1, 10, c).value;
    assert r.0 == [1, 10, 3];
    assert RangeSumNoCache(r.0, -3, -2) == 11;
  }

  /** `update_with_cache` with the invalidation compared against the position
      Python actually writes: drop every cached range whose slice covers it. */
  function UpdateWithCacheFixed(a: seq<int>, index: int, value: int, c: Lru<Range, int>)
    : (r: Option<(seq<int>, Lru<Range, int>)>)
    ensures r.Some? <==> -|a| <= index < |a|
    ensures r.Some? ==> r.value.0 == UpdateNoCache(a, index, value).value
    ensures r.Some? && Coherent(a, c) ==> Coherent(r.value.0, r.value.1)
    ensures r.Some? && Valid(c) ==> Valid(r.value.1)
  {
    match PyIndex(|a|, index)
    case None => None
    case Some(i) =>
      var c' := Invalidate(c, CoversPosition(|a|, i));
      assert Coherent(a, c) ==> Coherent(a[i := value], c') by {
        forall range | range in c'.entries && Coherent(a, c)
          ensures c'.entries[range] == RangeSumNoCache(a[i := value], range.0, range.1)
        {
          SumBetweenUnchanged(a, SliceBound(|a|, range.0), SliceBound(|a|, range.1 + 1), i, value);
        }
      }
      Some((a[i := value], c'))
  }

  /** For the queries the benchmark issues (in-bounds index, in-bounds cached
      ranges) the corrected update evicts exactly what the original does. */
  lemma UpdateFixedAgreesInBounds(a: seq<int>, index: int, value: int, c: Lru<Range, int>)
    requires Valid(c) && KeysInBounds(c, |a|) && 0 <= index < |a|
    ensures UpdateWithCacheFixed(a, index, value, c) == UpdateWithCache(a, index, value, c)
  {
    assert forall range :: range in c.entries ==> CoversPosition(|a|, index)(range) == SpansIndex(index)(range);
    InvalidateSameOn(c, CoversPosition(|a|, index), SpansIndex(index));
  }

  // ---------------------------------------------------------------------------
  // Replaying a query list
  // ---------------------------------------------------------------------------

  datatype Query = RangeQuery(L: int, R: int) | UpdateQuery(index: int, value: int)

  /** The number of range queries in `qs`: one answer each. */
  function RangeCount(qs: seq<Query>): nat
  {
    if qs == [] then 0 else (if qs[0].RangeQuery? then 1 else 0) + RangeCount(qs[1..])
  }

  /** The query shapes the benchmark generates: 0 <= L <= R < n and 0 <= index < n. */
  predicate QueriesInBounds(qs: seq<Query>, n: nat)
  {
    forall q :: q in qs ==>
      match q
      case RangeQuery(L, R) => 0 <= L <= R < n
      case UpdateQuery(i, _) => 0 <= i < n
  }

  /** The answers to the range queries of `qs`, without a cache; `None` when an
      update raises. */
  function RunNoCache(a: seq<int>, qs: seq<Query>): (r: Option<seq<int>>)
    ensures r.Some? ==> |r.value| == RangeCount(qs)
    ensures QueriesInBounds(qs, |a|) ==> r.Some?
    decreases |qs|
  {
    if qs == [] then Some([])
    else
      assert qs[0] in qs;
      assert QueriesInBounds(qs, |a|) ==> QueriesInBounds(qs[1..], |a|) by {
        assert forall q :: q in qs[1..] ==> q in qs;
      }
      match qs[0]
      case RangeQuery(L, R) =>
        (match RunNoCache(a, qs[1..])
         case None => None
         case Some(rest) => Some([RangeSumNoCache(a, L, R)] + rest))
      case UpdateQuery(i, v) =>
        (match UpdateNoCache(a, i, v)
         case None => None
         case Some(a') => RunNoCache(a', qs[1..]))
  }

  /** The same replay through the LRU cache. */
  function RunWithCache(a: seq<int>, c: Lru<Range, int>, qs: seq<Query>): (r: Option<seq<int>>)
    ensures r.Some? ==> |r.value| == RangeCount(qs)
    ensures QueriesInBounds(qs, |a|) ==> r.Some?
    decreases |qs|
  {
    if qs == [] then Some([])
    else
      assert qs[0] in qs;
      assert QueriesInBounds(qs, |a|) ==> QueriesInBounds(qs[1..], |a|) by {
        assert forall q :: q in qs[1..] ==> q in qs;
      }
      match qs[0]
      case RangeQuery(L, R) =>
        var (s, c') := RangeSumWithCache(a, L, R, c);
        (match RunWithCache(a, c', qs[1..])
         case None => None
         case Some(rest) => Some([s] + rest))
      case UpdateQuery(i, v) =>
        (match UpdateWithCache(a, i, v, c)
         case None => None
         case Some(r) => RunWithCache(r.0, r.1, qs[1..]))
  }

  /** The cache is transparent: replaying in-bounds queries through it gives
      exactly the answers of the uncached replay. */
  lemma {:induction false} CachedRunMatches(a: seq<int>, c: Lru<Range, int>, qs: seq<Query>)
    requires Coherent(a, c) && KeysInBounds(c, |a|) && QueriesInBounds(qs, |a|)
    ensures RunWithCache(a, c, qs) == RunNoCache(a, qs)
    decreases |qs|
  {
    if qs != [] {
      assert qs[0] in qs;
      assert QueriesInBounds(qs[1..], |a|) by {
        forall q | q in qs[1..] ensures q in qs {
        }
      }
      match qs[0]
      case RangeQuery(L, R) =>
        var c' := RangeSumWithCache(a, L, R, c).1;
        CachedRunMatches(a, c', qs[1..]);
      case UpdateQuery(i, v) =>
        UpdateWithCacheKeepsCoherent(a, i, v, c);
        var r := UpdateWithCache(a, i, v, c).value;
        CachedRunMatches(r.0, r.1, qs[1..]);
    }
  }
}
