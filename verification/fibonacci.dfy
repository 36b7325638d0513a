/** The two memoised Fibonacci evaluators of `task_2.py`. */
module Fibonacci {
  import opened Options
  import opened Splay

  /** `fibonacci_lru` as plain recursion: `n` below 2, otherwise the sum of the
      two predecessors. */
  function FibLru(n: int): (r: int)
    ensures n >= 1 ==> r >= 1
  {
    if n < 2 then n else FibLru(n - 1) + FibLru(n - 2)
  }

  /** Every value in the tree's dictionary is the Fibonacci number of its key. */
  predicate CacheHoldsFib(st: SplayTree<int>)
  {
    forall k :: k in st.cache ==> st.cache[k] == FibLru(k)
  }

  /** `fibonacci_splay`: small `n` directly; otherwise the dictionary's value on
      a hit, or the sum of the two recursive results (the second computed on
      the tree the first left behind), inserted under `n`. Returns the result
      and the tree afterwards. */
  function FibSplay(n: int, st: SplayTree<int>): (r: (int, SplayTree<int>))
    ensures n < 2 ==> r == (n, st)
    ensures n >= 2 && Find(st, n).Some? ==> r == (Find(st, n).value, st)
    ensures CacheHoldsFib(st) ==> r.0 == FibLru(n) && CacheHoldsFib(r.1)
    ensures CacheHoldsFib(st) && n >= 2 ==> Find(r.1, n) == Some(FibLru(n))
    ensures st.cache.Keys <= r.1.cache.Keys
    ensures Valid(st) ==> Valid(r.1)
    decreases n
  {
    if n < 2 then (n, st)
    else
      match Find(st, n)
      case Some(v) => (v, st)
      case None =>
        var first := FibSplay(n - 1, st);
        var second := FibSplay(n - 2, first.1);
        var sum := first.0 + second.0;
        InsertKeepsValid(second.1, n, sum);
        (sum, Insert(second.1, n, sum))
  }

  /** A fresh tree gives the Fibonacci number, and remembers it. */
  lemma FibSplayFromEmpty(n: int)
    ensures FibSplay(n, Empty()).0 == FibLru(n)
    ensures Valid(FibSplay(n, Empty()).1) && CacheHoldsFib(FibSplay(n, Empty()).1)
  {
  }
}
