# Splay tree, LRU cache and memoised queries — a Dafny model

This project models a small benchmark repository that compares two memoisation
strategies. It has three parts:

- **The splay tree** (`splaytree.py`). This is a binary search tree over integer
  keys. Every insert splays: single and double rotations (zig, zig-zig, zig-zag
  and their mirrors) bring the accessed key, or its in-order neighbour, to the
  root. A dictionary shadows the tree, and `find` reads only that dictionary.
- **The LRU cache** (`task_1.py`). This is an ordered dictionary with `get`,
  `put` (which evicts past a capacity) and `invalidate`. The file also holds
  range-sum queries and point updates over a list, with and without the cache.
- **Fibonacci memoisation** (`task_2.py`). `fibonacci_lru` is plain recursion.
  `fibonacci_splay` uses the splay tree's `find`/`insert` as its memo table.

Nodes are never shared, so the in-place rewiring of nodes is modelled by pure
functions over an immutable `Tree` datatype. Each Python object that changes
state (`SplayTree`, `LRUCache`, the list) becomes a value that the operation
returns in updated form. `OrderedDict` is a recency sequence of distinct keys,
least recent first, plus a `map`. Python's list rules are modelled: negative
indices count from the end, slice bounds are clamped, and an out-of-range
assignment raises `IndexError`, which the model returns as `None`.

Files: `options.dfy` (the `Option` type), `splay_tree.dfy` (module `Splay`),
`lru_cache.dfy` (module `LruCache`), `range_sums.dfy` (module `RangeSums`),
`fibonacci.dfy` (module `Fibonacci`).

Re-inserting a key that is already present overwrites only its dictionary
entry (`splaytree.py:54-57`). The tree node keeps the value it was created
with. `find` reads the dictionary, so callers still see the new value. The
model keeps this behaviour as written.

## Model

| member | source | states |
|---|---|---|
| Splay.RotateRight | splaytree.py:41-45 | Needs a left child. That child becomes the root, and the in-order (key, value) sequence is unchanged. |
| Splay.RotateLeft | splaytree.py:47-51 | Needs a right child. That child becomes the root, and the in-order (key, value) sequence is unchanged. |
| Splay.RotationsKeepOrder | splaytree.py:41-51 | Both rotations keep the key set. The rotated tree is a search tree exactly when the original is. |
| Splay.Splay | splaytree.py:14-39 | `_splay` returns an empty tree exactly when given one. It returns the tree untouched when the key is at the root (lines 15-16), or when the key belongs on a side that has no child (lines 19-20, 30-31). |
| Splay.SplayKeepsInOrder | splaytree.py:14-39 | Splaying keeps the in-order entries, hence the key set and the search-tree order. It returns an empty tree exactly when given one. |
| Splay.SplayNeighbourAtRoot | splaytree.py:14-39 | On a non-empty search tree, the root after splaying is `key` itself, or a neighbour with no key on `key`'s side of it that lies beyond `key`. |
| Splay.SplayLeftNeighbour | splaytree.py:18-28 | The same invariant when `key` is below the root. With no left child the root stays; with `key` equal to the left child's key a single right rotation (zig) lifts it. |
| Splay.SplayZigZig | splaytree.py:21-23 | When `key` is below the left child too: after splaying the left-left grandchild and two right rotations, the invariant holds. |
| Splay.SplayZigZag | splaytree.py:24-28 | When `key` lies between the left child and the root: after splaying the left-right grandchild and lifting it twice, the invariant holds. |
| Splay.SplayRightNeighbour | splaytree.py:29-39 | The same invariant when `key` is above the root: the mirror of the left cases. |
| Splay.SplayZagZag | splaytree.py:32-34 | The mirror of zig-zig: `key` above the right child. |
| Splay.SplayZagZig | splaytree.py:35-39 | The mirror of zig-zag: `key` between the root and the right child. |
| Splay.SplayPresentKeyAtRoot | splaytree.py:15-39 | A key present in a search tree is at the root after splaying for it. |
| Splay.SplayAbsentKeyNeighbour | splaytree.py:14-39 | For an absent key, the splayed root is its in-order predecessor or successor. No tree key lies strictly between them, and the root's child on `key`'s side holds only keys on the far side of `key`. |
| Splay.Empty | splaytree.py:10-12 | A new tree satisfies the invariant, and `find` reports every key absent. |
| Splay.Insert | splaytree.py:53-70 | After `insert(k, v)` the root's key is `k`, whatever the state before. |
| Splay.Splice | splaytree.py:58-70 | The spliced node becomes the root and holds the new key. |
| Splay.SpliceInOrder | splaytree.py:58-70 | Splicing above a root that is the key's in-order neighbour is a sorted insert into the in-order sequence. |
| Splay.SpliceBelowRoot | splaytree.py:61-65 | If the old root's key is larger, the new node takes the old left subtree, and the old root, left-pruned, becomes its right child. The result is a sorted insert. |
| Splay.SpliceAboveRoot | splaytree.py:66-70 | The mirror case: new node on the left of the old root. The result is a sorted insert. |
| Splay.InsertKeepsValid | splaytree.py:53-70 | Insert keeps the search-tree order and keeps the dictionary's key set equal to the tree's. The key set grows by exactly `k`. |
| Splay.InsertInOrder | splaytree.py:53-70 | For a new key, the in-order sequence is the sorted insert of `(k, v)` (one more node). For an existing key, the in-order sequence is unchanged (no duplicate node). |
| Splay.ReinsertUpdatesOnlyDictionary | splaytree.py:54-57 | Re-inserting a present key leaves every tree entry, including that node's value, unchanged. `find` returns the new value. |
| Splay.BuildValid | splaytree.py:12 | Starting empty, any sequence of inserts gives a search tree whose key set is the set of inserted keys, and the dictionary has the same key set. |
| Splay.Find | splaytree.py:72-75 | On a valid tree, `find` returns a value exactly for the keys the tree holds. |
| Splay.FindReturnsLatest | splaytree.py:72-75 | After any sequence of inserts, `find(k)` is the value of the most recent insert of `k`, or `None` if `k` was never inserted. |
| Splay.InsertEntryOf | splaytree.py:53-70 | After one insert, a key the tree already held keeps its node's value, a new key's node holds the inserted value, and no other key appears. |
| Splay.TreeKeepsFirstValue | splaytree.py:54-58 | After any sequence of inserts, the tree's node for `k` holds the value of the first insert of `k`. |
| Splay.InsertThreeOneTwoShape | splaytree.py:53-70 | Inserting 3, 1, 2 gives root 2, with 1 as its left child and 3 as its right child. |
| LruCache.New | task_1.py:15-17 | A new cache is empty, valid and has the given capacity. |
| LruCache.MoveToEnd | task_1.py:22-27 | Puts the key last. Membership gains only that key, distinctness is kept, and the order of the other keys is unchanged. An absent key is appended, which is what `put` does by assigning `cache[key]` and then calling `move_to_end` (lines 26-27). `get` calls it only for a present key (line 22). Python's `move_to_end` on its own would raise `KeyError` for an absent key. |
| LruCache.Get | task_1.py:19-23 | A miss returns `None` and changes nothing. A hit returns the stored value, keeps the mapping, makes the key most recent and keeps the others' relative order. The cache stays valid. |
| LruCache.Put | task_1.py:25-29 | With capacity at least 1, the key maps to the new value and is most recent. No other key gains or changes a value. The other keys keep their relative recency order, minus the least recent one when the cache overflows. |
| LruCache.PutKeepsValid | task_1.py:25-29 | `put` keeps the keys distinct, keeps the sequence and map in step, and keeps the size within the capacity (zero for a non-positive capacity). |
| LruCache.PutEvictsLeastRecent | task_1.py:28-29 | Nothing is evicted when the key was present or there was room. Otherwise exactly the least recent key is evicted. |
| LruCache.Invalidate | task_1.py:31-34 | Exactly the keys meeting the condition are removed. The survivors keep their values, and their order is a subsequence of the old order. Validity is kept. |
| RangeSums.RangeSumNoCache | task_1.py:6-7 | The result is the sum of the positions Python's slice `a[L:R+1]` selects. For `0 <= L <= R < len(a)` that is a[L] + ... + a[R]. |
| RangeSums.UpdateNoCache | task_1.py:10-11 | Succeeds exactly for `-len(a) <= index < len(a)`. Only the position Python writes changes (a negative index counts from the end), and the length is kept. |
| RangeSums.RangeSumWithCache | task_1.py:37-44 | If every cached range holds its true sum, the result is the true sum and that still holds afterwards. With capacity at least 1, the range is then cached. |
| RangeSums.RangeSumWithCacheKeepsValid | task_1.py:37-44 | The cache stays a valid LRU cache. It also keeps only in-bounds ranges if the query is in bounds. |
| RangeSums.UpdateWithCache | task_1.py:47-54 | Raises exactly when the plain update does, and writes the same list. It removes exactly the cached ranges with `L <= index <= R`. |
| RangeSums.UpdateWithCacheKeepsCoherent | task_1.py:47-54 | For `0 <= index < len(a)` and in-bounds cached ranges, every remaining cached range still holds its true sum. |
| RangeSums.UpdateWithCacheNegativeIndexIsStale | task_1.py:47-54 | With a = [1, 2, 3] and (0, 2) cached as 6, an update at index -1 writes a[2] := 10. The stale 6 survives while the true sum is 13. |
| RangeSums.UpdateWithCacheNegativeRangeIsStale | task_1.py:47-54 | With a = [1, 2, 3] and (-3, -2) cached as 3 (the sum of `a[-3:-1]`), an update at index 1 writes a[1] := 10. The raw test `-3 <= 1 <= -2` fails, so the stale 3 survives while the true sum is 11. |
| RangeSums.UpdateWithCacheFixed | task_1.py:47-54 | Removing the ranges whose slice covers the written position keeps every cached sum true, for every index. |
| RangeSums.UpdateFixedAgreesInBounds | task_1.py:47-54 | For in-bounds indices and in-bounds cached ranges, the corrected update equals the original. |
| RangeSums.RunNoCache | task_1.py:78-85 | The uncached replay gives one answer per range query. It never raises when every query is within the list, as the generated ones are. |
| RangeSums.RunWithCache | task_1.py:92-101 | The cached replay also gives one answer per range query, and never raises on in-bounds queries. |
| RangeSums.CachedRunMatches | task_1.py:78-101 | Replaying in-bounds range and update queries through the cache gives exactly the answers of the uncached replay. |
| Fibonacci.FibLru | task_2.py:8-12 | `fibonacci_lru(n)` is at least 1 for every `n >= 1`. |
| Fibonacci.FibSplay | task_2.py:15-23 | Below 2 it returns `n` and leaves the tree alone. A hit returns the cached value and leaves the tree alone. If every cached `k` maps to `Fib(k)`, the result is `Fib(n)`, that invariant holds afterwards, `find(n)` then yields `Fib(n)`, and no cached key is lost. A valid splay tree (search-tree order, dictionary keys equal to tree keys) stays valid. |
| Fibonacci.FibSplayFromEmpty | task_2.py:15-23 | Starting from a new tree, the result is `Fib(n)` and the tree ends valid and holding only Fibonacci values. |

## Left out

- Timing, benchmarking, console output and plotting (`time.perf_counter`, `timeit`, `print_results`, `show_graph`, both `main` functions): wall-clock and I/O. `RunNoCache`, `RunWithCache` and `CachedRunMatches` keep only the two replay loops of `task_1.py`'s `main`, with the answers kept instead of discarded.
- Random workload generation in `task_1.py`'s `main`: nondeterministic input. The lemmas instead hold for every query list within the bounds that code generates.
- `functools.lru_cache` inside `fibonacci_lru`: a library decorator that changes speed, not results. `FibLru` is the plain recursion.
- `OrderedDict` and `dict` internals: modelled as a sequence of distinct keys plus a map.
- Object identity and in-place node mutation: the tree is strictly owned, so pure values are faithful.
- Python's recursion limit: deep `_splay` or `fibonacci_splay` recursion can raise `RecursionError`, which is not modelled.
- Amortised logarithmic cost of splaying: performance, not behaviour.
- Key types other than integers in the splay tree. The LRU cache is generic in its key and value types.
- Splaying on lookup: `find` (`splaytree.py:72-75`) reads only the dictionary and never restructures the tree. `Find` is a pure function of the state, so it leaves `root` unchanged too.
- Specific insert sequences (sequential keys, small hand-picked lists) are not separate lemmas. `BuildValid`, `FindReturnsLatest` and `TreeKeepsFirstValue` hold for every insert sequence, so they cover each of them.
- The source treats a cached value as a hit by testing `is not None`. The model uses `Some`/`None` directly. That is the same thing here, because the cached sums and Fibonacci numbers are integers and never `None`.
- FibLru: its contract states only positivity from 1 on, since its body is the recursion every Fibonacci claim in the model is measured against.
- UpdateWithCacheKeepsCoherent: holds only for a non-negative index and in-bounds cached ranges. Outside those, the source does not keep the cache coherent (see Findings).

## Findings

| source | as written | input that shows it | evidently intended | confidence | as-written member | corrected member |
|---|---|---|---|---|---|---|
| task_1.py:47-54 | The list write and the range sums use Python's index rules: `index = -1` writes the last element, and a negative cached `L` or `R` counts from the end. The invalidation test `L <= index <= R` compares the raw, un-normalised index and bounds. | `a = [1, 2, 3]`, cache `{(0, 2): 6}`, `update_with_cache(a, -1, 10, cache)`: `a` becomes `[1, 2, 10]`, `(0, 2)` stays cached as 6, and `range_sum_with_cache(a, 0, 2, cache)` returns 6 instead of 13. Likewise, with cache `{(-3, -2): 3}` (the sum of `a[-3:-1]`), `update_with_cache(a, 1, 10, cache)` keeps the 3, but the slice now sums to 11 (`UpdateWithCacheNegativeRangeIsStale`). | Evict every cached range whose slice contains the position actually written, so cached sums stay true. | medium, not executed; the benchmark itself only issues indices in `0..N-1`, where the two behaviours agree | RangeSums.UpdateWithCacheNegativeIndexIsStale | RangeSums.UpdateWithCacheFixed |
