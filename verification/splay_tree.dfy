/** A splay tree over integer keys together with the dictionary that shadows it.
    Nodes are never shared, so the in-place rewiring of nodes in the Python code is
    modelled by pure functions that rebuild the affected nodes. */
module Splay {
  import opened Options

  datatype Tree<V> = Leaf | Node(key: int, value: V, left: Tree<V>, right: Tree<V>)

  /** The tree of `SplayTree`: its root plus the dictionary `find` reads. */
  datatype SplayTree<V> = SplayTree(root: Tree<V>, cache: map<int, V>)

  // ---------------------------------------------------------------------------
  // Views of a tree: in-order entries, key set, search-tree order
  // ---------------------------------------------------------------------------

  /** The (key, value) pairs of a tree, left to right. */
  function InOrder<V>(t: Tree<V>): seq<(int, V)>
  {
    match t
    case Leaf => []
    case Node(k, v, l, r) => InOrder(l) + [(k, v)] + InOrder(r)
  }

  function Keys<V>(t: Tree<V>): set<int>
  {
    match t
    case Leaf => {}
    case Node(k, _, l, r) => Keys(l) + {k} + Keys(r)
  }

  /** Every key in a left subtree is below its node, every key in a right subtree above. */
  predicate IsBst<V>(t: Tree<V>)
  {
    match t
    case Leaf => true
    case Node(k, _, l, r) =>
      && IsBst(l) && IsBst(r)
      && (forall x :: x in Keys(l) ==> x < k)
      && (forall x :: x in Keys(r) ==> k < x)
  }

  /** The keys of a sequence of entries. */
  function KeySet<V>(s: seq<(int, V)>): set<int>
  {
    set i | 0 <= i < |s| :: s[i].0
  }

  /** Entries in strictly ascending key order (so no key occurs twice). */
  predicate Increasing<V>(s: seq<(int, V)>)
  {
    forall i, j :: 0 <= i < j < |s| ==> s[i].0 < s[j].0
  }

  lemma KeySetAppend<V>(a: seq<(int, V)>, b: seq<(int, V)>)
    ensures KeySet(a + b) == KeySet(a) + KeySet(b)
  {
    forall x | x in KeySet(a + b) ensures x in KeySet(a) + KeySet(b) {
      var i :| 0 <= i < |a + b| && (a + b)[i].0 == x;
      if i >= |a| {
        assert b[i - |a|].0 == x;
      }
    }
    forall x | x in KeySet(b) ensures x in KeySet(a + b) {
      var i :| 0 <= i < |b| && b[i].0 == x;
      assert (a + b)[|a| + i].0 == x;
    }
    forall x | x in KeySet(a) ensures x in KeySet(a + b) {
      var i :| 0 <= i < |a| && a[i].0 == x;
      assert (a + b)[i].0 == x;
    }
  }

  lemma KeySetSingleton<V>(e: (int, V))
    ensures KeySet([e]) == {e.0}
  {
    assert [e][0] == e;
  }

  /** The key set of a tree is the key set of its in-order sequence. */
  lemma {:induction false} KeysOfInOrder<V>(t: Tree<V>)
    ensures Keys(t) == KeySet(InOrder(t))
  {
    match t
    case Leaf =>
    case Node(k, v, l, r) =>
      KeysOfInOrder(l);
      KeysOfInOrder(r);
      KeySetAppend(InOrder(l), [(k, v)]);
      KeySetAppend(InOrder(l) + [(k, v)], InOrder(r));
      KeySetSingleton((k, v));
  }

  /** Ascending pieces around a separating entry join into an ascending sequence. */
  lemma IncreasingJoin<V>(L: seq<(int, V)>, e: (int, V), R: seq<(int, V)>)
    requires Increasing(L) && Increasing(R)
    requires forall x :: x in KeySet(L) ==> x < e.0
    requires forall x :: x in KeySet(R) ==> e.0 < x
    ensures Increasing(L + [e] + R)
  {
    var s := L + [e] + R;
    forall i, j | 0 <= i < j < |s| ensures s[i].0 < s[j].0 {
      if j < |L| {
        assert s[i] == L[i] && s[j] == L[j];
      } else if j == |L| {
        assert s[i] == L[i] && L[i].0 in KeySet(L);
      } else if i < |L| {
        assert s[i] == L[i] && L[i].0 in KeySet(L);
        assert s[j] == R[j - |L| - 1] && R[j - |L| - 1].0 in KeySet(R);
      } else if i == |L| {
        assert s[j] == R[j - |L| - 1] && R[j - |L| - 1].0 in KeySet(R);
      } else {
        assert s[i] == R[i - |L| - 1] && s[j] == R[j - |L| - 1];
      }
    }
  }

  /** An ascending sequence splits around any entry into ascending pieces that it separates. */
  lemma IncreasingSplit<V>(L: seq<(int, V)>, e: (int, V), R: seq<(int, V)>)
    requires Increasing(L + [e] + R)
    ensures Increasing(L) && Increasing(R)
    ensures forall x :: x in KeySet(L) ==> x < e.0
    ensures forall x :: x in KeySet(R) ==> e.0 < x
  {
    var s := L + [e] + R;
    assert s[|L|] == e;
    forall i, j | 0 <= i < j < |L| ensures L[i].0 < L[j].0 {
      assert s[i] == L[i] && s[j] == L[j];
    }
    forall i, j | 0 <= i < j < |R| ensures R[i].0 < R[j].0 {
      assert s[|L| + 1 + i] == R[i] && s[|L| + 1 + j] == R[j];
    }
    forall x | x in KeySet(L) ensures x < e.0 {
      var i :| 0 <= i < |L| && L[i].0 == x;
      assert s[i] == L[i];
    }
    forall x | x in KeySet(R) ensures e.0 < x {
      var i :| 0 <= i < |R| && R[i].0 == x;
      assert s[|L| + 1 + i] == R[i];
    }
  }

  /** The structural search-tree order holds exactly when the in-order keys ascend. */
  lemma {:induction false} BstIffIncreasing<V>(t: Tree<V>)
    ensures IsBst(t) <==> Increasing(InOrder(t))
  {
    match t
    case Leaf =>
    case Node(k, v, l, r) =>
      BstIffIncreasing(l);
      BstIffIncreasing(r);
      KeysOfInOrder(l);
      KeysOfInOrder(r);
      if IsBst(t) {
        IncreasingJoin(InOrder(l), (k, v), InOrder(r));
      }
      if Increasing(InOrder(t)) {
        IncreasingSplit(InOrder(l), (k, v), InOrder(r));
      }
  }

  /** Two trees with the same in-order entries have the same keys, the same
      search-tree status, and the same emptiness. */
  lemma SameInOrder<V>(t: Tree<V>, u: Tree<V>)
    requires InOrder(t) == InOrder(u)
    ensures Keys(t) == Keys(u)
    ensures IsBst(t) <==> IsBst(u)
    ensures t.Leaf? <==> u.Leaf?
  {
    KeysOfInOrder(t);
    KeysOfInOrder(u);
    BstIffIncreasing(t);
    BstIffIncreasing(u);
    if t.Node? {
      assert |InOrder(t)| > 0;
    }
    if u.Node? {
      assert |InOrder(u)| > 0;
    }
  }

  // ---------------------------------------------------------------------------
  // Rotations
  // ---------------------------------------------------------------------------

  /** Promotes the left child; the source dereferences `root.left`, so it must exist. */
  function RotateRight<V>(t: Tree<V>): (r: Tree<V>)
    requires t.Node? && t.left.Node?
    ensures r.Node? && r.key == t.left.key
    ensures InOrder(r) == InOrder(t)
  {
    var Node(k, v, Node(lk, lv, ll, lr), rr) := t;
    Node(lk, lv, ll, Node(k, v, lr, rr))
  }

  /** Promotes the right child, which must exist. */
  function RotateLeft<V>(t: Tree<V>): (r: Tree<V>)
    requires t.Node? && t.right.Node?
    ensures r.Node? && r.key == t.right.key
    ensures InOrder(r) == InOrder(t)
  {
    var Node(k, v, ll, Node(rk, rv, rl, rr)) := t;
    Node(rk, rv, Node(k, v, ll, rl), rr)
  }

  /** A rotation keeps the key set and the search-tree order. */
  lemma RotationsKeepOrder<V>(t: Tree<V>)
    requires t.Node?
    ensures t.left.Node? ==> Keys(RotateRight(t)) == Keys(t) && (IsBst(RotateRight(t)) <==> IsBst(t))
    ensures t.right.Node? ==> Keys(RotateLeft(t)) == Keys(t) && (IsBst(RotateLeft(t)) <==> IsBst(t))
  {
    if t.left.Node? {
      SameInOrder(RotateRight(t), t);
    }
    if t.right.Node? {
      SameInOrder(RotateLeft(t), t);
    }
  }

  // ---------------------------------------------------------------------------
  // Splay
  // ---------------------------------------------------------------------------

  /** Brings `key` (or, when it is absent, the last node on its search path)
      to the root, resolving two levels of the path per step. */
  function Splay<V>(t: Tree<V>, key: int): (r: Tree<V>)
    ensures r.Leaf? <==> t.Leaf?
    ensures t.Node? && t.key == key ==> r == t
    ensures t.Node? && key < t.key && t.left.Leaf? ==> r == t
    ensures t.Node? && t.key < key && t.right.Leaf? ==> r == t
  {
    match t
    case Leaf => t
    case Node(k, v, l, r) =>
      if key == k then t
      else if key < k then
        match l
        case Leaf => t
        case Node(lk, lv, ll, lr) =>
          var t1 :=
            if key < lk then
              // zig-zig: splay the left-left grandchild, then rotate the root right
              RotateRight(Node(k, v, Node(lk, lv, Splay(ll, key), lr), r))
            else if key > lk then
              // zig-zag: splay the left-right grandchild, lift it over the left child
              var lr' := Splay(lr, key);
              var l' := Node(lk, lv, ll, lr');
              Node(k, v, if lr'.Node? then RotateLeft(l') else l', r)
            else
              t;
          if t1.left.Node? then RotateRight(t1) else t1
      else
        match r
        case Leaf => t
        case Node(rk, rv, rl, rr) =>
          var t1 :=
            if key > rk then
              // zag-zag
              RotateLeft(Node(k, v, l, Node(rk, rv, rl, Splay(rr, key))))
            else if key < rk then
              // zag-zig
              var rl' := Splay(rl, key);
              var r' := Node(rk, rv, rl', rr);
              Node(k, v, l, if rl'.Node? then RotateRight(r') else r')
            else
              t;
          if t1.right.Node? then RotateLeft(t1) else t1
  }

  /** Splaying only rearranges: the in-order entries are unchanged, hence so are
      the key set and search-tree order, and the result is empty exactly when
      the input is. */
  lemma {:induction false} SplayKeepsInOrder<V>(t: Tree<V>, key: int)
    ensures InOrder(Splay(t, key)) == InOrder(t)
    ensures Keys(Splay(t, key)) == Keys(t)
    ensures IsBst(Splay(t, key)) <==> IsBst(t)
    ensures Splay(t, key).Leaf? <==> t.Leaf?
  {
    match t
    case Leaf =>
    case Node(k, v, l, r) =>
      if key == k {
      } else if key < k {
        match l
        case Leaf =>
        case Node(lk, lv, ll, lr) =>
          if key < lk {
            SplayKeepsInOrder(ll, key);
            var t0 := Node(k, v, Node(lk, lv, Splay(ll, key), lr), r);
            assert InOrder(t0) == InOrder(t);
          } else if key > lk {
            SplayKeepsInOrder(lr, key);
            var lr' := Splay(lr, key);
            var l' := Node(lk, lv, ll, lr');
            assert InOrder(l') == InOrder(l);
            var t0 := Node(k, v, if lr'.Node? then RotateLeft(l') else l', r);
            assert InOrder(t0) == InOrder(t);
          }
          assert InOrder(Splay(t, key)) == InOrder(t);
      } else {
        match r
        case Leaf =>
        case Node(rk, rv, rl, rr) =>
          if key > rk {
            SplayKeepsInOrder(rr, key);
            var t0 := Node(k, v, l, Node(rk, rv, rl, Splay(rr, key)));
            assert InOrder(t0) == InOrder(t);
          } else if key < rk {
            SplayKeepsInOrder(rl, key);
            var rl' := Splay(rl, key);
            var r' := Node(rk, rv, rl', rr);
            assert InOrder(r') == InOrder(r);
            var t0 := Node(k, v, l, if rl'.Node? then RotateRight(r') else r');
            assert InOrder(t0) == InOrder(t);
          }
          assert InOrder(Splay(t, key)) == InOrder(t);
      }
      SameInOrder(Splay(t, key), t);
  }

  /** `s` has `key` at its root, or else the root is the in-order neighbour of
      `key`: the side of the root that `key` would go to holds no key beyond it. */
  predicate NeighbourAtRoot<V>(s: Tree<V>, key: int)
  {
    && s.Node?
    && (key < s.key ==> forall x :: x in Keys(s.left) ==> x < key)
    && (s.key < key ==> forall x :: x in Keys(s.right) ==> key < x)
  }

  /** The splay invariant: in a non-empty search tree, splaying for `key`
      leaves `key` or its in-order neighbour at the root. */
  lemma {:induction false} SplayNeighbourAtRoot<V>(t: Tree<V>, key: int)
    requires IsBst(t) && t.Node?
    ensures NeighbourAtRoot(Splay(t, key), key)
    decreases t, 2
  {
    if key < t.key {
      SplayLeftNeighbour(t, key);
    } else if key > t.key {
      SplayRightNeighbour(t, key);
    }
  }

  /** The zig, zig-zig and zig-zag cases: `key` lies left of the root. */
  lemma {:induction false} SplayLeftNeighbour<V>(t: Tree<V>, key: int)
    requires IsBst(t) && t.Node? && key < t.key
    ensures NeighbourAtRoot(Splay(t, key), key)
    decreases t, 1
  {
    match t.left
    case Leaf =>
    case Node(lk, _, ll, lr) =>
      assert lk in Keys(t.left);
      if key < lk {
        SplayZigZig(t, key);
      } else if key > lk {
        SplayZigZag(t, key);
      }
  }

  /** Zig-zig: `key` lies left of the left child. The left-left grandchild is
      splayed, then the tree is rotated right twice. */
  lemma {:induction false} SplayZigZig<V>(t: Tree<V>, key: int)
    requires IsBst(t) && t.Node? && t.left.Node? && key < t.left.key < t.key
    ensures NeighbourAtRoot(Splay(t, key), key)
    decreases t, 0
  {
    var Node(k, v, l, r) := t;
    var Node(lk, lv, ll, lr) := l;
    var s := Splay(ll, key);
    SplayKeepsInOrder(ll, key);
    if ll.Node? {
      SplayNeighbourAtRoot(ll, key);
      var t1 := Node(s.key, s.value, s.left, Node(lk, lv, s.right, Node(k, v, lr, r)));
      assert Splay(t, key) == t1;
      if s.key < key {
        assert Keys(s) == Keys(s.left) + {s.key} + Keys(s.right);
        assert IsBst(l);
        assert Keys(t1.right) == Keys(s.right) + {lk} + (Keys(lr) + {k} + Keys(r));
        forall x | x in Keys(t1.right) ensures key < x {
          if x in Keys(lr) {
            assert lk < x;
          }
        }
      }
    } else {
      assert Splay(t, key) == Node(lk, lv, Leaf, Node(k, v, lr, r));
    }
  }

  /** Zig-zag: `key` lies between the left child and the root. The left-right
      grandchild is splayed, lifted over the left child, then over the root. */
  lemma {:induction false} SplayZigZag<V>(t: Tree<V>, key: int)
    requires IsBst(t) && t.Node? && t.left.Node? && t.left.key < key < t.key
    ensures NeighbourAtRoot(Splay(t, key), key)
    decreases t, 0
  {
    var Node(k, v, l, r) := t;
    var Node(lk, lv, ll, lr) := l;
    var s := Splay(lr, key);
    SplayKeepsInOrder(lr, key);
    if lr.Node? {
      SplayNeighbourAtRoot(lr, key);
      var t1 := Node(s.key, s.value, Node(lk, lv, ll, s.left), Node(k, v, s.right, r));
      assert Splay(t, key) == t1;
      assert Keys(s) == Keys(s.left) + {s.key} + Keys(s.right);
      assert IsBst(l);
      if key < s.key {
        assert Keys(t1.left) == Keys(ll) + {lk} + Keys(s.left);
        forall x | x in Keys(t1.left) ensures x < key {
          if x in Keys(ll) {
            assert x < lk;
          }
        }
      } else {
        assert Keys(t1.right) == Keys(s.right) + {k} + Keys(r);
        forall x | x in Keys(t1.right) ensures key < x {
        }
      }
    } else {
      assert Splay(t, key) == Node(lk, lv, ll, Node(k, v, Leaf, r));
    }
  }

  /** The mirror cases: `key` lies right of the root. */
  lemma {:induction false} SplayRightNeighbour<V>(t: Tree<V>, key: int)
    requires IsBst(t) && t.Node? && t.key < key
    ensures NeighbourAtRoot(Splay(t, key), key)
    decreases t, 1
  {
    match t.right
    case Leaf =>
    case Node(rk, _, rl, rr) =>
      assert rk in Keys(t.right);
      if key > rk {
        SplayZagZag(t, key);
      } else if key < rk {
        SplayZagZig(t, key);
      }
  }

  /** Zag-zag, the mirror of zig-zig. */
  lemma {:induction false} SplayZagZag<V>(t: Tree<V>, key: int)
    requires IsBst(t) && t.Node? && t.right.Node? && t.key < t.right.key < key
    ensures NeighbourAtRoot(Splay(t, key), key)
    decreases t, 0
  {
    var Node(k, v, l, r) := t;
    var Node(rk, rv, rl, rr) := r;
    var s := Splay(rr, key);
    SplayKeepsInOrder(rr, key);
    if rr.Node? {
      SplayNeighbourAtRoot(rr, key);
      var t1 := Node(s.key, s.value, Node(rk, rv, Node(k, v, l, rl), s.left), s.right);
      assert Splay(t, key) == t1;
      if key < s.key {
        assert Keys(s) == Keys(s.left) + {s.key} + Keys(s.right);
        assert IsBst(r);
        assert Keys(t1.left) == (Keys(l) + {k} + Keys(rl)) + {rk} + Keys(s.left);
        forall x | x in Keys(t1.left) ensures x < key {
          if x in Keys(rl) {
            assert x < rk;
          }
        }
      }
    } else {
      assert Splay(t, key) == Node(rk, rv, Node(k, v, l, rl), Leaf);
    }
  }

  /** Zag-zig, the mirror of zig-zag. */
  lemma {:induction false} SplayZagZig<V>(t: Tree<V>, key: int)
    requires IsBst(t) && t.Node? && t.right.Node? && t.key < key < t.right.key
    ensures NeighbourAtRoot(Splay(t, key), key)
    decreases t, 0
  {
    var Node(k, v, l, r) := t;
    var Node(rk, rv, rl, rr) := r;
    var s := Splay(rl, key);
    SplayKeepsInOrder(rl, key);
    if rl.Node? {
      SplayNeighbourAtRoot(rl, key);
      var t1 := Node(s.key, s.value, Node(k, v, l, s.left), Node(rk, rv, s.right, rr));
      assert Splay(t, key) == t1;
      assert Keys(s) == Keys(s.left) + {s.key} + Keys(s.right);
      assert IsBst(r);
      if key < s.key {
        assert Keys(t1.left) == Keys(l) + {k} + Keys(s.left);
        forall x | x in Keys(t1.left) ensures x < key {
        }
      } else {
        assert Keys(t1.right) == Keys(s.right) + {rk} + Keys(rr);
        forall x | x in Keys(t1.right) ensures key < x {
          if x in Keys(rr) {
            assert rk < x;
          }
        }
      }
    } else {
      assert Splay(t, key) == Node(rk, rv, Node(k, v, l, Leaf), rr);
    }
  }

  /** A key present in a search tree ends at the root after splaying for it. */
  lemma SplayPresentKeyAtRoot<V>(t: Tree<V>, key: int)
    requires IsBst(t) && key in Keys(t)
    ensures Splay(t, key).Node? && Splay(t, key).key == key
  {
    var s := Splay(t, key);
    SplayNeighbourAtRoot(t, key);
    SplayKeepsInOrder(t, key);
    assert Keys(s) == Keys(s.left) + {s.key} + Keys(s.right);
  }

  /** For an absent key the splayed root is its in-order neighbour: no key of
      the tree lies strictly between `key` and the new root's key. */
  lemma SplayAbsentKeyNeighbour<V>(t: Tree<V>, key: int)
    requires IsBst(t) && t.Node? && key !in Keys(t)
    ensures Splay(t, key).Node? && Splay(t, key).key != key
    ensures key < Splay(t, key).key ==>
              (forall x :: x in Keys(Splay(t, key).left) ==> x < key)
              && (forall x :: x in Keys(t) ==> !(key < x < Splay(t, key).key))
    ensures Splay(t, key).key < key ==>
              (forall x :: x in Keys(Splay(t, key).right) ==> key < x)
              && (forall x :: x in Keys(t) ==> !(Splay(t, key).key < x < key))
  {
    var s := Splay(t, key);
    SplayNeighbourAtRoot(t, key);
    SplayKeepsInOrder(t, key);
    assert Keys(s) == Keys(s.left) + {s.key} + Keys(s.right);
  }

  // ---------------------------------------------------------------------------
  // The public operations
  // ---------------------------------------------------------------------------

  /** `SplayTree()`: no root, empty dictionary. */
  function Empty<V>(): (st: SplayTree<V>)
    ensures Valid(st)
    ensures forall k :: Find(st, k) == None
  {
    SplayTree(Leaf, map[])
  }

  /** What `SplayTree` keeps true: a search tree whose key set is the dictionary's. */
  predicate Valid<V>(st: SplayTree<V>)
  {
    IsBst(st.root) && st.cache.Keys == Keys(st.root)
  }

  /** Record the pair in the dictionary, splay for the key, and if the key was
      not found splice a new node in above the splayed root. An existing node
      keeps the value it was created with. */
  function Insert<V>(st: SplayTree<V>, key: int, value: V): (r: SplayTree<V>)
    ensures r.root.Node? && r.root.key == key
  {
    var cache := st.cache[key := value];
    var root := Splay(st.root, key);
    if root.Node? && root.key == key then SplayTree(root, cache)
    else SplayTree(Splice(root, key, value), cache)
  }

  /** A new node for `key` above the splayed root, taking over the half of the
      old root's children on its own side of the old root. */
  function Splice<V>(root: Tree<V>, key: int, value: V): (r: Tree<V>)
    ensures r.Node? && r.key == key
  {
    match root
    case Leaf => Node(key, value, Leaf, Leaf)
    case Node(rk, rv, rl, rr) =>
      if key < rk then Node(key, value, rl, Node(rk, rv, Leaf, rr))
      else Node(key, value, Node(rk, rv, rl, Leaf), rr)
  }

  /** The dictionary lookup; the tree is not consulted. */
  function Find<V>(st: SplayTree<V>, key: int): (r: Option<V>)
    ensures Valid(st) ==> (r.Some? <==> key in Keys(st.root))
  {
    if key in st.cache then Some(st.cache[key]) else None
  }

  // ---------------------------------------------------------------------------
  // Insert against a sorted-sequence reference
  // ---------------------------------------------------------------------------

  /** Reference: insert an entry into a key-sorted sequence before the first
      larger key. */
  function InsertSorted<V>(s: seq<(int, V)>, e: (int, V)): (r: seq<(int, V)>)
    ensures |r| == |s| + 1
  {
    if s == [] || e.0 < s[0].0 then [e] + s
    else [s[0]] + InsertSorted(s[1..], e)
  }

  lemma {:induction false} InsertSortedSplit<V>(a: seq<(int, V)>, b: seq<(int, V)>, e: (int, V))
    requires forall i :: 0 <= i < |a| ==> a[i].0 < e.0
    requires b == [] || e.0 < b[0].0
    ensures InsertSorted(a + b, e) == a + [e] + b
  {
    if a == [] {
      assert a + b == b;
    } else {
      assert (a + b)[0] == a[0];
      assert (a + b)[1..] == a[1..] + b;
      InsertSortedSplit(a[1..], b, e);
      assert [a[0]] + (a[1..] + [e] + b) == a + [e] + b;
    }
  }

  /** Insert keeps the search-tree order and the dictionary/tree key agreement,
      and adds exactly `key` to the key set. */
  lemma InsertKeepsValid<V>(st: SplayTree<V>, key: int, value: V)
    ensures Valid(st) ==> Valid(Insert(st, key, value))
    ensures Valid(st) ==> Keys(Insert(st, key, value).root) == Keys(st.root) + {key}
  {
    if !Valid(st) {
      return;
    }
    InsertInOrder(st, key, value);
    var r := Insert(st, key, value);
    if key in Keys(st.root) {
      SameInOrder(r.root, st.root);
    } else {
      var s := InOrder(st.root);
      var u := InOrder(r.root);
      BstIffIncreasing(st.root);
      BstIffIncreasing(r.root);
      KeysOfInOrder(st.root);
      KeysOfInOrder(r.root);
      InsertSortedKeys(s, (key, value));
    }
  }

  /** An entry followed by an ascending sequence of larger keys is ascending. */
  lemma IncreasingCons<V>(e: (int, V), s: seq<(int, V)>)
    ensures Increasing([e] + s) <==> Increasing(s) && forall x :: x in KeySet(s) ==> e.0 < x
  {
    var empty: seq<(int, V)> := [];
    assert empty + [e] + s == [e] + s;
    if Increasing([e] + s) {
      IncreasingSplit(empty, e, s);
    }
    if Increasing(s) && forall x :: x in KeySet(s) ==> e.0 < x {
      IncreasingJoin(empty, e, s);
    }
  }

  lemma {:induction false} InsertSortedKeys<V>(s: seq<(int, V)>, e: (int, V))
    requires Increasing(s) && e.0 !in KeySet(s)
    ensures Increasing(InsertSorted(s, e))
    ensures KeySet(InsertSorted(s, e)) == KeySet(s) + {e.0}
  {
    if s == [] || e.0 < s[0].0 {
      InsertSortedKeysFront(s, e);
    } else {
      var s0, rest := s[0], s[1..];
      assert s == [s0] + rest;
      KeySetAppend([s0], rest);
      KeySetSingleton(s0);
      IncreasingCons(s0, rest);
      InsertSortedKeys(rest, e);
      var r' := InsertSorted(rest, e);
      assert InsertSorted(s, e) == [s0] + r';
      KeySetAppend([s0], r');
      IncreasingCons(s0, r');
    }
  }

  lemma InsertSortedKeysFront<V>(s: seq<(int, V)>, e: (int, V))
    requires Increasing(s) && e.0 !in KeySet(s)
    requires s == [] || e.0 < s[0].0
    ensures InsertSorted(s, e) == [e] + s
    ensures Increasing([e] + s)
    ensures KeySet([e] + s) == KeySet(s) + {e.0}
  {
    KeySetSingleton(e);
    KeySetAppend([e], s);
    if s != [] {
      IncreasingCons(s[0], s[1..]);
      assert [s[0]] + s[1..] == s;
      KeySetAppend([s[0]], s[1..]);
      KeySetSingleton(s[0]);
    }
    IncreasingCons(e, s);
  }

  /** Splicing a new key above a root that is its in-order neighbour is the
      sorted-sequence insert on the in-order entries. */
  lemma SpliceInOrder<V>(root: Tree<V>, key: int, value: V)
    requires IsBst(root) && key !in Keys(root)
    requires root.Leaf? || NeighbourAtRoot(root, key)
    ensures InOrder(Splice(root, key, value)) == InsertSorted(InOrder(root), (key, value))
  {
    if root.Node? {
      if key < root.key {
        SpliceBelowRoot(root, key, value);
      } else {
        SpliceAboveRoot(root, key, value);
      }
    }
  }

  lemma SpliceBelowRoot<V>(root: Tree<V>, key: int, value: V)
    requires IsBst(root) && NeighbourAtRoot(root, key) && key < root.key
    ensures InOrder(Splice(root, key, value)) == InsertSorted(InOrder(root), (key, value))
  {
    var Node(rk, rv, rl, rr) := root;
    KeysOfInOrder(rl);
    var L, R := InOrder(rl), [(rk, rv)] + InOrder(rr);
    forall i | 0 <= i < |L| ensures L[i].0 < key {
      assert L[i].0 in KeySet(L);
    }
    InsertSortedSplit(L, R, (key, value));
    assert InOrder(root) == L + R;
    assert Splice(root, key, value) == Node(key, value, rl, Node(rk, rv, Leaf, rr));
    assert InOrder(Node(rk, rv, Leaf, rr)) == R;
  }

  lemma SpliceAboveRoot<V>(root: Tree<V>, key: int, value: V)
    requires IsBst(root) && NeighbourAtRoot(root, key) && root.key < key
    ensures InOrder(Splice(root, key, value)) == InsertSorted(InOrder(root), (key, value))
  {
    var Node(rk, rv, rl, rr) := root;
    KeysOfInOrder(rl);
    KeysOfInOrder(rr);
    var L, R := InOrder(rl) + [(rk, rv)], InOrder(rr);
    forall i | 0 <= i < |L| ensures L[i].0 < key {
      if i < |InOrder(rl)| {
        assert L[i] == InOrder(rl)[i] && L[i].0 in KeySet(InOrder(rl));
      }
    }
    if R != [] {
      assert R[0].0 in KeySet(R);
    }
    InsertSortedSplit(L, R, (key, value));
    assert InOrder(root) == L + R;
    assert Splice(root, key, value) == Node(key, value, Node(rk, rv, rl, Leaf), rr);
    assert InOrder(Node(rk, rv, rl, Leaf)) == L;
  }

  /** On the in-order sequence, insert is the sorted-sequence insert for a new
      key, and changes nothing at all for a key already in the tree (the node
      keeps its old value). */
  lemma InsertInOrder<V>(st: SplayTree<V>, key: int, value: V)
    requires IsBst(st.root)
    ensures key in Keys(st.root) ==> InOrder(Insert(st, key, value).root) == InOrder(st.root)
    ensures key !in Keys(st.root) ==>
              InOrder(Insert(st, key, value).root) == InsertSorted(InOrder(st.root), (key, value))
    ensures |InOrder(Insert(st, key, value).root)| ==
              |InOrder(st.root)| + (if key in Keys(st.root) then 0 else 1)
  {
    var s := Splay(st.root, key);
    SplayKeepsInOrder(st.root, key);
    if key in Keys(st.root) {
      SplayPresentKeyAtRoot(st.root, key);
    } else {
      if s.Node? {
        SplayAbsentKeyNeighbour(st.root, key);
      }
      SpliceInOrder(s, key, value);
    }
  }

  // ---------------------------------------------------------------------------
  // Histories of inserts
  // ---------------------------------------------------------------------------

  /** The tree after inserting the pairs of `ops` in order into a fresh tree. */
  function Build<V>(ops: seq<(int, V)>): SplayTree<V>
  {
    if ops == [] then Empty()
    else Insert(Build(ops[..|ops| - 1]), ops[|ops| - 1].0, ops[|ops| - 1].1)
  }

  /** The value of the first entry for `k` in `s`, if any. */
  function EntryOf<V>(s: seq<(int, V)>, k: int): (r: Option<V>)
    ensures r.Some? <==> k in KeySet(s)
  {
    if s == [] then None
    else if s[0].0 == k then Some(s[0].1)
    else
      var r := EntryOf(s[1..], k);
      assert k in KeySet(s[1..]) <==> k in KeySet(s) by {
        assert s == [s[0]] + s[1..];
        KeySetAppend([s[0]], s[1..]);
        KeySetSingleton(s[0]);
      }
      r
  }

  /** The value of the last entry for `k` in `s`, if any. */
  function LastWrite<V>(ops: seq<(int, V)>, k: int): Option<V>
  {
    if ops == [] then None
    else if ops[|ops| - 1].0 == k then Some(ops[|ops| - 1].1)
    else LastWrite(ops[..|ops| - 1], k)
  }

  lemma {:induction false} EntryOfSnoc<V>(a: seq<(int, V)>, e: (int, V), k: int)
    ensures EntryOf(a + [e], k) ==
              if EntryOf(a, k).Some? then EntryOf(a, k)
              else if e.0 == k then Some(e.1) else None
  {
    if a == [] {
      assert a + [e] == [e];
    } else {
      assert (a + [e])[1..] == a[1..] + [e];
      EntryOfSnoc(a[1..], e, k);
    }
  }

  lemma {:induction false} EntryOfInsertSorted<V>(s: seq<(int, V)>, e: (int, V), k: int)
    requires e.0 !in KeySet(s)
    ensures EntryOf(InsertSorted(s, e), k) == if k == e.0 then Some(e.1) else EntryOf(s, k)
  {
    if s == [] || e.0 < s[0].0 {
      assert ([e] + s)[1..] == s;
    } else {
      assert e.0 != s[0].0;
      assert e.0 !in KeySet(s[1..]) by {
        assert s == [s[0]] + s[1..];
        KeySetAppend([s[0]], s[1..]);
      }
      EntryOfInsertSorted(s[1..], e, k);
      assert ([s[0]] + InsertSorted(s[1..], e))[1..] == InsertSorted(s[1..], e);
    }
  }

  /** Any history of inserts leaves a valid tree whose keys are the inserted keys. */
  lemma {:induction false} BuildValid<V>(ops: seq<(int, V)>)
    ensures Valid(Build(ops))
    ensures Keys(Build(ops).root) == KeySet(ops)
  {
    if ops != [] {
      var pre, e := ops[..|ops| - 1], ops[|ops| - 1];
      BuildValid(pre);
      InsertKeepsValid(Build(pre), e.0, e.1);
      assert ops == pre + [e];
      KeySetAppend(pre, [e]);
      KeySetSingleton(e);
    }
  }

  /** `find` returns the value of the most recent insert of the key, and
      nothing for a key never inserted. */
  lemma {:induction false} FindReturnsLatest<V>(ops: seq<(int, V)>, k: int)
    ensures Find(Build(ops), k) == LastWrite(ops, k)
  {
    if ops != [] {
      FindReturnsLatest(ops[..|ops| - 1], k);
    }
  }

  /** One insert, seen through `EntryOf` on the in-order sequence: a key the
      tree already holds keeps its entry; a new key gets the inserted value. */
  lemma InsertEntryOf<V>(st: SplayTree<V>, e: (int, V), k: int)
    requires IsBst(st.root)
    ensures EntryOf(InOrder(Insert(st, e.0, e.1).root), k) ==
              if EntryOf(InOrder(st.root), k).Some? then EntryOf(InOrder(st.root), k)
              else if e.0 == k then Some(e.1) else None
  {
    InsertInOrder(st, e.0, e.1);
    KeysOfInOrder(st.root);
    if e.0 !in Keys(st.root) {
      EntryOfInsertSorted(InOrder(st.root), e, k);
    }
  }

  /** The tree itself keeps, for each key, the value of its FIRST insert:
      re-inserting only rewrites the dictionary. */
  lemma {:induction false} TreeKeepsFirstValue<V>(ops: seq<(int, V)>, k: int)
    ensures EntryOf(InOrder(Build(ops).root), k) == EntryOf(ops, k)
  {
    if ops != [] {
      var pre, e := ops[..|ops| - 1], ops[|ops| - 1];
      TreeKeepsFirstValue(pre, k);
      BuildValid(pre);
      InsertEntryOf(Build(pre), e, k);
      assert ops == pre + [e];
      EntryOfSnoc(pre, e, k);
    }
  }

  /** Re-inserting a present key adds no node and leaves the tree's entries,
      including that node's value, untouched; only `find` sees the new value. */
  lemma ReinsertUpdatesOnlyDictionary<V>(st: SplayTree<V>, key: int, value: V)
    requires Valid(st) && key in Keys(st.root)
    ensures InOrder(Insert(st, key, value).root) == InOrder(st.root)
    ensures Find(Insert(st, key, value), key) == Some(value)
  {
    InsertInOrder(st, key, value);
  }

  /** Inserting 3, 1, 2 leaves 2 at the root with 1 on its left and 3 on its right. */
  lemma InsertThreeOneTwoShape()
    ensures Build([(3, 30), (1, 10), (2, 20)]).root ==
              Node(2, 20, Node(1, 10, Leaf, Leaf), Node(3, 30, Leaf, Leaf))
  {
    var a: seq<(int, int)> := [(3, 30)];
    var b: seq<(int, int)> := [(3, 30), (1, 10)];
    var c: seq<(int, int)> := [(3, 30), (1, 10), (2, 20)];
    assert a[..0] == [] && b[..1] == a && c[..2] == b;
    assert Build(a).root == Node(3, 30, Leaf, Leaf);
    assert Build(b).root == Node(1, 10, Leaf, Node(3, 30, Leaf, Leaf));
    assert Splay(Build(b).root, 2) == Node(3, 30, Node(1, 10, Leaf, Leaf), Leaf);
  }
}
