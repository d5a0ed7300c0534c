/**
 * Insertion and removal of AVLTree.h as functions on subtrees. The source
 * walks down with a loop and back up along parent pointers; here the walk
 * back up is `Rebuild` over an explicit parent chain (a sequence of frames),
 * and `Ins`, `Del` and `RemoveMin` are the recursive reference definitions
 * that the loops of the AVLTree class are proved to compute.
 */
module AvlUpdates {
  import opened AvlNodes

  /** One link of the parent chain: the subtree in hand is the left child of a
      node with this key, value and right subtree, or its right child. */
  datatype Frame<V> =
    | LeftChildOf(key: int, value: V, right: Tree<V>)
    | RightChildOf(left: Tree<V>, key: int, value: V)

  /** Hang `t` back into its parent and recompute the parent's height. */
  function Attach<V>(f: Frame<V>, t: Tree<V>): (u: Tree<V>)
    ensures u.Node? && u.key == f.key && u.value == f.value
    ensures f.LeftChildOf? ==> Contents(u) == Contents(t) + map[f.key := f.value] + Contents(f.right)
    ensures f.RightChildOf? ==> Contents(u) == Contents(f.left) + map[f.key := f.value] + Contents(t)
  {
    match f
    case LeftChildOf(k, v, r) => Mk(t, k, v, r)
    case RightChildOf(l, k, v) => Mk(l, k, v, t)
  }

  /** The upward walk shared by insert and remove: from the innermost frame
      (the last one) out to the root, re-attach the subtree, recompute the
      parent's height and rebalance the parent; the value left at the end is
      the new root. */
  function Rebuild<V>(path: seq<Frame<V>>, t: Tree<V>): (r: Tree<V>)
    ensures path != [] ==> r.Node?
    ensures forall x :: x in KeysOf(t) ==> x in KeysOf(r)
    decreases |path|
  {
    if path == [] then t
    else Rebuild(path[..|path| - 1], Balance(Attach(path[|path| - 1], t)))
  }

  /** One more step down the chain is one more rebalancing on the way up. */
  lemma RebuildPush<V>(path: seq<Frame<V>>, f: Frame<V>, t: Tree<V>)
    ensures Rebuild(path + [f], t) == Rebuild(path, Balance(Attach(f, t)))
  {
    assert (path + [f])[..|path|] == path;
  }

  /** Walking up a chain in two stretches is walking up the whole chain. */
  lemma {:induction false} RebuildAppend<V>(p: seq<Frame<V>>, q: seq<Frame<V>>, t: Tree<V>)
    ensures Rebuild(p + q, t) == Rebuild(p, Rebuild(q, t))
    decreases |q|
  {
    if q == [] {
      assert p + q == p;
    } else {
      var q', f := q[..|q| - 1], q[|q| - 1];
      assert q == q' + [f];
      assert p + q == (p + q') + [f];
      RebuildPush(p + q', f, t);
      RebuildPush(q', f, t);
      RebuildAppend(p, q', Balance(Attach(f, t)));
    }
  }

  /** A subtree hung under the frame `f` half-way up a chain: the stretch
      `q` below `f` is walked first, then `f`, then the stretch `p` above. */
  lemma GraftPath<V>(p: seq<Frame<V>>, f: Frame<V>, q: seq<Frame<V>>, t: Tree<V>)
    ensures Rebuild(p + ([f] + q), t) == Rebuild(p, Balance(Attach(f, Rebuild(q, t))))
  {
    RebuildAppend(p, [f] + q, t);
    RebuildAppend([f], q, t);
    RebuildPush([], f, Rebuild(q, t));
    assert [] + [f] == [f];
  }

  // Facts about the in-order contents `a + map[k := v] + c` of a node, used
  // when one side changes.

  lemma UpdateLeft<V>(a: map<int, V>, b: map<int, V>, c: map<int, V>, k: int, v: V)
    requires k !in b && k !in c
    ensures a[k := v] + b + c == (a + b + c)[k := v]
  {
  }

  lemma UpdateRight<V>(a: map<int, V>, b: map<int, V>, c: map<int, V>, k: int, v: V)
    ensures a + b + c[k := v] == (a + b + c)[k := v]
  {
  }

  lemma RemoveLeft<V>(a: map<int, V>, b: map<int, V>, c: map<int, V>, k: int)
    requires k !in b && k !in c
    ensures (a - {k}) + b + c == (a + b + c) - {k}
  {
  }

  lemma RemoveRight<V>(a: map<int, V>, b: map<int, V>, c: map<int, V>, k: int)
    requires k !in a && k !in b
    ensures a + b + (c - {k}) == (a + b + c) - {k}
  {
  }

  lemma ReplaceTop<V>(a: map<int, V>, key: int, val: V, c: map<int, V>, mk: int, mv: V)
    requires key !in a && key !in c && key != mk && mk !in c
    ensures a + map[mk := mv] + c == (a + map[key := val] + c[mk := mv]) - {key}
  {
  }

  /** insert, for a key that is not yet present: a fresh leaf of height 1
      where the descent falls off the tree, then every ancestor re-heighted
      and rebalanced, with the balance corrected as in AvlNodes.Balance. At an
      equal key the subtree is returned as it is; on an AVL search tree the
      whole result is the input (InsPresent). */
  function Ins<V>(t: Tree<V>, k: int, v: V): (r: Tree<V>)
    ensures r.Node? && k in KeysOf(r)
    ensures forall x :: x in KeysOf(t) ==> x in KeysOf(r)
    ensures |KeysOf(t)| <= |KeysOf(r)| <= |KeysOf(t)| + 1
  {
    match t
    case Leaf => Node(Leaf, k, v, 1, Leaf)
    case Node(l, key, val, _, r) =>
      if k < key then
        var n := Mk(Ins(l, k, v), key, val, r);
        Balance(n)
      else if k > key then
        var n := Mk(l, key, val, Ins(r, k, v));
        Balance(n)
      else t
  }

  /** Insertion keeps an AVL tree AVL and grows its height by at most one. */
  lemma {:induction false} InsAvl<V>(t: Tree<V>, k: int, v: V)
    requires Avl(t)
    ensures Avl(Ins(t, k, v))
    ensures Height(t) <= Height(Ins(t, k, v)) <= Height(t) + 1
  {
    match t
    case Leaf =>
    case Node(l, key, val, _, r) =>
      if k < key {
        InsAvl(l, k, v);
        BalanceRestoresAvl(Ins(l, k, v), key, val, r);
      } else if k > key {
        InsAvl(r, k, v);
        BalanceRestoresAvl(l, key, val, Ins(r, k, v));
      }
  }

  /** Insertion of a fresh key keeps the search order, adds exactly the entry
      k -> v, leaves every other entry as it was and adds one node. */
  lemma {:induction false} InsContents<V>(t: Tree<V>, k: int, v: V)
    requires Ordered(t) && k !in Contents(t)
    ensures Ordered(Ins(t, k, v))
    ensures Contents(Ins(t, k, v)) == Contents(t)[k := v]
    ensures |KeysOf(Ins(t, k, v))| == |KeysOf(t)| + 1
  {
    match t
    case Leaf =>
    case Node(l, key, val, _, r) =>
      if k < key {
        InsContents(l, k, v);
        assert k !in Contents(r);
        UpdateLeft(Contents(l), map[key := val], Contents(r), k, v);
        assert Ordered(Mk(Ins(l, k, v), key, val, r));
      } else {
        assert k > key;
        InsContents(r, k, v);
        UpdateRight(Contents(l), map[key := val], Contents(r), k, v);
        assert Ordered(Mk(l, key, val, Ins(r, k, v)));
      }
  }

  /** At a present key insertion changes nothing. */
  lemma {:induction false} InsPresent<V>(t: Tree<V>, k: int, v: V)
    requires Avl(t) && Ordered(t) && k in Contents(t)
    ensures Ins(t, k, v) == t
  {
    match t
    case Node(l, key, val, _, r) =>
      if k < key {
        assert k in Contents(l);
        InsPresent(l, k, v);
        BalanceRestoresAvl(l, key, val, r);
      } else if k > key {
        assert k in Contents(r);
        InsPresent(r, k, v);
        BalanceRestoresAvl(l, key, val, r);
      }
  }

  /** The leftmost entry of a non-empty subtree and what is left without it. */
  datatype Split<V> = Split(key: int, value: V, rest: Tree<V>)

  /** The leftmost node of a non-empty subtree: findMin. */
  function MinNode<V>(t: Tree<V>): (m: Tree<V>)
    requires t.Node?
    ensures m.Node? && m.left.Leaf?
    ensures KeysOf(t)[0] == m.key && ValuesOf(t)[0] == m.value
  {
    if t.left.Leaf? then t else MinNode(t.left)
  }

  /** The successor step of remove: unlink the leftmost node, let its right
      subtree take its place, and rebalance its former ancestors bottom-up. */
  function RemoveMin<V>(t: Tree<V>): (s: Split<V>)
    requires t.Node?
    ensures KeysOf(t) == [s.key] + KeysOf(s.rest)
    ensures ValuesOf(t) == [s.value] + ValuesOf(s.rest)
  {
    if t.left.Leaf? then Split(t.key, t.value, t.right)
    else
      var m := RemoveMin(t.left);
      Split(m.key, m.value, Balance(Mk(m.rest, t.key, t.value, t.right)))
  }

  /** Unlinking the leftmost node keeps the rest AVL and lowers its height by
      at most one. */
  lemma {:induction false} RemoveMinAvl<V>(t: Tree<V>)
    requires t.Node? && Avl(t)
    ensures Avl(RemoveMin(t).rest)
    ensures Height(t) - 1 <= Height(RemoveMin(t).rest) <= Height(t)
  {
    if t.left.Node? {
      RemoveMinAvl(t.left);
      BalanceRestoresAvl(RemoveMin(t.left).rest, t.key, t.value, t.right);
    }
  }

  /** The unlinked entry is the smallest one; the rest keeps the order and
      holds every other entry. */
  lemma {:induction false} RemoveMinContents<V>(t: Tree<V>)
    requires t.Node? && Ordered(t)
    ensures Ordered(RemoveMin(t).rest)
    ensures forall x :: x in Contents(RemoveMin(t).rest) ==> RemoveMin(t).key < x
    ensures Contents(t) == Contents(RemoveMin(t).rest)[RemoveMin(t).key := RemoveMin(t).value]
  {
    if t.left.Leaf? {
      assert Contents(t) == map[t.key := t.value] + Contents(t.right);
    } else {
      RemoveMinContents(t.left);
      var m := RemoveMin(t.left);
      var n := Mk(m.rest, t.key, t.value, t.right);
      assert m.key in Contents(t.left);
      assert m.key < t.key && m.key !in Contents(t.right);
      UpdateLeft(Contents(m.rest), map[t.key := t.value], Contents(t.right), m.key, m.value);
      assert Contents(t) == Contents(n)[m.key := m.value];
      forall x | x in Contents(m.rest) ensures x < t.key {
        assert x in Contents(t.left);
      }
      assert Ordered(n);
      forall x | x in Contents(n) ensures m.key < x {
        if x in Contents(t.right) {
          assert t.key < x;
        }
      }
      assert RemoveMin(t) == Split(m.key, m.value, Balance(n));
    }
  }

  /** remove, with the source's rebalancing start and root update as they are
      evidently intended (see AvlAsWritten): a node with at most one child is
      replaced by that child; a node with two children is replaced by its
      in-order successor, which is first unlinked from the right subtree;
      then every ancestor of the change is re-heighted and rebalanced. */
  function Del<V>(t: Tree<V>, k: int): (r: Tree<V>)
    ensures forall x :: x in KeysOf(r) ==> x in KeysOf(t)
    ensures forall x :: x in KeysOf(t) && x != k ==> x in KeysOf(r)
    ensures |KeysOf(t)| - 1 <= |KeysOf(r)| <= |KeysOf(t)|
    ensures t.Node? && t.key == k ==> |KeysOf(r)| + 1 == |KeysOf(t)|
  {
    match t
    case Leaf => Leaf
    case Node(l, key, val, _, r) =>
      if k < key then Balance(Mk(Del(l, k), key, val, r))
      else if k > key then Balance(Mk(l, key, val, Del(r, k)))
      else if l.Leaf? || r.Leaf? then (if l.Node? then l else r)
      else
        var m := RemoveMin(r);
        Balance(Mk(l, m.key, m.value, m.rest))
  }

  /** Removal keeps an AVL tree AVL and lowers its height by at most one. */
  lemma {:induction false} DelAvl<V>(t: Tree<V>, k: int)
    requires Avl(t)
    ensures Avl(Del(t, k))
    ensures Height(t) - 1 <= Height(Del(t, k)) <= Height(t)
  {
    match t
    case Leaf =>
    case Node(l, key, val, _, r) =>
      if k < key {
        DelAvl(l, k);
        BalanceRestoresAvl(Del(l, k), key, val, r);
      } else if k > key {
        DelAvl(r, k);
        BalanceRestoresAvl(l, key, val, Del(r, k));
      } else if l.Node? && r.Node? {
        RemoveMinAvl(r);
        BalanceRestoresAvl(l, RemoveMin(r).key, RemoveMin(r).value, RemoveMin(r).rest);
      }
  }

  /** Removal keeps the search order, drops exactly the entry for k (if any),
      leaves every other entry as it was and removes one node exactly when k
      was present. */
  lemma {:induction false} DelContents<V>(t: Tree<V>, k: int)
    requires Ordered(t)
    ensures Ordered(Del(t, k))
    ensures Contents(Del(t, k)) == Contents(t) - {k}
    ensures |KeysOf(Del(t, k))| == |KeysOf(t)| - if k in Contents(t) then 1 else 0
  {
    match t
    case Leaf =>
    case Node(l, key, val, _, r) =>
      if k < key {
        DelContents(l, k);
        assert k !in Contents(r);
        RemoveLeft(Contents(l), map[key := val], Contents(r), k);
        assert k in Contents(t) <==> k in Contents(l);
        assert Ordered(Mk(Del(l, k), key, val, r));
      } else if k > key {
        DelContents(r, k);
        assert k !in Contents(l);
        RemoveRight(Contents(l), map[key := val], Contents(r), k);
        assert k in Contents(t) <==> k in Contents(r);
        assert Ordered(Mk(l, key, val, Del(r, k)));
      } else if l.Leaf? || r.Leaf? {
        assert key !in Contents(l) && key !in Contents(r);
      } else {
        RemoveMinContents(r);
        var m := RemoveMin(r);
        assert key !in Contents(l) && key !in Contents(r);
        assert m.key in Contents(r);
        ReplaceTop(Contents(l), key, val, Contents(m.rest), m.key, m.value);
        assert Ordered(Mk(l, m.key, m.value, m.rest));
      }
  }
}
