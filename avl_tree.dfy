/**
 * The AVLTree class of AVLTree.h: an ordered map from integer keys to values
 * of type V, owning the root of a height-balanced search tree and a count of
 * its entries. insert and remove walk down with a loop and back up along the
 * parent chain, which is kept here as an explicit sequence of frames; each is
 * proved to compute the reference definition (Ins, Del) and, through the
 * lemmas about those, to keep the invariants and to change the map by
 * exactly one entry.
 */
module AvlMap {
  import opened AvlNodes
  import opened AvlUpdates
  import opened AvlViews

  /** The outcome of search: the source throws "Key not found" instead. */
  datatype Option<T> = None | Some(value: T)

  /** The lone root that the first insertion into an empty tree installs
      keeps the height 0 set by the node constructor: no height update runs
      on that path. The next insertion of a fresh key, or removal of the key
      present, recomputes it. */
  predicate IsFirstRoot<V>(t: Tree<V>) {
    t.Node? && t.left.Leaf? && t.right.Leaf? && t.height == 0
  }

  /** The shape invariant of a root: ordered, and AVL with consistent heights
      except for the height of a first root. */
  ghost predicate WellFormed<V>(t: Tree<V>) {
    Ordered(t) && (Avl(t) || IsFirstRoot(t))
  }

  /** The root with a first root's height brought to 1. */
  function Normalised<V>(t: Tree<V>): Tree<V> {
    if IsFirstRoot(t) then t.(height := 1) else t
  }

  /** A well-formed root and its normalised form hold the same entries and
      have the same height up to the rounding in the logarithmic bound. */
  lemma NormalisedShape<V>(t: Tree<V>)
    requires WellFormed(t)
    ensures Avl(Normalised(t)) && Ordered(Normalised(t))
    ensures Contents(Normalised(t)) == Contents(t)
    ensures KeysOf(Normalised(t)) == KeysOf(t) && Height(Normalised(t)) / 2 == Height(t) / 2
  {
  }

  /** ... and are changed alike by inserting a fresh key or removing a present
      one. */
  lemma NormalisedUpdates<V>(t: Tree<V>, k: int, v: V)
    requires WellFormed(t)
    ensures k !in Contents(t) ==> Ins(Normalised(t), k, v) == Ins(t, k, v)
    ensures k in Contents(t) ==> Del(Normalised(t), k) == Del(t, k)
  {
  }

  /** Inserting a fresh key into a well-formed non-empty root gives a
      well-formed root with exactly one more entry. */
  lemma InsertFresh<V>(t: Tree<V>, k: int, v: V)
    requires WellFormed(t) && t.Node? && k !in Contents(t)
    ensures WellFormed(Ins(t, k, v))
    ensures Contents(Ins(t, k, v)) == Contents(t)[k := v]
    ensures |KeysOf(Ins(t, k, v))| == |KeysOf(t)| + 1
  {
    NormalisedShape(t);
    NormalisedUpdates(t, k, v);
    InsAvl(Normalised(t), k, v);
    InsContents(Normalised(t), k, v);
  }

  /** Removing a present key from a well-formed root gives a well-formed root
      with exactly one entry fewer. */
  lemma RemovePresent<V>(t: Tree<V>, k: int)
    requires WellFormed(t) && k in Contents(t)
    ensures WellFormed(Del(t, k))
    ensures Contents(Del(t, k)) == Contents(t) - {k}
    ensures |KeysOf(Del(t, k))| == |KeysOf(t)| - 1
  {
    NormalisedShape(t);
    NormalisedUpdates(t, k, Contents(t)[k]);
    DelAvl(Normalised(t), k);
    DelContents(Normalised(t), k);
  }

  lemma RemoveAbsent<V>(m: map<int, V>, k: int)
    requires k !in m
    ensures m - {k} == m
  {
  }

  /** One step of a descent by key comparison: the key is in the subtree iff
      it is in the child taken, under the same value. */
  lemma DescendLeft<V>(t: Tree<V>, k: int)
    requires t.Node? && Ordered(t) && k < t.key
    ensures Ordered(t.left)
    ensures k in Contents(t) <==> k in Contents(t.left)
    ensures k in Contents(t.left) ==> Contents(t)[k] == Contents(t.left)[k]
  {
    assert k !in Contents(t.right);
  }

  lemma DescendRight<V>(t: Tree<V>, k: int)
    requires t.Node? && Ordered(t) && k > t.key
    ensures Ordered(t.right)
    ensures k in Contents(t) <==> k in Contents(t.right)
    ensures k in Contents(t.right) ==> Contents(t)[k] == Contents(t.right)[k]
  {
    assert k !in Contents(t.left);
  }

  /** copyTree: a node-by-node deep copy, heights included. */
  function CopyTree<V>(t: Tree<V>): (c: Tree<V>)
    ensures c == t
  {
    match t
    case Leaf => Leaf
    case Node(l, k, v, h, r) => Node(CopyTree(l), k, v, h, CopyTree(r))
  }

  /** collectKeys: append the keys of `t` in order to `acc`. */
  method CollectKeys<V>(t: Tree<V>, acc: seq<int>) returns (res: seq<int>)
    ensures res == acc + KeysOf(t)
    decreases t
  {
    res := acc;
    if t.Node? {
      res := CollectKeys(t.left, res);
      res := res + [t.key];
      res := CollectKeys(t.right, res);
    }
  }

  /** collectValues: append the values of `t` in key order to `acc`. */
  method CollectValues<V>(t: Tree<V>, acc: seq<V>) returns (res: seq<V>)
    ensures res == acc + ValuesOf(t)
    decreases t
  {
    res := acc;
    if t.Node? {
      res := CollectValues(t.left, res);
      res := res + [t.value];
      res := CollectValues(t.right, res);
    }
  }

  /** findMin: follow left children to the leftmost node of `t`. The frames
      passed on the way are that node's parent chain, which the source reaches
      through parent pointers; walking back up them after unlinking the node
      is exactly RemoveMin. The node found holds the smallest key. */
  method FindMin<V>(t: Tree<V>) returns (m: Tree<V>, above: seq<Frame<V>>)
    ensures t.Leaf? ==> m.Leaf?
    ensures t.Node? ==> m.Node? && m == MinNode(t)
    ensures t.Node? ==> RemoveMin(t) == Split(m.key, m.value, Rebuild(above, m.right))
    ensures t.Node? && Ordered(t) ==>
              && m.key in Contents(t) && Contents(t)[m.key] == m.value
              && forall x :: x in Contents(t) ==> m.key <= x
  {
    m, above := t, [];
    if t.Leaf? {
      return;
    }
    while m.left.Node?
      invariant m.Node? && MinNode(m) == MinNode(t)
      invariant RemoveMin(t).key == RemoveMin(m).key && RemoveMin(t).value == RemoveMin(m).value
      invariant RemoveMin(t).rest == Rebuild(above, RemoveMin(m).rest)
      decreases m
    {
      var f := LeftChildOf(m.key, m.value, m.right);
      RebuildPush(above, f, RemoveMin(m.left).rest);
      above := above + [f];
      m := m.left;
    }
    if Ordered(t) {
      RemoveMinContents(t);
    }
  }

  /** The descent of remove: the parent chain down to the node holding k, or
      down to the empty slot where k would be. Removing k from the whole tree
      is removing it from the subtree reached and walking back up. */
  method SeekRemoval<V>(t: Tree<V>, k: int) returns (path: seq<Frame<V>>, cur: Tree<V>)
    requires Ordered(t)
    ensures Ordered(cur)
    ensures cur.Node? ==> cur.key == k
    ensures k in Contents(t) <==> cur.Node?
    ensures Del(t, k) == Rebuild(path, Del(cur, k))
  {
    path, cur := [], t;
    while cur.Node? && cur.key != k
      invariant Ordered(cur)
      invariant k in Contents(t) <==> k in Contents(cur)
      invariant Del(t, k) == Rebuild(path, Del(cur, k))
      decreases cur
    {
      if k < cur.key {
        var f := LeftChildOf(cur.key, cur.value, cur.right);
        DescendLeft(cur, k);
        RebuildPush(path, f, Del(cur.left, k));
        path, cur := path + [f], cur.left;
      } else {
        var f := RightChildOf(cur.left, cur.key, cur.value);
        DescendRight(cur, k);
        RebuildPush(path, f, Del(cur.right, k));
        path, cur := path + [f], cur.right;
      }
    }
  }

  /** The upward loop of insert and remove: from the parent of the change up
      to the root, re-attach the subtree in hand, recompute the parent's
      height and rebalance it; the last subtree is the new root. */
  method WalkUp<V>(path: seq<Frame<V>>, t: Tree<V>) returns (top: Tree<V>)
    ensures top == Rebuild(path, t)
  {
    var rest, cur := path, t;
    while rest != []
      invariant Rebuild(rest, cur) == Rebuild(path, t)
      decreases |rest|
    {
      cur := Balance(Attach(rest[|rest| - 1], cur));
      rest := rest[..|rest| - 1];
    }
    top := cur;
  }

  class AvlTree<V> {
    var root: Tree<V>
    var treeSize: nat

    /** The tree invariants: search order, AVL balance with consistent
        heights (but for a first root), and a count equal to the number of
        nodes. */
    ghost predicate Valid()
      reads this
    {
      WellFormed(root) && treeSize == |KeysOf(root)|
    }

    constructor ()
      ensures Valid() && root == Leaf && treeSize == 0
    {
      root := Leaf;
      treeSize := 0;
    }

    /** The copy constructor: an independent tree with the same nodes,
        heights and count. */
    constructor Copy(other: AvlTree<V>)
      ensures root == other.root && treeSize == other.treeSize
      ensures other.Valid() ==> Valid()
    {
      root := CopyTree(other.root);
      treeSize := other.treeSize;
    }

    /** operator=: replace this tree by a copy of `other`; assigning a tree
        to itself changes nothing. */
    method Assign(other: AvlTree<V>)
      modifies this
      ensures root == old(other.root) && treeSize == old(other.treeSize)
      ensures old(other.Valid()) ==> Valid()
    {
      if this != other {
        root := CopyTree(other.root);
        treeSize := other.treeSize;
      }
    }

    /** insert: add k -> v unless k is present. A fresh key adds exactly one
        entry and one to the count; a present key changes nothing. */
    method Insert(k: int, v: V) returns (inserted: bool)
      requires Valid()
      modifies this
      ensures Valid()
      ensures inserted <==> k !in old(Contents(root))
      ensures inserted ==> Contents(root) == old(Contents(root))[k := v] && treeSize == old(treeSize) + 1
      ensures !inserted ==> root == old(root) && treeSize == old(treeSize)
      ensures old(root).Leaf? ==> root == Node(Leaf, k, v, 0, Leaf)
      ensures old(root).Node? && inserted ==> root == Ins(old(root), k, v)
    {
      if root.Leaf? {
        root := Node(Leaf, k, v, 0, Leaf);
        treeSize := treeSize + 1;
        return true;
      }
      // Walk down to the empty slot, remembering the parent chain.
      var t, path: seq<Frame<V>> := root, [];
      var cur := t;
      while cur.Node?
        invariant root == t && treeSize == old(treeSize)
        invariant Ordered(cur)
        invariant k in Contents(t) <==> k in Contents(cur)
        invariant Ins(t, k, v) == Rebuild(path, Ins(cur, k, v))
        decreases cur
      {
        if k < cur.key {
          var f := LeftChildOf(cur.key, cur.value, cur.right);
          DescendLeft(cur, k);
          RebuildPush(path, f, Ins(cur.left, k, v));
          path, cur := path + [f], cur.left;
        } else if k > cur.key {
          var f := RightChildOf(cur.left, cur.key, cur.value);
          DescendRight(cur, k);
          RebuildPush(path, f, Ins(cur.right, k, v));
          path, cur := path + [f], cur.right;
        } else {
          return false;
        }
      }
      // The new leaf, whose height the first step up sets to 1; then each
      // ancestor is re-heighted and rebalanced, and the last top is the root.
      var top := WalkUp(path, Node(Leaf, k, v, 1, Leaf));
      InsertFresh(t, k, v);
      root := top;
      treeSize := treeSize + 1;
      return true;
    }

    /** remove: drop the entry for k if there is one. A present key loses
        exactly its entry and one from the count; an absent key changes
        nothing. */
    method Remove(k: int) returns (removed: bool)
      requires Valid()
      modifies this
      ensures Valid()
      ensures removed <==> k in old(Contents(root))
      ensures Contents(root) == old(Contents(root)) - {k}
      ensures treeSize == old(treeSize) - if removed then 1 else 0
      ensures !removed ==> root == old(root)
      ensures removed ==> root == Del(old(root), k)
    {
      var t := root;
      var path, cur := SeekRemoval(t, k);
      if cur.Leaf? {
        RemoveAbsent(Contents(t), k);
        return false;
      }
      var sub: Tree<V>;
      if cur.left.Leaf? || cur.right.Leaf? {
        // At most one child: it takes the removed node's place.
        sub := if cur.left.Node? then cur.left else cur.right;
      } else {
        // Two children: the in-order successor is unlinked (its right child
        // takes its place) and grafted where the removed node was. The walk
        // up starts at the successor's former parent, not at the removed
        // node's parent as AVLTree.h:287 has it (AvlAsWritten.SpliceAsWritten).
        var succ, above := FindMin(cur.right);
        var graft := RightChildOf(cur.left, succ.key, succ.value);
        GraftPath(path, graft, above, succ.right);
        path, sub := path + ([graft] + above), succ.right;
      }
      // The new top of the whole walk is the root, also after a rotation at
      // the top (AVLTree.h:291-297 keeps the old top: AvlAsWritten.WalkUpAsWritten).
      var top := WalkUp(path, sub);
      RemovePresent(t, k);
      root := top;
      treeSize := treeSize - 1;
      return true;
    }

    /** search: the value stored under k, or None when k is absent. */
    method Search(k: int) returns (r: Option<V>)
      requires Valid()
      ensures r.Some? <==> k in Contents(root)
      ensures r.Some? ==> r.value == Contents(root)[k]
    {
      var cur := root;
      while cur.Node?
        invariant Ordered(cur)
        invariant k in Contents(root) <==> k in Contents(cur)
        invariant k in Contents(cur) ==> Contents(cur)[k] == Contents(root)[k]
        decreases cur
      {
        if k < cur.key {
          DescendLeft(cur, k);
          cur := cur.left;
        } else if k > cur.key {
          DescendRight(cur, k);
          cur := cur.right;
        } else {
          assert k !in Contents(cur.right);
          return Some(cur.value);
        }
      }
      return None;
    }

    /** keys: the keys in order, strictly ascending, one per entry. */
    method Keys() returns (ks: seq<int>)
      requires Valid()
      ensures ks == KeysOf(root)
      ensures StrictlyAscending(ks) && |ks| == treeSize
      ensures forall x :: x in ks <==> x in Contents(root)
    {
      ks := CollectKeys(root, []);
      KeysAscending(root);
      KeysOfMatchContents(root);
    }

    /** values: the values in key order, aligned index by index with keys. */
    method Values() returns (vs: seq<V>)
      requires Valid()
      ensures vs == ValuesOf(root) && |vs| == treeSize
      ensures forall i :: 0 <= i < |vs| ==>
                KeysOf(root)[i] in Contents(root) && vs[i] == Contents(root)[KeysOf(root)[i]]
    {
      vs := CollectValues(root, []);
      ValuesAligned(root);
    }

    /** size: the stored count, which is the number of entries. */
    method Size() returns (n: nat)
      requires Valid()
      ensures n == treeSize
      ensures n == |Contents(root)|
    {
      n := treeSize;
      CountMatchesContents(root);
    }

    /** The read-only stand-in for getRoot(): the height of the top node,
        which the balance invariant keeps logarithmic in the count. */
    function RootHeight(): (h: nat)
      reads this
      requires Valid()
      ensures Pow2(h / 2) <= treeSize + 1
    {
      NormalisedShape(root);
      HeightLogarithmic(Normalised(root));
      Height(root)
    }
  }

  /** The driver's last test: remove the first key until the tree is empty. */
  method Drain<V>(t: AvlTree<V>)
    requires t.Valid()
    modifies t
    ensures t.Valid() && t.treeSize == 0 && t.root == Leaf
  {
    while t.treeSize > 0
      invariant t.Valid()
      decreases t.treeSize
    {
      var ks := t.Keys();
      var removed := t.Remove(ks[0]);
    }
  }

  /** The driver's copy-constructor test: a copy keeps the original's entries
      after the original gains one. */
  method CopyThenInsert<V>(a: AvlTree<V>, k: int, v: V) returns (b: AvlTree<V>)
    requires a.Valid()
    modifies a
    ensures fresh(b) && b.Valid()
    ensures b.root == old(a.root) && b.treeSize == old(a.treeSize)
    ensures k !in old(Contents(a.root)) ==> Contents(a.root) == old(Contents(a.root))[k := v]
  {
    b := new AvlTree.Copy(a);
    var inserted := a.Insert(k, v);
  }

  /** The driver's assignment test: a tree assigned from another keeps those
      entries after the other loses one. */
  method AssignThenRemove<V>(a: AvlTree<V>, b: AvlTree<V>, k: int)
    requires a.Valid() && b.Valid() && a != b
    modifies a, b
    ensures b.Valid() && b.root == old(a.root) && b.treeSize == old(a.treeSize)
    ensures Contents(a.root) == old(Contents(a.root)) - {k}
  {
    b.Assign(a);
    var removed := a.Remove(k);
  }
}
