/**
 * Three places where AVLTree.h, read literally, does not do what the rest of
 * the class relies on, modelled as written so that each discrepancy can be
 * exhibited on a small tree. The rest of the model uses the corrected
 * definitions (Balance, Del, Rebuild); the lemmas here show where the two
 * part ways. None of the three loses or reorders entries on its own account:
 * the first two leave cached heights wrong, the third leaves `root` pointing
 * below the real top of the tree.
 */
module AvlAsWritten {
  import opened AvlNodes
  import opened AvlUpdates

  /** The inner rotation of a double rotation, as written. balance passes
      `node->left` by reference; rotateLeft's own parent fix-up writes the new
      top into that very field, so its `updateHeight(node)` re-heights the new
      top and the node moved down keeps the height it had as the top. */
  function RotateLeftAliased<V>(t: Tree<V>): (u: Tree<V>)
    requires t.Node? && t.right.Node?
    ensures u.Node? && u.key == t.right.key && u.right == t.right.right
    ensures u.left.Node? && u.left.key == t.key && u.left.height == t.height
    ensures Contents(u) == Contents(t)
    ensures KeysOf(u) == KeysOf(t) && ValuesOf(u) == ValuesOf(t)
    ensures Ordered(t) ==> Ordered(u)
  {
    var top := t.right;
    var h := 1 + Max(t.height, Height(top.right));
    RotationContents(t.left, t.key, t.value, t.height, top.left, top.key, top.value, top.height, top.right, t.height, h);
    RotationSequences(t.left, t.key, t.value, t.height, top.left, top.key, top.value, top.height, top.right, t.height, h);
    OrderedRotation(t.left, t.key, t.value, t.height, top.left, top.key, top.value, top.height, top.right, t.height, h);
    Node(Node(t.left, t.key, t.value, t.height, top.left), top.key, top.value, h, top.right)
  }

  /** The mirror image, for `rotateRight(node->right)`. */
  function RotateRightAliased<V>(t: Tree<V>): (u: Tree<V>)
    requires t.Node? && t.left.Node?
    ensures u.Node? && u.key == t.left.key && u.left == t.left.left
    ensures u.right.Node? && u.right.key == t.key && u.right.height == t.height
    ensures Contents(u) == Contents(t)
    ensures KeysOf(u) == KeysOf(t) && ValuesOf(u) == ValuesOf(t)
    ensures Ordered(t) ==> Ordered(u)
  {
    var top := t.left;
    var h := 1 + Max(Height(top.left), t.height);
    RotationContents(top.left, top.key, top.value, top.height, top.right, t.key, t.value, t.height, t.right, h, t.height);
    RotationSequences(top.left, top.key, top.value, top.height, top.right, t.key, t.value, t.height, t.right, h, t.height);
    OrderedRotation(top.left, top.key, top.value, top.height, top.right, t.key, t.value, t.height, t.right, h, t.height);
    Node(top.left, top.key, top.value, h, Node(top.right, t.key, t.value, t.height, t.right))
  }

  /** balance as written: the outer rotation is the one of the model, the
      inner rotation of a double rotation is the aliased one. It differs from
      Balance only in the double-rotation cases, and never in the entries. */
  function BalanceAsWritten<V>(t: Tree<V>): (u: Tree<V>)
    ensures (!(BalanceFactor(t) > 1 && BalanceFactor(t.left) < 0)
             && !(BalanceFactor(t) < -1 && BalanceFactor(t.right) > 0)) ==> u == Balance(t)
    ensures Contents(u) == Contents(t)
    ensures KeysOf(u) == KeysOf(t) && ValuesOf(u) == ValuesOf(t)
    ensures Ordered(t) ==> Ordered(u)
  {
    if t.Leaf? then t
    else if BalanceFactor(t) > 1 then
      RotateRight(if BalanceFactor(t.left) < 0 then t.(left := RotateLeftAliased(t.left)) else t)
    else if BalanceFactor(t) < -1 then
      RotateLeft(if BalanceFactor(t.right) > 0 then t.(right := RotateRightAliased(t.right)) else t)
    else t
  }

  /** Unlinking the successor as written: its right subtree takes its place,
      and no node on the way is re-heighted or rebalanced. The in-order
      reading loses exactly the first entry. */
  function DetachMinAsWritten<V>(t: Tree<V>): (u: Tree<V>)
    requires t.Node?
    ensures KeysOf(t) == [MinNode(t).key] + KeysOf(u)
    ensures ValuesOf(t) == [MinNode(t).value] + ValuesOf(u)
  {
    if t.left.Leaf? then t.right
    else t.(left := DetachMinAsWritten(t.left))
  }

  /** The keys a frame holds besides the subtree in hand: its own key and
      those of its other child. */
  function FrameKeys<V>(f: Frame<V>): seq<int> {
    match f
    case LeftChildOf(k, _, r) => [k] + KeysOf(r)
    case RightChildOf(l, k, _) => KeysOf(l) + [k]
  }

  /** The keys held along a parent chain outside the subtree in hand, frame
      by frame from the root down. */
  function PathKeys<V>(path: seq<Frame<V>>): seq<int>
    decreases |path|
  {
    if path == [] then [] else PathKeys(path[..|path| - 1]) + FrameKeys(path[|path| - 1])
  }

  lemma AttachKeys<V>(f: Frame<V>, t: Tree<V>)
    ensures forall x :: x in KeysOf(Attach(f, t)) <==> x in FrameKeys(f) || x in KeysOf(t)
    ensures |KeysOf(Attach(f, t))| == |FrameKeys(f)| + |KeysOf(t)|
  {
  }

  lemma {:induction false} PathKeysPrepend<V>(f: Frame<V>, path: seq<Frame<V>>)
    ensures forall x :: x in PathKeys([f] + path) <==> x in FrameKeys(f) || x in PathKeys(path)
    ensures |PathKeys([f] + path)| == |FrameKeys(f)| + |PathKeys(path)|
    decreases |path|
  {
    if path == [] {
      assert [f] + path == [f];
      assert PathKeys([f]) == PathKeys(path) + FrameKeys(f);
    } else {
      var p, g := path[..|path| - 1], path[|path| - 1];
      var q := [f] + path;
      assert q[..|q| - 1] == [f] + p && q[|q| - 1] == g;
      PathKeysPrepend(f, p);
    }
  }

  /** Where the descent of remove stops: the parent chain of the node holding
      k, or of the empty slot where k would be. */
  datatype Spot<V> = Spot(path: seq<Frame<V>>, node: Tree<V>)

  function Locate<V>(t: Tree<V>, k: int): (s: Spot<V>)
    ensures s.node.Node? ==> s.node.key == k
    ensures Rebuild(s.path, Del(s.node, k)) == Del(t, k)
    ensures forall x :: x in KeysOf(t) <==> x in PathKeys(s.path) || x in KeysOf(s.node)
    ensures |KeysOf(t)| == |PathKeys(s.path)| + |KeysOf(s.node)|
  {
    if t.Leaf? || t.key == k then Spot([], t)
    else if k < t.key then
      var s := Locate(t.left, k);
      var f := LeftChildOf(t.key, t.value, t.right);
      RebuildAppend([f], s.path, Del(s.node, k));
      RebuildPush([], f, Rebuild(s.path, Del(s.node, k)));
      assert [] + [f] == [f];
      PathKeysPrepend(f, s.path);
      Spot([f] + s.path, s.node)
    else
      var s := Locate(t.right, k);
      var f := RightChildOf(t.left, t.key, t.value);
      RebuildAppend([f], s.path, Del(s.node, k));
      RebuildPush([], f, Rebuild(s.path, Del(s.node, k)));
      assert [] + [f] == [f];
      PathKeysPrepend(f, s.path);
      Spot([f] + s.path, s.node)
  }

  /** The subtree that replaces the removed node, as written: a child, or the
      successor carrying its own old height, over the removed node's left
      subtree and the right subtree with the successor unlinked. */
  function SpliceAsWritten<V>(cur: Tree<V>): (r: Tree<V>)
    requires cur.Node?
    ensures KeysOf(r) == KeysOf(cur.left) + KeysOf(cur.right)
    ensures ValuesOf(r) == ValuesOf(cur.left) + ValuesOf(cur.right)
  {
    if cur.left.Leaf? || cur.right.Leaf? then (if cur.left.Node? then cur.left else cur.right)
    else
      var m := MinNode(cur.right);
      Node(cur.left, m.key, m.value, m.height, DetachMinAsWritten(cur.right))
  }

  /** The walk up of remove as written. It starts at the removed node's
      parent (for two children too, since the successor's parent field has
      already been overwritten), and it stops only when the node in hand is
      `root`; after a rotation at the top the node in hand is the new top,
      so `root` is left at the old top, which is now one of its children. */
  function WalkUpAsWritten<V>(path: seq<Frame<V>>, t: Tree<V>): (r: Tree<V>)
    ensures forall x :: x in KeysOf(r) ==> x in PathKeys(path) || x in KeysOf(t)
    ensures |KeysOf(r)| <= |PathKeys(path)| + |KeysOf(t)|
    decreases |path|
  {
    if path == [] then t
    else if |path| == 1 then
      var u := Attach(path[0], t);
      AttachKeys(path[0], t);
      var b := BalanceAsWritten(u);
      assert PathKeys(path) == PathKeys(path[..0]) + FrameKeys(path[0]);
      if -1 <= BalanceFactor(u) <= 1 then b
      else if BalanceFactor(u) > 1 then b.right
      else b.left
    else
      var p, f := path[..|path| - 1], path[|path| - 1];
      var x := BalanceAsWritten(Attach(f, t));
      AttachKeys(f, t);
      WalkUpAsWritten(p, x)
  }

  /** remove as written: the tree that `root` points to afterwards. */
  function RemoveAsWritten<V>(t: Tree<V>, k: int): (r: Tree<V>)
    ensures k !in KeysOf(t) ==> r == t
    ensures forall x :: x in KeysOf(r) ==> x in KeysOf(t)
    ensures r == t || |KeysOf(r)| < |KeysOf(t)|
  {
    var s := Locate(t, k);
    if s.node.Leaf? then t
    else
      WalkUpAsWritten(s.path, SpliceAsWritten(s.node))
  }

  /** Inserting 3, 1 and 2 into an empty tree: when the walk up reaches 3 its
      left child 1 leans right, and the double rotation as written leaves the
      leaf 1 with height 2 and the new top 2 with height 3, so the result is
      no longer AVL with consistent heights; the corrected balance gives
      heights 1, 2, 1. */
  lemma DoubleRotationStaleHeight<V>(t: Tree<V>, v: V)
    requires t == Mk(Mk(Leaf, 1, v, Node(Leaf, 2, v, 1, Leaf)), 3, v, Leaf)
    ensures BalanceAsWritten(t) == Node(Node(Leaf, 1, v, 2, Leaf), 2, v, 3, Node(Leaf, 3, v, 1, Leaf))
    ensures !Avl(BalanceAsWritten(t))
    ensures Balance(t) == Node(Node(Leaf, 1, v, 1, Leaf), 2, v, 2, Node(Leaf, 3, v, 1, Leaf))
    ensures Avl(Balance(t))
  {
    assert BalanceFactor(t) == 2 && BalanceFactor(t.left) == -1;
  }

  /** The tree 2(1, 3) built by inserting 2, 1, 3; removing 2 as written puts
      the successor 3 on top with its old height 1 over the child 1, and
      nothing re-heights it; the corrected removal gives it height 2. */
  lemma SuccessorLeftStale<V>(t: Tree<V>, v: V)
    requires t == Node(Node(Leaf, 1, v, 1, Leaf), 2, v, 2, Node(Leaf, 3, v, 1, Leaf))
    ensures RemoveAsWritten(t, 2) == Node(Node(Leaf, 1, v, 1, Leaf), 3, v, 1, Leaf)
    ensures !Avl(RemoveAsWritten(t, 2))
    ensures Del(t, 2) == Node(Node(Leaf, 1, v, 1, Leaf), 3, v, 2, Leaf)
    ensures Avl(Del(t, 2))
  {
    assert Locate(t, 2) == Spot([], t);
  }

  /** The tree 2(1, 4(-, 5)) built by inserting 2, 1, 4, 5; removing 1 makes
      the root right-heavy, the rotation lifts 4, and as written `root` stays
      at 2, which now holds only itself: the keys read back are [2] while the
      count says 3. The corrected removal keeps [2, 4, 5]. */
  lemma StaleRootLosesEntries<V>(t: Tree<V>, v: V)
    requires t == Node(Node(Leaf, 1, v, 1, Leaf), 2, v, 3, Node(Leaf, 4, v, 2, Node(Leaf, 5, v, 1, Leaf)))
    ensures KeysOf(RemoveAsWritten(t, 1)) == [2]
    ensures KeysOf(Del(t, 1)) == [2, 4, 5]
  {
    var r := t.right;
    assert Locate(t.left, 1) == Spot([], t.left);
    assert Locate(t, 1) == Spot([LeftChildOf(2, v, r)], t.left);
    var u := Mk(Leaf, 2, v, r);
    assert BalanceFactor(u) == -2 && BalanceFactor(r) == -1;
    assert WalkUpAsWritten([LeftChildOf(2, v, r)], Leaf) == Node(Leaf, 2, v, 1, Leaf);
  }
}
