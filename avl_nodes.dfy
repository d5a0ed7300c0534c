/**
 * Subtrees of the AVL ordered map (the node type and the private helpers of
 * AVLTree.h): cached heights, balance factors, single rotations and the
 * rebalancing step, written as functions that return the new top of the
 * subtree instead of rebinding a reference-to-pointer.
 *
 * Keys are mathematical integers. The source is generic over K with `<`,
 * `>` and `!=`: insert and search compare with `<` and `>`, remove's descent
 * with `!=` and `<`; for integer keys these agree. Values are of an
 * arbitrary type V.
 */
module AvlNodes {

  /** A subtree: absent, or a node holding one entry, its cached height and
      its two owned children. The parent back-reference of the source is not
      kept: where an operation walks upward, the path from the root is an
      explicit value (see AvlUpdates.Frame). */
  datatype Tree<V> = Leaf | Node(left: Tree<V>, key: int, value: V, height: nat, right: Tree<V>)

  function Max(a: int, b: int): int {
    if a < b then b else a
  }

  /** getHeight: the cached height, with an absent child counting as 0. */
  function Height<V>(t: Tree<V>): nat {
    if t.Leaf? then 0 else t.height
  }

  /** In an AVL tree, counting an absent child as height 0 never clashes with
      a real node: exactly the absent subtree has height 0, and every node is
      strictly higher than both of its children. */
  lemma AvlHeight<V>(t: Tree<V>)
    requires Avl(t)
    ensures Height(t) == 0 <==> t.Leaf?
    ensures t.Node? ==> Height(t.left) < Height(t) && Height(t.right) < Height(t)
  {
  }

  /** Every node's cached height is 1 + the larger child height, and the two
      child heights differ by at most one. */
  ghost predicate Avl<V>(t: Tree<V>) {
    match t
    case Leaf => true
    case Node(l, _, _, h, r) =>
      && Avl(l) && Avl(r)
      && h == 1 + Max(Height(l), Height(r))
      && -1 <= Height(l) - Height(r) <= 1
  }

  /** getBalanceFactor: left height minus right height, as a signed difference
      (0 for an absent node). On an AVL tree it never leaves [-1, 1]. */
  function BalanceFactor<V>(t: Tree<V>): (b: int)
    ensures Avl(t) ==> -1 <= b <= 1
  {
    if t.Leaf? then 0 else Height(t.left) - Height(t.right)
  }

  /** updateHeight, applied to a node over `l` and `r`: the node with its
      cached height recomputed from its children. It is an AVL tree exactly
      when its children are AVL trees whose heights differ by at most one. */
  function Mk<V>(l: Tree<V>, k: int, v: V, r: Tree<V>): (u: Tree<V>)
    ensures Avl(u) <==> Avl(l) && Avl(r) && -1 <= Height(l) - Height(r) <= 1
  {
    Node(l, k, v, 1 + Max(Height(l), Height(r)), r)
  }

  /** The entries of a subtree, read in order (left, node, right); a later
      entry wins on a repeated key, which cannot happen in an ordered tree. */
  function Contents<V>(t: Tree<V>): map<int, V> {
    match t
    case Leaf => map[]
    case Node(l, k, v, _, r) => Contents(l) + map[k := v] + Contents(r)
  }

  /** collectKeys: the in-order sequence of keys. */
  function KeysOf<V>(t: Tree<V>): seq<int> {
    match t
    case Leaf => []
    case Node(l, k, _, _, r) => KeysOf(l) + [k] + KeysOf(r)
  }

  /** collectValues: the in-order sequence of values. */
  function ValuesOf<V>(t: Tree<V>): seq<V> {
    match t
    case Leaf => []
    case Node(l, _, v, _, r) => ValuesOf(l) + [v] + ValuesOf(r)
  }

  /** The binary-search-tree ordering: at every node, every key on the left is
      smaller and every key on the right is larger. */
  ghost predicate Ordered<V>(t: Tree<V>) {
    match t
    case Leaf => true
    case Node(l, k, _, _, r) =>
      && Ordered(l) && Ordered(r)
      && (forall x :: x in Contents(l) ==> x < k)
      && (forall x :: x in Contents(r) ==> k < x)
  }

  /** rotateLeft: the right child `top` is promoted; the old top keeps its left
      subtree and takes `top`'s former left subtree as its right; both moved
      nodes get recomputed heights (Mk), the lower one first. */
  function RotateLeft<V>(t: Tree<V>): (u: Tree<V>)
    requires t.Node? && t.right.Node?
    ensures u.Node? && u.key == t.right.key && u.right == t.right.right
    ensures u.left == Mk(t.left, t.key, t.value, t.right.left)
    ensures Height(u) == 1 + Max(Height(u.left), Height(u.right))
    ensures Contents(u) == Contents(t)
    ensures KeysOf(u) == KeysOf(t) && ValuesOf(u) == ValuesOf(t)
    ensures Ordered(t) ==> Ordered(u)
  {
    var top := t.right;
    var down := Mk(t.left, t.key, t.value, top.left);
    RotationContents(t.left, t.key, t.value, down.height, top.left, top.key, top.value, top.height, top.right,
                     t.height, 1 + Max(Height(down), Height(top.right)));
    RotationSequences(t.left, t.key, t.value, down.height, top.left, top.key, top.value, top.height, top.right,
                      t.height, 1 + Max(Height(down), Height(top.right)));
    OrderedRotation(t.left, t.key, t.value, down.height, top.left, top.key, top.value, top.height, top.right,
                    t.height, 1 + Max(Height(down), Height(top.right)));
    Mk(down, top.key, top.value, top.right)
  }

  /** rotateRight: the mirror image of RotateLeft. */
  function RotateRight<V>(t: Tree<V>): (u: Tree<V>)
    requires t.Node? && t.left.Node?
    ensures u.Node? && u.key == t.left.key && u.left == t.left.left
    ensures u.right == Mk(t.left.right, t.key, t.value, t.right)
    ensures Height(u) == 1 + Max(Height(u.left), Height(u.right))
    ensures Contents(u) == Contents(t)
    ensures KeysOf(u) == KeysOf(t) && ValuesOf(u) == ValuesOf(t)
    ensures Ordered(t) ==> Ordered(u)
  {
    var top := t.left;
    var down := Mk(top.right, t.key, t.value, t.right);
    RotationContents(top.left, top.key, top.value, top.height, top.right, t.key, t.value, down.height, t.right,
                     1 + Max(Height(top.left), Height(down)), t.height);
    RotationSequences(top.left, top.key, top.value, top.height, top.right, t.key, t.value, down.height, t.right,
                      1 + Max(Height(top.left), Height(down)), t.height);
    OrderedRotation(top.left, top.key, top.value, top.height, top.right, t.key, t.value, down.height, t.right,
                    1 + Max(Height(top.left), Height(down)), t.height);
    Mk(top.left, top.key, top.value, down)
  }

  /** balance: a node whose balance factor is within [-1, 1] is left alone; a
      left-heavy node is rotated right, after rotating its left child left when
      that child leans right (left-right case); right-heavy is the mirror.
      Both rotations of a double rotation re-height the nodes they move; in
      AVLTree.h the inner one re-heights the wrong node through an aliased
      reference (modelled as written in AvlAsWritten.BalanceAsWritten). */
  function Balance<V>(t: Tree<V>): (u: Tree<V>)
    ensures -1 <= BalanceFactor(t) <= 1 ==> u == t
    ensures Contents(u) == Contents(t)
    ensures KeysOf(u) == KeysOf(t) && ValuesOf(u) == ValuesOf(t)
    ensures Ordered(t) ==> Ordered(u)
  {
    if t.Leaf? then t
    else if BalanceFactor(t) > 1 then
      RotateRight(if BalanceFactor(t.left) < 0 then t.(left := RotateLeft(t.left)) else t)
    else if BalanceFactor(t) < -1 then
      RotateLeft(if BalanceFactor(t.right) > 0 then t.(right := RotateRight(t.right)) else t)
    else t
  }

  lemma RegroupUnion<V>(a: map<int, V>, b: map<int, V>, c: map<int, V>, d: map<int, V>, e: map<int, V>)
    ensures a + b + (c + d + e) == a + b + c + d + e
  {
  }

  /** A rotation changes only the shape, never the in-order reading: the two
      arrangements of three subtrees around the keys x and y hold the same
      entries, and list the same keys and values in the same order. */
  lemma RotationContents<V>(a: Tree<V>, x: int, xv: V, hx: nat, b: Tree<V>, y: int, yv: V, hy: nat, c: Tree<V>,
                            h1: nat, h2: nat)
    ensures Contents(Node(a, x, xv, h1, Node(b, y, yv, hy, c))) == Contents(Node(Node(a, x, xv, hx, b), y, yv, h2, c))
  {
    RegroupUnion(Contents(a), map[x := xv], Contents(b), map[y := yv], Contents(c));
  }

  lemma RotationSequences<V>(a: Tree<V>, x: int, xv: V, hx: nat, b: Tree<V>, y: int, yv: V, hy: nat, c: Tree<V>,
                             h1: nat, h2: nat)
    ensures KeysOf(Node(a, x, xv, h1, Node(b, y, yv, hy, c))) == KeysOf(Node(Node(a, x, xv, hx, b), y, yv, h2, c))
    ensures ValuesOf(Node(a, x, xv, h1, Node(b, y, yv, hy, c))) == ValuesOf(Node(Node(a, x, xv, hx, b), y, yv, h2, c))
  {
  }

  /** A rotation changes only the shape, never the search order: the two
      arrangements of three subtrees around the keys x and y are ordered
      together. */
  lemma OrderedRotation<V>(a: Tree<V>, x: int, xv: V, hx: nat, b: Tree<V>, y: int, yv: V, hy: nat, c: Tree<V>,
                           h1: nat, h2: nat)
    ensures Ordered(Node(a, x, xv, h1, Node(b, y, yv, hy, c)))
        <==> Ordered(Node(Node(a, x, xv, hx, b), y, yv, h2, c))
  {
    var lower, upper := Node(b, y, yv, hy, c), Node(a, x, xv, hx, b);
    assert forall z :: z in Contents(lower) <==> z in Contents(b) || z == y || z in Contents(c);
    assert forall z :: z in Contents(upper) <==> z in Contents(a) || z == x || z in Contents(b);
    if Ordered(Node(a, x, xv, h1, lower)) {
      assert Ordered(lower) && y in Contents(lower);
      assert Ordered(b);
      assert Ordered(upper);
    }
    if Ordered(Node(upper, y, yv, h2, c)) {
      assert Ordered(upper) && x in Contents(upper);
      assert Ordered(b);
      assert Ordered(lower);
    }
  }

  /** Rebalancing a node whose children are AVL trees with heights at most two
      apart yields an AVL tree. When the children are at most one apart nothing
      moves; otherwise the height lies between the taller child's height and
      one more than that. */
  lemma {:induction false} BalanceRestoresAvl<V>(l: Tree<V>, k: int, v: V, r: Tree<V>)
    requires Avl(l) && Avl(r) && -2 <= Height(l) - Height(r) <= 2
    ensures Avl(Balance(Mk(l, k, v, r)))
    ensures -1 <= Height(l) - Height(r) <= 1 ==> Balance(Mk(l, k, v, r)) == Mk(l, k, v, r)
    ensures Max(Height(l), Height(r)) <= Height(Balance(Mk(l, k, v, r))) <= 1 + Max(Height(l), Height(r))
  {
    if Height(l) - Height(r) == 2 {
      LeftHeavyAvl(l, k, v, r);
    } else if Height(r) - Height(l) == 2 {
      RightHeavyAvl(l, k, v, r);
    }
  }

  /** The left-heavy case: a single right rotation, or a left-right double
      rotation when the left child leans right; the result has height
      Height(l) or Height(l) + 1. */
  lemma LeftHeavyAvl<V>(l: Tree<V>, k: int, v: V, r: Tree<V>)
    requires Avl(l) && Avl(r) && Height(l) - Height(r) == 2
    ensures Avl(Balance(Mk(l, k, v, r)))
    ensures Height(l) <= Height(Balance(Mk(l, k, v, r))) <= Height(l) + 1
  {
    var t := Mk(l, k, v, r);
    assert BalanceFactor(t) == 2;
    if BalanceFactor(l) < 0 {
      LeftRightAvl(l, k, v, r);
    } else {
      var u := Balance(t);
      assert u == RotateRight(t);
      assert u.right == Mk(l.right, k, v, r);
      assert Avl(l.left) && Avl(u.right);
    }
  }

  /** The left-right double rotation, for a left child that leans right. */
  lemma LeftRightAvl<V>(l: Tree<V>, k: int, v: V, r: Tree<V>)
    requires Avl(l) && Avl(r) && Height(l) - Height(r) == 2 && BalanceFactor(l) < 0
    ensures Avl(Balance(Mk(l, k, v, r)))
    ensures Height(Balance(Mk(l, k, v, r))) == Height(l)
  {
    var t := Mk(l, k, v, r);
    var lr := l.right;
    assert BalanceFactor(t) == 2;
    assert Avl(l.left) && Avl(lr) && Avl(lr.left) && Avl(lr.right);
    var u := Balance(t);
    assert u == RotateRight(t.(left := RotateLeft(l)));
    assert u.left == Mk(l.left, l.key, l.value, lr.left);
    assert u.right == Mk(lr.right, k, v, r);
  }

  /** The right-heavy case, the mirror image of LeftHeavyAvl. */
  lemma RightHeavyAvl<V>(l: Tree<V>, k: int, v: V, r: Tree<V>)
    requires Avl(l) && Avl(r) && Height(r) - Height(l) == 2
    ensures Avl(Balance(Mk(l, k, v, r)))
    ensures Height(r) <= Height(Balance(Mk(l, k, v, r))) <= Height(r) + 1
  {
    var t := Mk(l, k, v, r);
    assert BalanceFactor(t) == -2;
    if BalanceFactor(r) > 0 {
      RightLeftAvl(l, k, v, r);
    } else {
      var u := Balance(t);
      assert u == RotateLeft(t);
      assert u.left == Mk(l, k, v, r.left);
      assert Avl(r.right) && Avl(u.left);
    }
  }

  /** The right-left double rotation, the mirror image of LeftRightAvl. */
  lemma RightLeftAvl<V>(l: Tree<V>, k: int, v: V, r: Tree<V>)
    requires Avl(l) && Avl(r) && Height(r) - Height(l) == 2 && BalanceFactor(r) > 0
    ensures Avl(Balance(Mk(l, k, v, r)))
    ensures Height(Balance(Mk(l, k, v, r))) == Height(r)
  {
    var t := Mk(l, k, v, r);
    var rl := r.left;
    assert BalanceFactor(t) == -2;
    assert Avl(r.right) && Avl(rl) && Avl(rl.left) && Avl(rl.right);
    var u := Balance(t);
    assert u == RotateLeft(t.(right := RotateRight(r)));
    assert u.right == Mk(rl.right, r.key, r.value, r.right);
    assert u.left == Mk(l, k, v, rl.left);
  }
}
