/**
 * What the public queries keys(), values() and size() of AVLTree.h observe
 * of a subtree, and the facts that make the in-order sequences a faithful
 * view of the map: ascending keys, values aligned with their keys, one node
 * per entry, and a height logarithmic in the number of entries.
 */
module AvlViews {
  import opened AvlNodes

  predicate StrictlyAscending(s: seq<int>) {
    forall i, j :: 0 <= i < j < |s| ==> s[i] < s[j]
  }

  /** The keys met by the in-order traversal are exactly the keys of the map. */
  lemma {:induction false} KeysOfMatchContents<V>(t: Tree<V>)
    ensures forall x :: x in KeysOf(t) <==> x in Contents(t)
  {
    match t
    case Leaf =>
    case Node(l, _, _, _, r) =>
      KeysOfMatchContents(l);
      KeysOfMatchContents(r);
  }

  /** keys() of an ordered tree is strictly ascending. */
  lemma {:induction false} KeysAscending<V>(t: Tree<V>)
    requires Ordered(t)
    ensures StrictlyAscending(KeysOf(t))
  {
    match t
    case Leaf =>
    case Node(l, k, _, _, r) =>
      KeysAscending(l);
      KeysAscending(r);
      KeysOfMatchContents(l);
      KeysOfMatchContents(r);
      var s, kl := KeysOf(t), KeysOf(l);
      forall i, j | 0 <= i < j < |s| ensures s[i] < s[j] {
        if j < |kl| {
        } else if i < |kl| {
          assert s[i] == kl[i] && s[i] in kl;
          if j > |kl| {
            assert s[j] in KeysOf(r);
          }
        } else if i > |kl| {
        } else {
          assert s[j] in KeysOf(r);
        }
      }
  }

  /** values() runs alongside keys(): same length, and the i-th value is the
      one the map holds under the i-th key. */
  lemma {:induction false} ValuesAligned<V>(t: Tree<V>)
    requires Ordered(t)
    ensures |ValuesOf(t)| == |KeysOf(t)|
    ensures forall i :: 0 <= i < |KeysOf(t)| ==>
              KeysOf(t)[i] in Contents(t) && Contents(t)[KeysOf(t)[i]] == ValuesOf(t)[i]
  {
    match t
    case Leaf =>
    case Node(l, k, v, _, r) =>
      ValuesAligned(l);
      ValuesAligned(r);
      KeysOfMatchContents(l);
      var ks, vs, kl := KeysOf(t), ValuesOf(t), KeysOf(l);
      forall i | 0 <= i < |ks| ensures ks[i] in Contents(t) && Contents(t)[ks[i]] == vs[i] {
        if i < |kl| {
          assert ks[i] == kl[i] && kl[i] in kl;
          assert ks[i] !in Contents(r) && ks[i] != k;
        } else if i == |kl| {
          assert k !in Contents(r);
        } else {
          assert ks[i] == KeysOf(r)[i - |kl| - 1];
        }
      }
  }

  /** size(): an ordered tree has one node per entry of its map. */
  lemma {:induction false} CountMatchesContents<V>(t: Tree<V>)
    requires Ordered(t)
    ensures |Contents(t)| == |KeysOf(t)|
  {
    match t
    case Leaf =>
    case Node(l, k, v, _, r) =>
      CountMatchesContents(l);
      CountMatchesContents(r);
      var a, c := Contents(l).Keys, Contents(r).Keys;
      UnionKeys(Contents(l), map[k := v]);
      UnionKeys(Contents(l) + map[k := v], Contents(r));
      assert Contents(t).Keys == (a + {k}) + c;
      assert k !in a;
      DisjointUnionSize(a, {k});
      forall x | x in c ensures x !in a + {k} {
        assert k < x;
        assert x in a ==> x < k;
      }
      DisjointUnionSize(a + {k}, c);
      assert |Contents(t)| == |Contents(t).Keys|;
      assert |Contents(l)| == |a| && |Contents(r)| == |c|;
  }

  lemma UnionKeys<V>(m: map<int, V>, n: map<int, V>)
    ensures (m + n).Keys == m.Keys + n.Keys
  {
  }

  lemma DisjointUnionSize(a: set<int>, c: set<int>)
    requires a !! c
    ensures |a + c| == |a| + |c|
  {
  }

  function Pow2(n: nat): nat {
    if n == 0 then 1 else 2 * Pow2(n - 1)
  }

  lemma {:induction false} Pow2Monotone(m: nat, n: nat)
    requires m <= n
    ensures Pow2(m) <= Pow2(n)
    decreases n
  {
    if m < n {
      Pow2Monotone(m, n - 1);
    }
  }

  /** The balance invariant bounds the height: an AVL tree of height h holds
      at least 2^(h/2) - 1 entries, so h is at most about 2 log2(size + 1). */
  lemma {:induction false} HeightLogarithmic<V>(t: Tree<V>)
    requires Avl(t)
    ensures Pow2(Height(t) / 2) <= |KeysOf(t)| + 1
  {
    match t
    case Leaf =>
    case Node(l, _, _, h, r) =>
      HeightLogarithmic(l);
      HeightLogarithmic(r);
      if h >= 2 {
        var lo := (h - 2) / 2;
        assert lo + 1 == h / 2;
        Pow2Monotone(lo, Height(l) / 2);
        Pow2Monotone(lo, Height(r) / 2);
      }
  }
}
