# AVL ordered map

A Dafny model of `AVLTree<K, V>` from `AVLTree.h`: an ordered map from unique
keys to values, stored in a binary search tree whose nodes cache their
heights and are kept height-balanced by single and double rotations.

The model has five modules:

- `AvlNodes` (`avl_nodes.dfy`) covers the node type and the private helpers.
  Subtrees are a datatype `Leaf | Node(left, key, value, height, right)`.
  `getHeight`, `getBalanceFactor` and `updateHeight` are the functions
  `Height`, `BalanceFactor` and `Mk`. `rotateLeft`, `rotateRight` and
  `balance` are functions that return the new top of a subtree, where the
  source rebinds a reference-to-pointer (AVLTree.h:34-36). The abstractions
  live here too:
  - `Contents`, the map an in-order reading of the subtree gives;
  - `KeysOf` and `ValuesOf`, its in-order sequences;
  - `Ordered`, the search-tree order;
  - `Avl`, consistent cached heights plus a balance factor in [-1, 1].
- `AvlUpdates` (`avl_updates.dfy`) holds the reference definitions `Ins`,
  `Del` and `RemoveMin`. The source climbs back up along parent pointers; the
  model writes that walk as `Rebuild` over an explicit parent chain (a
  sequence of `Frame`s). Lemmas prove that insertion and removal keep the
  tree AVL and ordered and change the map by exactly one entry.
- `AvlViews` (`avl_views.dfy`) covers what `keys()`, `values()` and `size()`
  observe:
  - keys come out strictly ascending;
  - values are aligned with their keys;
  - there is one node per entry;
  - the height is logarithmic in the size.
- `AvlMap` (`avl_tree.dfy`) holds the class `AvlTree` with the fields `root`
  and `treeSize`. Its methods carry the source's loops:
  - the descent of `insert`, `remove` and `search`;
  - `findMin`;
  - the walk back up.

  Each method is proved to compute `Ins` or `Del`, or to return exactly what
  the map holds. The module also has the driver's copy, assignment and drain
  scenarios as client methods.
- `AvlAsWritten` (`avl_as_written.dfy`) models three source defects as the
  code has them, and exhibits each on a small tree (see Findings).

Keys are mathematical integers. The source is generic over the key type K,
using `<`, `>` and `!=`: insert and search compare with `<` and `>`, and
remove's descent with `!=` and `<`. For integer keys these agree. Values are
of an arbitrary type `V`.

The source's first insertion into an empty tree installs the node with the
constructor's height 0 and never re-heights it (AVLTree.h:19, 205-208). The
model reproduces this:
- `Insert` on an empty tree gives `Node(Leaf, k, v, 0, Leaf)`;
- the class invariant `Valid` accepts such a lone root (`IsFirstRoot`);
- `Normalised` relates it to the AVL tree with height 1. The next insertion
  of a fresh key, or removal of the key present, computes exactly what it
  would have computed from that AVL tree.

## Model

| member | source | states |
|---|---|---|
| AvlNodes.AvlHeight | AVLTree.h:57-60 | getHeight (the function `Height`, which has no contract of its own) counts an absent child as 0. In an AVL tree exactly the absent subtree has height 0, and every node is strictly higher than both children. `Avl`, `BalanceFactor` and `Mk` are built on `Height`. |
| AvlNodes.BalanceFactor | AVLTree.h:58-65 | The balance factor is left height minus right height, with an absent child counting 0; it lies in [-1, 1] for every AVL subtree. |
| AvlNodes.Mk | AVLTree.h:68-72 | updateHeight applied to a node: the re-heighted node is an AVL tree exactly when both children are AVL trees whose heights differ by at most one (both directions). |
| AvlNodes.RotateLeft | AVLTree.h:95-112 | The right child becomes the top and the old top becomes its left child over the child's former left subtree. Both moved nodes are re-heighted. The map, the in-order keys and values, and the search order are preserved. |
| AvlNodes.RotateRight | AVLTree.h:115-132 | Mirror image of RotateLeft, with the same preservation guarantees. |
| AvlNodes.RotationContents | AVLTree.h:95-132 | The two arrangements of three subtrees around two keys hold the same map. |
| AvlNodes.RotationSequences | AVLTree.h:95-132 | The two arrangements list the same keys and values in the same order. |
| AvlNodes.OrderedRotation | AVLTree.h:95-132 | One arrangement is a search tree exactly when the other is (both directions). |
| AvlNodes.Balance | AVLTree.h:135-150 | A node with factor in [-1, 1] is returned unchanged. Otherwise a single or double rotation is applied. The map, the in-order sequences and the search order are preserved. |
| AvlNodes.BalanceRestoresAvl | AVLTree.h:135-150 | A node over AVL children whose heights differ by at most 2 becomes AVL. Nothing moves when they differ by at most 1. The height ends between the taller child's height and one more than that. |
| AvlNodes.LeftHeavyAvl | AVLTree.h:139-143 | On a factor of +2, the right rotation (or left-right double rotation when the left child leans right) yields an AVL tree of height h or h+1, where h is the left child's height. |
| AvlNodes.RightHeavyAvl | AVLTree.h:144-148 | The mirror image of LeftHeavyAvl, for a factor of -2. |
| AvlNodes.LeftRightAvl | AVLTree.h:139-143 | On a factor of +2 with a left child leaning right, the left-right double rotation yields an AVL tree of exactly the left child's height. |
| AvlNodes.RightLeftAvl | AVLTree.h:144-148 | The mirror image of LeftRightAvl, for a factor of -2 with a right child leaning left. |
| AvlUpdates.Attach | AVLTree.h:235-243 | Re-hanging a subtree under its parent frame gives a node with the parent's key and value, whose map is the in-order union of the three parts. |
| AvlUpdates.Rebuild | AVLTree.h:235-244 | The corrected walk up a non-empty parent chain ends at a node, and every key of the subtree it starts from is in the tree it returns. Its full effect is stated through Ins and Del by InsContents, DelContents, WalkUp and SeekRemoval. |
| AvlUpdates.RebuildAppend | AVLTree.h:236-244 | Walking up a parent chain in two stretches is the same as walking up the whole chain. |
| AvlUpdates.Ins | AVLTree.h:203-246 | Inserting k gives a non-empty tree that holds k and every key it held before, with at most one node more. InsAvl, InsContents and InsPresent state the AVL, map and duplicate properties. |
| AvlUpdates.InsAvl | AVLTree.h:203-246 | Inserting into an AVL tree gives an AVL tree whose height grows by at most one. |
| AvlUpdates.InsContents | AVLTree.h:203-246 | Inserting a fresh key into a search tree keeps it a search tree. The map gains exactly k -> v and the node count grows by one. |
| AvlUpdates.InsPresent | AVLTree.h:229-232 | Inserting a key already present leaves the tree identical. |
| AvlUpdates.MinNode | AVLTree.h:153-158 | findMin returns a node without a left child that holds the first in-order key and value. |
| AvlUpdates.RemoveMin | AVLTree.h:270-287 | The entry split off is the first in-order key and value, and the rest reads, in order, as the original without that first entry (so it has one node fewer). RemoveMinAvl and RemoveMinContents state the AVL and map properties. |
| AvlUpdates.RemoveMinAvl | AVLTree.h:270-276 | Unlinking the leftmost node of an AVL tree and rebalancing upward leaves an AVL tree whose height drops by at most one. |
| AvlUpdates.RemoveMinContents | AVLTree.h:153-158 | Unlinking the leftmost node removes the smallest key. Every remaining key is larger, the rest stays ordered, and putting the entry back gives the original map. |
| AvlUpdates.Del | AVLTree.h:249-300 | Removing k introduces no key and keeps every key other than k. It removes at most one node, and exactly one when k is at the top. DelAvl and DelContents state the AVL and map properties. |
| AvlUpdates.DelAvl | AVLTree.h:249-300 | Removal (as corrected, see Findings) keeps an AVL tree AVL and lowers its height by at most one. |
| AvlUpdates.DelContents | AVLTree.h:249-300 | Removal keeps the search order and the map loses exactly k. The node count drops by one exactly when k was present. |
| AvlViews.KeysOfMatchContents | AVLTree.h:170-176 | The in-order keys are exactly the keys of the map. |
| AvlViews.KeysAscending | AVLTree.h:325-329 | The in-order keys of a search tree are strictly ascending. |
| AvlViews.ValuesAligned | AVLTree.h:318-322 | values() has the length of keys(), and its i-th element is the value mapped to the i-th key. |
| AvlViews.CountMatchesContents | AVLTree.h:332-334 | A search tree has as many nodes as its map has entries. |
| AvlViews.HeightLogarithmic | AVLTree.h:135-150 | An AVL tree of height h holds at least 2^(h/2) - 1 entries. |
| AvlMap.NormalisedShape | AVLTree.h:205-208 | A well-formed root whose lone first node has height 0 has the same map and keys as its normalised AVL form. The two heights agree once halved (h/2). |
| AvlMap.NormalisedUpdates | AVLTree.h:203-300 | Inserting a fresh key into the height-0 first root, or removing its key, gives the same result as doing so on the normalised form. |
| AvlMap.InsertFresh | AVLTree.h:210-245 | Inserting a fresh key into a well-formed non-empty root gives a well-formed root. The map gains exactly k -> v and there is one more node. |
| AvlMap.RemovePresent | AVLTree.h:256-298 | Removing a present key from a well-formed root gives a well-formed root. The map loses exactly k and there is one node fewer. |
| AvlMap.DescendLeft | AVLTree.h:213-220 | At a node with a larger key, k is in the subtree exactly when it is in the left child, with the same value. |
| AvlMap.DescendRight | AVLTree.h:221-228 | At a node with a smaller key, the same holds for the right child. |
| AvlMap.CopyTree | AVLTree.h:75-83 | The copy has the same shape, keys, values and heights. |
| AvlMap.CollectKeys | AVLTree.h:170-176 | The result is the accumulator followed by the in-order keys. |
| AvlMap.CollectValues | AVLTree.h:161-167 | The result is the accumulator followed by the in-order values. |
| AvlMap.FindMin | AVLTree.h:153-158 | The loop reaches MinNode of the subtree, a node without a left child. On a search tree its key is the smallest and it holds that key's value. The chain it passed, walked back up after unlinking it, is exactly RemoveMin. |
| AvlMap.SeekRemoval | AVLTree.h:250-253 | The descent of remove stops at a node holding k exactly when k is in the map. Removing k from the whole tree is Del on the subtree reached, walked back up the parent chain. |
| AvlMap.WalkUp | AVLTree.h:235-244 | The loop that re-hangs, re-heights and rebalances each ancestor returns the top of the parent chain's Rebuild. |
| AvlMap.AvlTree.constructor | AVLTree.h:179 | A new tree is empty, with size 0, and valid. |
| AvlMap.AvlTree.Copy | AVLTree.h:182-185 | The copy has the other tree's nodes, heights and size, and is valid when the other is. |
| AvlMap.AvlTree.Assign | AVLTree.h:188-195 | Afterwards this tree has the other's nodes and size; self-assignment leaves it unchanged. |
| AvlMap.AvlTree.Insert | AVLTree.h:203-246 | The result is true exactly when k was absent. If so, the map gains exactly k -> v, the size grows by one and the root is Ins of the old root (or the height-0 first node). Otherwise nothing changes. The tree stays valid. |
| AvlMap.AvlTree.Remove | AVLTree.h:249-300 | The result is true exactly when k was present. The map loses exactly k and the size drops by one when it was present; otherwise nothing changes. The root is Del of the old root and the tree stays valid. |
| AvlMap.AvlTree.Search | AVLTree.h:303-315 | The result is Some exactly when k is in the map, and then it carries k's value. The source throws "Key not found" instead of returning None. |
| AvlMap.AvlTree.Keys | AVLTree.h:325-329 | The keys are returned in order, strictly ascending, exactly the map's keys, and as many as the size. |
| AvlMap.AvlTree.Values | AVLTree.h:318-322 | The values are returned in key order, as many as the size. The i-th value is the one mapped to the i-th key. |
| AvlMap.AvlTree.Size | AVLTree.h:332-334 | The result is the stored count `treeSize`, and it equals the number of entries of the map. |
| AvlMap.AvlTree.RootHeight | AVLTree.h:53 | The root's height h satisfies 2^(h/2) <= size + 1. |
| AvlMap.Drain | a4main.cpp:194-196 | Removing the first key while the size is positive ends with an empty, valid tree. |
| AvlMap.CopyThenInsert | a4main.cpp:160-171 | A copy keeps the original's nodes and size after the original gains an entry. |
| AvlMap.AssignThenRemove | a4main.cpp:176-189 | A tree assigned from another keeps that tree's nodes and size after the other loses an entry. |
| AvlAsWritten.RotateLeftAliased | AVLTree.h:95-112 | rotateLeft(node->left) as written keeps the map, order and sequences. The node moved down keeps its old height. |
| AvlAsWritten.RotateRightAliased | AVLTree.h:115-132 | rotateRight(node->right) as written, the mirror image of RotateLeftAliased. |
| AvlAsWritten.BalanceAsWritten | AVLTree.h:135-150 | balance as written equals Balance except in the two double-rotation cases, and always preserves the map, the order and the sequences. |
| AvlAsWritten.DetachMinAsWritten | AVLTree.h:270-276 | Unlinking the successor without re-heighting drops exactly the first in-order key and value. |
| AvlAsWritten.Locate | AVLTree.h:250-253 | The descent of remove ends at the node holding k, or at an empty slot. Walking its parent chain back up with the corrected removal gives Del. Every key of the tree is on the parent chain or in the subtree reached, and the two together hold all the nodes. |
| AvlAsWritten.SpliceAsWritten | AVLTree.h:256-289 | The subtree that takes the removed node's place, as written, reads in order as the removed node's left keys and values followed by its right ones: exactly the removed entry is dropped. |
| AvlAsWritten.WalkUpAsWritten | AVLTree.h:291-297 | The walk up as written returns a tree whose keys all come from the parent chain or the subtree in hand, with no more nodes than those hold together. |
| AvlAsWritten.RemoveAsWritten | AVLTree.h:249-300 | remove as written leaves a tree without k unchanged. Otherwise the tree that `root` points to afterwards holds only keys of the original, and either is the original or has fewer nodes. StaleRootLosesEntries shows that it can lose more than k. |
| AvlAsWritten.DoubleRotationStaleHeight | AVLTree.h:139-143 | On the tree reached by inserting 3, 1, 2, balance as written leaves a leaf of height 2 and is not AVL, while Balance is. |
| AvlAsWritten.SuccessorLeftStale | AVLTree.h:277-287 | Removing 2 from 2(1, 3) as written leaves 3 at height 1 over a child and is not AVL, while Del gives height 2. |
| AvlAsWritten.StaleRootLosesEntries | AVLTree.h:291-297 | Removing 1 from 2(1, 4(-, 5)) as written leaves root reading [2], while Del keeps [2, 4, 5]. |

## Left out

- The parent back-pointers are not modelled. Where the source climbs them, the model carries the chain of ancestors as an explicit sequence of frames. Node identity and aliasing therefore do not appear, except in the as-written rotations.
- destroyTree, the destructor and the `delete` of removed nodes are not modelled: memory is not modelled.
- Insert allocates the new node before the duplicate check and deletes it afterwards (AVLTree.h:204, 230). That allocation is invisible in the model.
- AvlNodes.Mk: updateHeight does nothing when handed an absent node (AVLTree.h:69). The model only ever re-heights an existing node, so that case does not arise.
- AvlNodes.BalanceFactor: the source subtracts two `unsigned int` heights and converts the wrapped result to `int`. For the heights that can occur this equals the signed difference, which is what the model uses.
- AvlNodes.Height and AvlMap.AvlTree.treeSize: heights and the entry count are `nat` rather than 32-bit unsigned (AVLTree.h:27, 57). No height can come near the bound, and the count would wrap only at 2^32 entries, which the model does not capture.
- AvlMap.AvlTree.Search: the "Key not found" exception is modelled as `None`.
- AvlMap.AvlTree.RootHeight: `getRoot()` hands out the root as `void*`, and the driver casts it back to read its height. The model offers only that height, read-only.
- Keys are `int`. The source is generic over K with `<`, `>` and `!=`. Insert and search compare with `<` and `>` (AVLTree.h:213, 221, 306, 308), and remove's descent with `!=` and `<` (AVLTree.h:251-252). For `int` keys these agree; a K whose `!=` disagreed with its `<` and `>` is not modelled.
- The console driver in a4main.cpp is not modelled beyond its copy, assignment and drain scenarios. Its printing, and its `checkAVLTree`, which dereferences a null root on an empty tree, are I/O.
- AvlNodes.Balance, AvlUpdates.Ins, AvlUpdates.Del, AvlUpdates.Rebuild, AvlMap.WalkUp, AvlMap.AvlTree.Insert and AvlMap.AvlTree.Remove model the corrected behaviour of the three defects under Findings; insert goes through the same balance (AVLTree.h:238) as remove. The as-written behaviour is modelled in `AvlAsWritten` and shown on concrete trees only, not characterised on all inputs.

## Findings

| source | as written | input that shows it | evidently intended | confidence | as-written member | corrected member |
|---|---|---|---|---|---|---|
| AVLTree.h:139-148 with 95-132 | balance passes `node->left` (or `node->right`) by reference to the inner rotation of a double rotation. The rotation's parent fix-up writes the new top into that same field, so `updateHeight(node)` re-heights the new top and the node moved down keeps its old height. Both insert (AVLTree.h:238) and remove (AVLTree.h:293) call balance. | Insert 3, 1, 2 into an empty tree. Leaf 1 is left with height 2, and root 2 with height 3 instead of 2. | Both nodes moved by each rotation are re-heighted. | high (not executed) | AvlAsWritten.BalanceAsWritten, AvlAsWritten.DoubleRotationStaleHeight | AvlNodes.Balance, AvlNodes.BalanceRestoresAvl, AvlUpdates.Ins, AvlMap.WalkUp, AvlMap.AvlTree.Insert |
| AVLTree.h:279, 287 | In the two-children case, `toBalance = successor->parent` reads the field after it was set to the removed node's parent. The successor and its former ancestors are never re-heighted or rebalanced. | Insert 2, 1, 3, then remove 2. The new root 3 keeps height 1 above child 1. | Rebalance from the successor's former parent (or from the successor itself when it was the removed node's right child) up to the root. | high (not executed) | AvlAsWritten.RemoveAsWritten, AvlAsWritten.SuccessorLeftStale | AvlUpdates.Del, AvlUpdates.DelAvl, AvlMap.AvlTree.Remove |
| AVLTree.h:291-297 | The walk up stops only at `toBalance == root`. After a rotation at the top, `toBalance` is the new top, so `root` is never updated and still points at the old top, which is now a child. | Insert 2, 1, 4, 5, then remove 1. keys() gives [2] while size() gives 3. | Set `root` to the new top when the walk reaches it, as insert does at AVLTree.h:239-241. | high (not executed) | AvlAsWritten.WalkUpAsWritten, AvlAsWritten.StaleRootLosesEntries | AvlUpdates.Rebuild, AvlUpdates.DelContents, AvlMap.AvlTree.Remove |
