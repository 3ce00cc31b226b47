# A verified model of an unbalanced binary search tree

The repository's `BST<T>` (`include/bst.hpp`) is a mutable, unbalanced binary
search tree. It stores a set of distinct values ordered by `<`. Two values are
equal when neither is less than the other. Its operations:

- `insert` adds a new leaf, or answers `false` on a duplicate.
- `remove` has four structural cases: leaf, right child only, left child only,
  and two children. In the last case the node takes its in-order successor's
  value, and that value is then removed from the right subtree.
- `contain` and `find_node` descend by comparison.
- `TreeNode::min` and `TreeNode::max` follow left or right links to the end.
- `in_order`, `pre_order` and `post_order` append values to a vector.

The model fixes `T = int`. It has three modules:

- `BinaryTree` (`tree.dfy`) holds the value side. It has the `Tree` datatype
  (`Leaf` for a null link, `Node` for a `TreeNode`), the set of stored values
  (`Elems`), the node count (`Size`) and the ordering invariant (`IsBst`). It
  also holds the three traversal orders as functions and the lemmas about
  them.
- `BstNodes` (`nodes.dfy`) holds the private recursive helpers. A helper that
  takes `TreeNode*& node` and may rebind it becomes a function. That function
  returns `Updated(node, ok)`: the subtree the caller's link holds afterwards,
  plus the helper's `bool`. `min` and `max` are `while` loops over `current`.
  The traversal helpers thread the result vector through as a sequence.
- `BstContainer` (`bst.dfy`) holds the `BST` class. Its `root` field is
  rebound by `Insert` and `Remove`, and its object invariant is `IsBst(root)`.

The comparisons are written as the source writes them: `value < data`, then
`data < value`, then the equal case.

## Model

| member | source | states |
|---|---|---|
| BinaryTree.InOrder | include/bst.hpp:330-337 | The in-order sequence has one entry per node and contains exactly the subtree's values. |
| BinaryTree.PreOrder | include/bst.hpp:347-354 | The pre-order sequence has one entry per node and contains exactly the subtree's values. |
| BinaryTree.PostOrder | include/bst.hpp:364-372 | The post-order sequence has one entry per node and contains exactly the subtree's values. |
| BinaryTree.InOrderAscendingIffBst | include/bst.hpp:330-337 | A subtree satisfies the ordering invariant if and only if its in-order sequence is strictly ascending. |
| BinaryTree.TraversalsArePermutations | include/bst.hpp:346-372 | Pre-order and post-order output are permutations of in-order output, so all three have the same length. |
| BinaryTree.SizeIsCardinality | include/bst.hpp:263-268 | On a valid tree the number of nodes equals the number of distinct values, so no value is stored twice. |
| BinaryTree.SubtreeOfBst | include/bst.hpp:114-126 | A node reached by following links holds a subset of the tree's values and is itself a valid search tree when the tree is. |
| BstNodes.Contain | include/bst.hpp:271-285 | A `true` answer means the value is in the subtree. On a valid tree the answer is `true` exactly when the value is present. |
| BstNodes.FindNode | include/bst.hpp:114-126 | The result is a node exactly when `contain` answers `true`. That node holds the value and lies inside the tree. On a valid tree the result is null exactly when the value is absent. |
| BstNodes.Insert | include/bst.hpp:256-269 | `true` exactly when the search misses the value. `false` leaves the tree unchanged. The new value set is the old set plus the value, and the node count grows by one exactly on success. The value can be found afterwards. The ordering invariant is preserved, and on a valid tree `true` means the value was absent. |
| BstNodes.MinNode | include/bst.hpp:220-227 | The leftmost node has no left child, lies inside the subtree and holds the first in-order value. On a valid tree that value is the smallest. |
| BstNodes.MaxNode | include/bst.hpp:212-219 | The rightmost node has no right child, lies inside the subtree and holds the last in-order value. On a valid tree that value is the largest. |
| BstNodes.Min | include/bst.hpp:220-227 | The `while` loop over left links terminates at a node with no left child, and that node is the leftmost node. |
| BstNodes.Max | include/bst.hpp:212-219 | The `while` loop over right links terminates at a node with no right child, and that node is the rightmost node. |
| BstNodes.Remove | include/bst.hpp:287-327 | `true` exactly when the search finds the value, and `false` leaves the tree unchanged. On any tree, removal never adds a value. |
| BstNodes.RemoveKeepsBst | include/bst.hpp:287-327 | On a valid tree, each of the four cases keeps the ordering invariant and removes exactly the value. The node count shrinks by one exactly when `true` is returned. |
| BstNodes.DescendLeftStep | include/bst.hpp:293-294 | Removing through the left link keeps the ordering invariant, the value set and the size accounting of the whole subtree when it keeps them in the left subtree. |
| BstNodes.DescendRightStep | include/bst.hpp:295-296 | Removing through the right link keeps the ordering invariant, the value set and the size accounting of the whole subtree when it keeps them in the right subtree. |
| BstNodes.TwoChildStep | include/bst.hpp:319-324 | Case 4 copies the successor's value into the node and removes the successor from the right subtree. That keeps the ordering invariant, removes exactly the node's old value and one node. |
| BstNodes.SuccessorSeparates | include/bst.hpp:319-324 | The successor is greater than every value on the left and less than every value that remains on the right, so it may take the node's place. |
| BstNodes.DeleteMin | include/bst.hpp:299-311 | Unlinking the leftmost node puts its right child in its place, which is what cases 1 and 2 do to a node with no left child. It removes exactly one node and adds no value. |
| BstNodes.SuccessorRemoval | include/bst.hpp:319-324 | In the two-child case, the recursive search finds the in-order successor node, which has no left child. The recursive removal succeeds, and its result is exactly the right subtree with that node unlinked by case 1 or 2. |
| BstNodes.InsertThenRemove | include/bst.hpp:256-302 | A successful insert only adds a leaf and moves no other node: removing the value again gives back the original tree and answers `true`. |
| BstNodes.ExampleTreeShape | include/bst.hpp:256-269 | Inserting 5, 3, 8, 1, 4, 7, 9 into an empty tree builds the expected three-level tree. |
| BstNodes.TwoChildRemovalExample | include/bst.hpp:319-324 | Removing 5 from that tree copies the successor 7 into the root and unlinks the old leaf that held 7. |
| BstNodes.TwoChildRemovalResult | include/bst.hpp:330-337 | The resulting tree lists 1, 3, 4, 7, 8, 9 in order and no longer holds 5. |
| BstNodes.LeafRemovalExample | include/bst.hpp:299-302 | After inserting 5, 3 and 8, removing the leaf 3 leaves 5 and 8 in order. |
| BstNodes.InOrderInto | include/bst.hpp:330-337 | The helper appends exactly the subtree's in-order sequence to the vector it is given. |
| BstNodes.PreOrderInto | include/bst.hpp:347-354 | The helper appends exactly the subtree's pre-order sequence to the vector it is given. |
| BstNodes.PostOrderInto | include/bst.hpp:364-372 | The helper appends exactly the subtree's post-order sequence to the vector it is given. |
| BstContainer.BST.constructor | include/bst.hpp:230-233 | A new tree is empty and valid. |
| BstContainer.BST.Insert | include/bst.hpp:240-244 | `true` exactly when the value was absent. The stored set becomes the old set plus the value, and the size grows by one on success. The tree is unchanged on `false`, and the invariant is kept. The new root is the tree the recursive `insert` builds, so the shape, and with it the pre-order and post-order output, is fixed. |
| BstContainer.BST.Remove | include/bst.hpp:246-249 | `true` exactly when the value was present. The stored set becomes the old set minus the value, and the size shrinks by one on success. The tree is unchanged on `false`, and the invariant is kept. The new root is the tree the recursive `remove` builds, so the shape is fixed. |
| BstContainer.BST.Contain | include/bst.hpp:251-254 | `true` exactly when the value is stored. |
| BstContainer.BST.FindNode | include/bst.hpp:190-195 | Null exactly when the value is absent; otherwise a node of the tree holding the value. |
| BstContainer.BST.InOrder | include/bst.hpp:339-344 | The output is the in-order sequence. It is strictly ascending, holds exactly the stored values and has one entry per value. |
| BstContainer.BST.PreOrder | include/bst.hpp:356-361 | The output is the pre-order sequence and a permutation of the in-order output. |
| BstContainer.BST.PostOrder | include/bst.hpp:374-379 | The output is the post-order sequence and a permutation of the in-order output. |

## Left out

- Memory management is not modelled: the allocation in `insert`, the `delete` calls in `remove`, and the recursive destructors `~TreeNode` and `~BST` (include/bst.hpp:206-210, 235-238). A value tree cannot leak, dangle or be freed twice. Allocation failure is not modelled either.
- Node identity is not modelled. `find_node`, `min` and `max` return the subtree rooted at the node they reach, not a pointer to it. Callers therefore cannot mutate a node through the result.
- In-place update is modelled as rebuilding along the search path. A rebound child link is replaced by the subtree the helper returns. Overwriting `node->data` in the two-child case is replaced by building a node with the successor's value, the same left child, and the right subtree as it stands after the successor's removal. The vector passed by reference to the traversal helpers is threaded through as a value, so aliasing is not captured.
- Genericity is not modelled: `T` is fixed to `int` with its built-in order, which is a strict total order. A user-supplied `operator<` that is not a strict weak order is out of scope.
- Copy and move of a `BST` are not modelled. The class declares neither, so the implicit shallow copy would share nodes. That is a C++ ownership defect, not behaviour of the tree.
- Depth, balancing and running time are not modelled. The AVL tree, set and map containers are not part of this model.
