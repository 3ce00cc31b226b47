/**
 * The public face of `BST<T>` with `T = int`: an object owning the root link,
 * whose `Insert` and `Remove` rebind it in place.
 */
module BstContainer {
  import opened BinaryTree
  import BstNodes

  class BST {
    /** The root link; `Leaf` when the tree is empty. */
    var root: Tree

    /** The object invariant: the root holds a binary search tree. */
    ghost predicate Valid()
      reads this
    {
      IsBst(root)
    }

    /** The values currently stored. */
    ghost function Contents(): set<int>
      reads this
    {
      Elems(root)
    }

    /** `BST()`: the tree starts empty. */
    constructor ()
      ensures Valid() && root == Leaf && Contents() == {}
    {
      root := Leaf;
    }

    /** `insert(value)`: `true` and the value added when it was absent,
        `false` and nothing changed when it was present. */
    method Insert(value: int) returns (ok: bool)
      requires Valid()
      modifies this
      ensures Valid()
      ensures ok <==> value !in old(Contents())
      ensures Contents() == old(Contents()) + {value}
      ensures Size(root) == if ok then old(Size(root)) + 1 else old(Size(root))
      ensures !ok ==> root == old(root)
      ensures root == BstNodes.Insert(old(root), value).node
    {
      var u := BstNodes.Insert(root, value);
      root := u.node;
      ok := u.ok;
    }

    /** `remove(value)`: `true` and the value gone when it was present,
        `false` and nothing changed when it was absent. */
    method Remove(value: int) returns (ok: bool)
      requires Valid()
      modifies this
      ensures Valid()
      ensures ok <==> value in old(Contents())
      ensures Contents() == old(Contents()) - {value}
      ensures Size(root) == if ok then old(Size(root)) - 1 else old(Size(root))
      ensures !ok ==> root == old(root)
      ensures root == BstNodes.Remove(old(root), value).node
    {
      var u := BstNodes.Remove(root, value);
      BstNodes.RemoveKeepsBst(root, value);
      root := u.node;
      ok := u.ok;
    }

    /** `contain(value)`: membership, read-only. */
    method Contain(value: int) returns (found: bool)
      requires Valid()
      ensures found <==> value in Contents()
    {
      found := BstNodes.Contain(root, value);
    }

    /** `find_node(value)`: the subtree rooted at the node holding `value`,
        or `None` (a null pointer) when the value is absent. */
    method FindNode(value: int) returns (r: Option<Tree>)
      requires Valid()
      ensures r.None? <==> value !in Contents()
      ensures r.Some? ==> r.value.Node? && r.value.data == value && IsSubtree(r.value, root)
    {
      r := BstNodes.FindNode(root, value);
    }

    /** `in_order()`: a fresh vector filled by the recursive helper; strictly
        ascending and holding exactly the stored values. */
    method InOrder() returns (s: seq<int>)
      requires Valid()
      ensures s == BinaryTree.InOrder(root)
      ensures Ascending(s) && |s| == |Contents()|
      ensures forall x :: x in s <==> x in Contents()
    {
      s := BstNodes.InOrderInto(root, []);
      InOrderAscendingIffBst(root);
      SizeIsCardinality(root);
    }

    /** `pre_order()`: a fresh vector filled by the recursive helper; a
        permutation of the in-order sequence. */
    method PreOrder() returns (s: seq<int>)
      requires Valid()
      ensures s == BinaryTree.PreOrder(root)
      ensures multiset(s) == multiset(BinaryTree.InOrder(root))
    {
      s := BstNodes.PreOrderInto(root, []);
      TraversalsArePermutations(root);
    }

    /** `post_order()`: a fresh vector filled by the recursive helper; a
        permutation of the in-order sequence. */
    method PostOrder() returns (s: seq<int>)
      requires Valid()
      ensures s == BinaryTree.PostOrder(root)
      ensures multiset(s) == multiset(BinaryTree.InOrder(root))
    {
      s := BstNodes.PostOrderInto(root, []);
      TraversalsArePermutations(root);
    }
  }

  /** Uses of the class checked against the contracts above alone: the
      empty tree, the insert/contain/remove round trip, a duplicate insert,
      and the shape that two inserts leave behind. */
  method Scenarios(v: int)
  {
    var t := new BST();
    var found := t.Contain(v);
    assert !found;
    var removed := t.Remove(v);
    assert !removed;
    var s := t.InOrder();
    assert s == [];

    var ok := t.Insert(v);
    assert ok;
    ok := t.Insert(v);
    assert !ok && t.Contents() == {v};
    found := t.Contain(v);
    assert found;
    removed := t.Remove(v);
    assert removed;
    found := t.Contain(v);
    assert !found;

    var u := new BST();
    ok := u.Insert(5);
    ok := u.Insert(3);
    s := u.PreOrder();
    assert s == [5, 3];
  }
}
