/**
 * The recursive node-level operations of `BST<T>` and `BST<T>::TreeNode`.
 * A C++ helper that takes `TreeNode*& node` and may rebind it is modelled as a
 * function that returns the subtree the caller's link holds afterwards,
 * together with the helper's boolean result.
 */
module BstNodes {
  import opened BinaryTree

  /** What a rebinding helper leaves behind: the subtree now held by the
      caller's link and the `bool` the helper returned. */
  datatype Updated = Updated(node: Tree, ok: bool)

  /**
   * `contain(node, value)`: descend by comparison; `false` past an absent link.
   * Whatever the tree, a `true` answer is sound; on a valid tree it is also
   * complete.
   */
  function Contain(t: Tree, v: int): (found: bool)
    ensures found ==> v in Elems(t)
    ensures IsBst(t) ==> (found <==> v in Elems(t))
  {
    match t
    case Leaf => false
    case Node(l, d, r) =>
      if v < d then Contain(l, v)
      else if d < v then Contain(r, v)
      else true
  }

  /**
   * `find_node(node, value)`: the same descent as `contain`, returning the
   * subtree rooted at the matching node, or `None` for a null pointer.
   */
  function FindNode(t: Tree, v: int): (r: Option<Tree>)
    ensures r.Some? <==> Contain(t, v)
    ensures r.Some? ==> r.value.Node? && r.value.data == v && IsSubtree(r.value, t)
    ensures IsBst(t) ==> (r.None? <==> v !in Elems(t))
  {
    match t
    case Leaf => None
    case Node(l, d, rt) =>
      if v < d then FindNode(l, v)
      else if d < v then FindNode(rt, v)
      else Some(t)
  }

  /**
   * `insert(node, value)`: on reaching an absent link, rebind it to a new leaf
   * and answer `true`; on an equal value answer `false` and change nothing.
   */
  function Insert(t: Tree, v: int): (r: Updated)
    ensures IsBst(t) ==> IsBst(r.node) && (r.ok <==> v !in Elems(t))
    ensures Contain(r.node, v)
    ensures Size(r.node) == if r.ok then Size(t) + 1 else Size(t)
    ensures Elems(r.node) == Elems(t) + {v}
    ensures !r.ok ==> r.node == t
    ensures r.ok == !Contain(t, v)
  {
    match t
    case Leaf => Updated(Node(Leaf, v, Leaf), true)
    case Node(l, d, rt) =>
      if v < d then
        var u := Insert(l, v);
        Updated(Node(u.node, d, rt), u.ok)
      else if d < v then
        var u := Insert(rt, v);
        Updated(Node(l, d, u.node), u.ok)
      else
        Updated(t, false)
  }

  /**
   * The node `TreeNode::min` stops at: follow left links until the left link
   * is absent. It holds the first value of the subtree's in-order sequence,
   * and on a valid tree the smallest value.
   */
  function MinNode(t: Tree): (m: Tree)
    requires t.Node?
    ensures m.Node? && m.left.Leaf? && IsSubtree(m, t)
    ensures m.data in Elems(t) && m.data == InOrder(t)[0]
    ensures IsBst(t) ==> forall x :: x in Elems(t) ==> m.data <= x
  {
    if t.left.Leaf? then t else MinNode(t.left)
  }

  /**
   * The node `TreeNode::max` stops at: follow right links until the right
   * link is absent. It holds the last value of the subtree's in-order
   * sequence, and on a valid tree the largest value.
   */
  function MaxNode(t: Tree): (m: Tree)
    requires t.Node?
    ensures m.Node? && m.right.Leaf? && IsSubtree(m, t)
    ensures m.data in Elems(t) && m.data == InOrder(t)[|InOrder(t)| - 1]
    ensures IsBst(t) ==> forall x :: x in Elems(t) ==> x <= m.data
  {
    if t.right.Leaf? then t
    else
      var m := MaxNode(t.right);
      assert InOrder(t)[|InOrder(t)| - 1] == InOrder(t.right)[|InOrder(t.right)| - 1];
      m
  }

  /** `TreeNode::min`: the `while` loop that walks `current` down the left links. */
  method Min(node: Tree) returns (current: Tree)
    requires node.Node?
    ensures current.Node? && current.left.Leaf?
    ensures current == MinNode(node)
  {
    current := node;
    while current.left.Node?
      invariant current.Node? && MinNode(current) == MinNode(node)
      decreases current
    {
      current := current.left;
    }
  }

  /** `TreeNode::max`: the `while` loop that walks `current` down the right links. */
  method Max(node: Tree) returns (current: Tree)
    requires node.Node?
    ensures current.Node? && current.right.Leaf?
    ensures current == MaxNode(node)
  {
    current := node;
    while current.right.Node?
      invariant current.Node? && MaxNode(current) == MaxNode(node)
      decreases current
    {
      current := current.right;
    }
  }

  /**
   * `remove(node, value)`: descend by comparison; `false` past an absent link.
   * On the matching node: a leaf is unlinked (case 1); a node with only a
   * right or only a left child is replaced by that child (cases 2 and 3); a
   * node with two children takes the value of its in-order successor, the
   * minimum of its right subtree, and that value is then removed from the
   * right subtree (case 4). The answer is `true` whenever a match was found.
   */
  function Remove(t: Tree, v: int): (r: Updated)
    ensures r.ok == Contain(t, v)
    ensures !r.ok ==> r.node == t
    ensures Elems(r.node) <= Elems(t)
  {
    match t
    case Leaf => Updated(Leaf, false)
    case Node(l, d, rt) =>
      if v < d then
        var u := Remove(l, v);
        Updated(Node(u.node, d, rt), u.ok)
      else if d < v then
        var u := Remove(rt, v);
        Updated(Node(l, d, u.node), u.ok)
      else if l.Leaf? && rt.Leaf? then
        Updated(Leaf, true)
      else if l.Leaf? then
        Updated(rt, true)
      else if rt.Leaf? then
        Updated(l, true)
      else
        var successor := MinNode(rt).data;
        var u := Remove(rt, successor);
        Updated(Node(l, successor, u.node), true)
  }

  /** What `remove` promises on a valid tree: the ordering invariant is kept,
      exactly `v` leaves the value set, and one node goes when `v` was present. */
  ghost predicate RemovedWell(t: Tree, v: int, r: Updated)
  {
    && IsBst(r.node)
    && Elems(r.node) == Elems(t) - {v}
    && Size(r.node) == if r.ok then Size(t) - 1 else Size(t)
  }

  /**
   * On a valid tree every one of the four cases of `remove` keeps the ordering
   * invariant, takes exactly `v` out of the value set, and unlinks exactly
   * one node when `v` was present.
   */
  lemma {:induction false} RemoveKeepsBst(t: Tree, v: int)
    requires IsBst(t)
    ensures IsBst(Remove(t, v).node)
    ensures Elems(Remove(t, v).node) == Elems(t) - {v}
    ensures Size(Remove(t, v).node) == if Remove(t, v).ok then Size(t) - 1 else Size(t)
  {
    match t
    case Leaf =>
    case Node(l, d, rt) =>
      if v < d {
        RemoveKeepsBst(l, v);
        DescendLeftStep(t, v);
      } else if d < v {
        RemoveKeepsBst(rt, v);
        DescendRightStep(t, v);
      } else if l.Node? && rt.Node? {
        RemoveKeepsBst(rt, MinNode(rt).data);
        TwoChildStep(t);
      }
  }

  /** Removing from the left subtree of a valid node keeps the promise there
      when it is kept in that subtree. */
  lemma DescendLeftStep(t: Tree, v: int)
    requires IsBst(t) && t.Node? && v < t.data
    requires RemovedWell(t.left, v, Remove(t.left, v))
    ensures IsBst(Remove(t, v).node)
    ensures Elems(Remove(t, v).node) == Elems(t) - {v}
    ensures Size(Remove(t, v).node) == if Remove(t, v).ok then Size(t) - 1 else Size(t)
  {
  }

  /** Removing from the right subtree of a valid node keeps the promise there
      when it is kept in that subtree. */
  lemma DescendRightStep(t: Tree, v: int)
    requires IsBst(t) && t.Node? && t.data < v
    requires RemovedWell(t.right, v, Remove(t.right, v))
    ensures IsBst(Remove(t, v).node)
    ensures Elems(Remove(t, v).node) == Elems(t) - {v}
    ensures Size(Remove(t, v).node) == if Remove(t, v).ok then Size(t) - 1 else Size(t)
  {
  }

  /** Case 4 on a valid node: when removing the successor from the right
      subtree keeps the promise there, copying the successor's value into the
      node keeps it for the whole subtree. */
  lemma TwoChildStep(t: Tree)
    requires IsBst(t) && t.Node? && t.left.Node? && t.right.Node?
    requires RemovedWell(t.right, MinNode(t.right).data, Remove(t.right, MinNode(t.right).data))
    ensures IsBst(Remove(t, t.data).node)
    ensures Elems(Remove(t, t.data).node) == Elems(t) - {t.data}
    ensures Size(Remove(t, t.data).node) == Size(t) - 1
  {
    var successor := MinNode(t.right).data;
    var rest := Remove(t.right, successor).node;
    assert Remove(t, t.data).node == Node(t.left, successor, rest);
    assert Contain(t.right, successor);
    SuccessorSeparates(t.left, t.data, t.right, rest);
    assert t.data !in Elems(t.left) && t.data !in Elems(t.right);
    assert Elems(t.right) == Elems(rest) + {successor};
  }

  /** The successor lies above everything on the left and below everything
      that remains on the right once it is removed there. */
  lemma SuccessorSeparates(l: Tree, d: int, rt: Tree, rest: Tree)
    requires IsBst(Node(l, d, rt)) && rt.Node?
    requires Elems(rest) == Elems(rt) - {MinNode(rt).data}
    ensures forall x :: x in Elems(l) ==> x < MinNode(rt).data
    ensures forall x :: x in Elems(rest) ==> MinNode(rt).data < x
  {
    var successor := MinNode(rt).data;
    assert IsBst(rt) && successor in Elems(rt);
    forall x | x in Elems(l) ensures x < successor {
      assert x < d;
    }
    forall x | x in Elems(rest) ensures successor < x {
      assert x in Elems(rt) && x != successor;
    }
  }

  /** A subtree with its leftmost node unlinked: that node is replaced by its
      right child, which is what cases 1 and 2 of `remove` do to it. */
  function DeleteMin(t: Tree): (r: Tree)
    requires t.Node?
    ensures Size(r) == Size(t) - 1
    ensures Elems(r) <= Elems(t)
  {
    if t.left.Leaf? then t.right else Node(DeleteMin(t.left), t.data, t.right)
  }

  /**
   * In the two-child case of `remove`, the recursive removal of the successor
   * value from a valid right subtree finds the successor node itself, which
   * has no left child, so it ends in case 1 or case 2: it always succeeds and
   * unlinks exactly that node, leaving its right child in its place.
   */
  lemma {:induction false} SuccessorRemoval(rt: Tree)
    requires rt.Node? && IsBst(rt)
    ensures FindNode(rt, MinNode(rt).data) == Some(MinNode(rt))
    ensures MinNode(rt).left.Leaf?
    ensures Remove(rt, MinNode(rt).data).ok
    ensures Remove(rt, MinNode(rt).data).node == DeleteMin(rt)
  {
    if rt.left.Node? {
      SuccessorRemoval(rt.left);
      assert MinNode(rt).data in Elems(rt.left);
    }
  }

  /**
   * A successful insert only adds a leaf and moves nothing else: removing the
   * value again finds that leaf (case 1) and gives back the original tree.
   */
  lemma {:induction false} InsertThenRemove(t: Tree, v: int)
    requires Insert(t, v).ok
    ensures Remove(Insert(t, v).node, v) == Updated(t, true)
  {
    match t
    case Leaf =>
    case Node(l, d, rt) =>
      if v < d {
        InsertThenRemove(l, v);
      } else if d < v {
        InsertThenRemove(rt, v);
      }
  }

  /** The tree that inserting 5, 3, 8, 1, 4, 7, 9 into an empty tree builds. */
  const ExampleTree: Tree :=
    Node(Node(Node(Leaf, 1, Leaf), 3, Node(Leaf, 4, Leaf)), 5,
         Node(Node(Leaf, 7, Leaf), 8, Node(Leaf, 9, Leaf)))

  /** Inserting 5, 3, 8, 1, 4, 7, 9 into an empty tree builds `ExampleTree`. */
  lemma ExampleTreeShape()
    ensures Insert(Insert(Insert(Insert(Insert(Insert(Insert(
              Leaf, 5).node, 3).node, 8).node, 1).node, 4).node, 7).node, 9).node
         == ExampleTree
  {
  }

  /**
   * Removing a value held by a node with two children: from `ExampleTree`,
   * removing 5 copies the successor 7 into the root and unlinks the old
   * successor leaf from the right subtree.
   */
  lemma TwoChildRemovalExample()
    ensures Remove(ExampleTree, 5) == Updated(ExampleWithoutFive, true)
  {
  }

  /** `ExampleTree` with 7 copied into the root and its old leaf unlinked. */
  const ExampleWithoutFive: Tree :=
    Node(Node(Node(Leaf, 1, Leaf), 3, Node(Leaf, 4, Leaf)), 7,
         Node(Leaf, 8, Node(Leaf, 9, Leaf)))

  /** The tree left by that removal lists 1, 3, 4, 7, 8, 9 in order and no longer holds 5. */
  lemma TwoChildRemovalResult()
    ensures InOrder(ExampleWithoutFive) == [1, 3, 4, 7, 8, 9]
    ensures !Contain(ExampleWithoutFive, 5)
  {
  }

  /** Removing a leaf: after inserting 5, 3, 8, removing 3 unlinks the leaf
      that holds it and leaves 5 and 8 in order. */
  lemma LeafRemovalExample()
    ensures InOrder(Remove(Insert(Insert(Insert(Leaf, 5).node, 3).node, 8).node, 3).node) == [5, 8]
  {
  }

  /** `in_order(node, result)`: appends the in-order sequence of `node` to `result`. */
  method InOrderInto(node: Tree, result: seq<int>) returns (out: seq<int>)
    ensures out == result + InOrder(node)
  {
    match node
    case Leaf => out := result;
    case Node(l, d, r) =>
      out := InOrderInto(l, result);
      out := out + [d];
      out := InOrderInto(r, out);
  }

  /** `pre_order(node, result)`: appends the pre-order sequence of `node` to `result`. */
  method PreOrderInto(node: Tree, result: seq<int>) returns (out: seq<int>)
    ensures out == result + PreOrder(node)
  {
    match node
    case Leaf => out := result;
    case Node(l, d, r) =>
      out := result + [d];
      out := PreOrderInto(l, out);
      out := PreOrderInto(r, out);
  }

  /** `post_order(node, result)`: appends the post-order sequence of `node` to `result`. */
  method PostOrderInto(node: Tree, result: seq<int>) returns (out: seq<int>)
    ensures out == result + PostOrder(node)
  {
    match node
    case Leaf => out := result;
    case Node(l, d, r) =>
      out := PostOrderInto(l, result);
      out := PostOrderInto(r, out);
      out := out + [d];
  }
}
