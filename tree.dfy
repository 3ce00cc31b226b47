/**
 * The value side of the binary search tree: the shape of a subtree, the set
 * of values it holds, the binary-search-tree ordering invariant and the three
 * traversal orders, together with the facts about them that the tree's
 * operations rely on.
 */
module BinaryTree {

  /** A possibly absent subtree; `Node` is one `TreeNode` with its two child links. */
  datatype Tree = Leaf | Node(left: Tree, data: int, right: Tree)

  /** A possibly absent result, standing for a node pointer that may be null. */
  datatype Option<T> = None | Some(value: T)

  /** The set of values held in a subtree. */
  function Elems(t: Tree): set<int>
  {
    match t
    case Leaf => {}
    case Node(l, d, r) => Elems(l) + {d} + Elems(r)
  }

  /** The number of nodes of a subtree. */
  function Size(t: Tree): nat
  {
    match t
    case Leaf => 0
    case Node(l, d, r) => Size(l) + 1 + Size(r)
  }

  /**
   * The ordering invariant: at every node, every value of the left subtree is
   * smaller than the node's value and every value of the right subtree is
   * larger. It rules out duplicates.
   */
  predicate IsBst(t: Tree)
  {
    match t
    case Leaf => true
    case Node(l, d, r) =>
      && IsBst(l) && IsBst(r)
      && (forall x :: x in Elems(l) ==> x < d)
      && (forall x :: x in Elems(r) ==> d < x)
  }

  /** `s` is `t` itself or a subtree reachable from it through child links. */
  predicate IsSubtree(s: Tree, t: Tree)
  {
    s == t || (t.Node? && (IsSubtree(s, t.left) || IsSubtree(s, t.right)))
  }

  /** Strictly ascending: no two positions hold equal values. */
  predicate Ascending(s: seq<int>)
  {
    forall i, j :: 0 <= i < j < |s| ==> s[i] < s[j]
  }

  /** Left subtree, then the node's value, then the right subtree. */
  function InOrder(t: Tree): (s: seq<int>)
    ensures |s| == Size(t)
    ensures forall x :: x in s <==> x in Elems(t)
  {
    match t
    case Leaf => []
    case Node(l, d, r) => InOrder(l) + [d] + InOrder(r)
  }

  /** The node's value, then the left subtree, then the right subtree. */
  function PreOrder(t: Tree): (s: seq<int>)
    ensures |s| == Size(t)
    ensures forall x :: x in s <==> x in Elems(t)
  {
    match t
    case Leaf => []
    case Node(l, d, r) => [d] + PreOrder(l) + PreOrder(r)
  }

  /** The left subtree, then the right subtree, then the node's value. */
  function PostOrder(t: Tree): (s: seq<int>)
    ensures |s| == Size(t)
    ensures forall x :: x in s <==> x in Elems(t)
  {
    match t
    case Leaf => []
    case Node(l, d, r) => PostOrder(l) + PostOrder(r) + [d]
  }

  /** A sequence split around one value is ascending exactly when both parts
      are and the value separates them. */
  lemma AscendingJoin(a: seq<int>, d: int, b: seq<int>)
    ensures Ascending(a + [d] + b) <==>
      && Ascending(a) && Ascending(b)
      && (forall x :: x in a ==> x < d)
      && (forall y :: y in b ==> d < y)
  {
    var s := a + [d] + b;
    assert forall i :: 0 <= i < |a| ==> s[i] == a[i];
    assert s[|a|] == d;
    assert forall i :: 0 <= i < |b| ==> s[|a| + 1 + i] == b[i];
    if Ascending(s) {
      forall x | x in a ensures x < d {
        var i :| 0 <= i < |a| && a[i] == x;
        assert s[i] < s[|a|];
      }
      forall y | y in b ensures d < y {
        var i :| 0 <= i < |b| && b[i] == y;
        assert s[|a|] < s[|a| + 1 + i];
      }
      forall i, j | 0 <= i < j < |b| ensures b[i] < b[j] {
        assert s[|a| + 1 + i] < s[|a| + 1 + j];
      }
    }
    if && Ascending(a) && Ascending(b)
       && (forall x :: x in a ==> x < d)
       && (forall y :: y in b ==> d < y)
    {
      forall i, j | 0 <= i < j < |s| ensures s[i] < s[j] {
        if j < |a| {
        } else if i < |a| {
          assert a[i] in a;
          if j > |a| {
            assert s[j] == b[j - |a| - 1];
            assert b[j - |a| - 1] in b;
          }
        } else if i == |a| {
          assert s[j] == b[j - |a| - 1];
          assert b[j - |a| - 1] in b;
        } else {
          assert s[i] == b[i - |a| - 1] && s[j] == b[j - |a| - 1];
        }
      }
    }
  }

  /** A subtree is a binary search tree exactly when its in-order traversal
      is strictly ascending; so in-order output of a valid tree is sorted and
      duplicate-free. */
  lemma {:induction false} InOrderAscendingIffBst(t: Tree)
    ensures IsBst(t) <==> Ascending(InOrder(t))
  {
    match t
    case Leaf =>
    case Node(l, d, r) =>
      InOrderAscendingIffBst(l);
      InOrderAscendingIffBst(r);
      AscendingJoin(InOrder(l), d, InOrder(r));
  }

  /** Pre-order and post-order visit the same values as in-order, each as
      often: the three traversals are permutations of one another. */
  lemma {:induction false} TraversalsArePermutations(t: Tree)
    ensures multiset(PreOrder(t)) == multiset(InOrder(t))
    ensures multiset(PostOrder(t)) == multiset(InOrder(t))
  {
    match t
    case Leaf =>
    case Node(l, d, r) =>
      TraversalsArePermutations(l);
      TraversalsArePermutations(r);
  }

  /** On a valid tree the number of nodes is the number of distinct values. */
  lemma {:induction false} SizeIsCardinality(t: Tree)
    requires IsBst(t)
    ensures |Elems(t)| == Size(t)
  {
    match t
    case Leaf =>
    case Node(l, d, r) =>
      SizeIsCardinality(l);
      SizeIsCardinality(r);
      assert d !in Elems(l) && d !in Elems(r);
      assert Elems(l) !! Elems(r) by {
        forall x | x in Elems(l) ensures x !in Elems(r) {
          assert x < d;
        }
      }
      assert |Elems(l) + {d}| == |Elems(l)| + 1;
  }

  /** Every subtree of a valid tree is valid and holds a subset of its values. */
  lemma {:induction false} SubtreeOfBst(s: Tree, t: Tree)
    requires IsSubtree(s, t)
    ensures Elems(s) <= Elems(t)
    ensures IsBst(t) ==> IsBst(s)
  {
    if s != t {
      if IsSubtree(s, t.left) {
        SubtreeOfBst(s, t.left);
      } else {
        SubtreeOfBst(s, t.right);
      }
    }
  }
}
