/**
 * Binary trees of heap nodes (src/tree.cpp) and the three recursive
 * traversals, which serve as the reference orders for the iterative ones.
 *
 * A tree lives on the heap as `TreeNode` objects linked by `left`/`right`.
 * The ghost datatype `Tree` is the abstract shape of such a structure: every
 * `Node` carries the heap node it stands for, so two nodes are the same node
 * exactly when their `ref`s are the same object, whatever their values.
 * `Rep(p, t)` says that the pointer structure reachable from `p` is `t`;
 * `Distinct(t)` says no node occurs twice, i.e. every subtree is owned by
 * exactly one parent.
 */
module Trees {

  /** A heap node: `tree_node<T>`. */
  class TreeNode<T> {
    var value: T
    var left: TreeNode?<T>
    var right: TreeNode?<T>

    constructor (value: T, left: TreeNode?<T>, right: TreeNode?<T>)
      ensures this.value == value && this.left == left && this.right == right
    {
      this.value := value;
      this.left := left;
      this.right := right;
    }
  }

  /** The shape of a pointer structure; `ref` is the node's identity. */
  datatype Tree<T> = Nil | Node(ref: TreeNode<T>, left: Tree<T>, right: Tree<T>)

  /** The heap nodes of `t`. */
  function Nodes<T>(t: Tree<T>): set<TreeNode<T>>
  {
    if t.Nil? then {} else {t.ref} + Nodes(t.left) + Nodes(t.right)
  }

  function Size<T>(t: Tree<T>): nat
  {
    if t.Nil? then 0 else 1 + Size(t.left) + Size(t.right)
  }

  /** The pointer to the root of `t` (null for the empty tree). */
  function Ptr<T>(t: Tree<T>): TreeNode?<T>
  {
    if t.Nil? then null else t.ref
  }

  /** No heap node occurs twice in `t`: the pointer structure is a tree. */
  ghost predicate Distinct<T>(t: Tree<T>)
  {
    t.Node? ==>
      && t.ref !in Nodes(t.left)
      && t.ref !in Nodes(t.right)
      && Nodes(t.left) !! Nodes(t.right)
      && Distinct(t.left)
      && Distinct(t.right)
  }

  /** Every node of `t` links to the roots of its subtrees in `t`. */
  ghost predicate Linked<T>(t: Tree<T>)
    reads Nodes(t)
  {
    t.Node? ==>
      && t.ref.left == Ptr(t.left)
      && t.ref.right == Ptr(t.right)
      && Linked(t.left)
      && Linked(t.right)
  }

  /** The heap structure reachable from `p` has shape `t`. */
  ghost predicate Rep<T>(p: TreeNode?<T>, t: Tree<T>)
    reads Nodes(t)
  {
    p == Ptr(t) && Linked(t)
  }

  /** `s` occurs in `t` as a subtree (possibly `t` itself). */
  ghost predicate IsSubtree<T>(s: Tree<T>, t: Tree<T>)
  {
    s == t || (t.Node? && (IsSubtree(s, t.left) || IsSubtree(s, t.right)))
  }

  /**
   * Following a pointer of a node of a linked tree: the node links to the
   * roots of its subtrees, which are subtrees of the whole tree, and which
   * share no node when the tree shares none.
   */
  lemma {:induction false} Descend<T>(s: Tree<T>, t: Tree<T>)
    requires IsSubtree(s, t) && Linked(t) && s.Node?
    ensures s.ref.left == Ptr(s.left) && s.ref.right == Ptr(s.right)
    ensures IsSubtree(s.left, t) && IsSubtree(s.right, t)
    ensures Distinct(t) ==> Distinct(s)
    ensures s.ref in Nodes(t)
  {
    if s != t {
      if IsSubtree(s, t.left) {
        Descend(s, t.left);
      } else {
        Descend(s, t.right);
      }
    }
  }

  /** `recursive_preorder`: root, then the left subtree, then the right one. */
  function Preorder<T>(t: Tree<T>): seq<TreeNode<T>>
  {
    if t.Nil? then [] else [t.ref] + Preorder(t.left) + Preorder(t.right)
  }

  /** `recursive_inorder`: the left subtree, then root, then the right one. */
  function Inorder<T>(t: Tree<T>): seq<TreeNode<T>>
  {
    if t.Nil? then [] else Inorder(t.left) + [t.ref] + Inorder(t.right)
  }

  /** `recursive_postorder`: the left subtree, then the right one, then root. */
  function Postorder<T>(t: Tree<T>): seq<TreeNode<T>>
  {
    if t.Nil? then [] else Postorder(t.left) + Postorder(t.right) + [t.ref]
  }

  ghost predicate NoDuplicates<X>(s: seq<X>)
  {
    forall i, j :: 0 <= i < j < |s| ==> s[i] != s[j]
  }

  /** `s` calls the visitor on every node of `t` and on nothing else, once each. */
  ghost predicate VisitsEachOnce<T>(s: seq<TreeNode<T>>, t: Tree<T>)
  {
    && NoDuplicates(s)
    && (forall n :: n in s ==> n in Nodes(t))
    && (forall n :: n in Nodes(t) ==> n in s)
  }

  lemma {:induction false} NoDuplicatesConcat<X>(a: seq<X>, b: seq<X>)
    requires NoDuplicates(a) && NoDuplicates(b)
    requires forall x :: x in a ==> x !in b
    ensures NoDuplicates(a + b)
  {
    forall i, j | 0 <= i < j < |a + b|
      ensures (a + b)[i] != (a + b)[j]
    {
      if j < |a| {
        assert (a + b)[i] == a[i] && (a + b)[j] == a[j];
      } else if i >= |a| {
        assert (a + b)[i] == b[i - |a|] && (a + b)[j] == b[j - |a|];
      } else {
        assert (a + b)[i] == a[i] && (a + b)[j] == b[j - |a|];
        assert a[i] in a;
      }
    }
  }

  /** A node still to be visited has not been visited yet. */
  lemma NotYetVisited<X>(done: seq<X>, rest: seq<X>, x: X)
    requires NoDuplicates(done + rest) && x in rest
    ensures x !in done
  {
    var j :| 0 <= j < |rest| && rest[j] == x;
    forall i | 0 <= i < |done|
      ensures done[i] != x
    {
      assert (done + rest)[i] == done[i];
      assert (done + rest)[|done| + j] == x;
    }
  }

  /** Each traversal lists exactly the nodes of the tree, as many as there are. */
  lemma {:induction false} TraversalsCoverNodes<T>(t: Tree<T>)
    ensures forall n :: n in Preorder(t) <==> n in Nodes(t)
    ensures forall n :: n in Inorder(t) <==> n in Nodes(t)
    ensures forall n :: n in Postorder(t) <==> n in Nodes(t)
    ensures |Preorder(t)| == |Inorder(t)| == |Postorder(t)| == Size(t)
  {
    if t.Node? {
      TraversalsCoverNodes(t.left);
      TraversalsCoverNodes(t.right);
    }
  }

  /**
   * Where each order puts the root of a non-empty tree: first in preorder,
   * right after the left subtree's nodes in inorder, last in postorder.
   */
  lemma {:induction false} TraversalRoots<T>(t: Tree<T>)
    requires t.Node?
    ensures Size(t.left) < |Inorder(t)| == |Postorder(t)| == Size(t)
    ensures Preorder(t)[0] == t.ref
    ensures Inorder(t)[Size(t.left)] == t.ref
    ensures Postorder(t)[Size(t) - 1] == t.ref
  {
    TraversalsCoverNodes(t);
    TraversalsCoverNodes(t.left);
  }

  /** recursive_preorder visits every node exactly once. */
  lemma {:induction false} PreorderVisitsEachNodeOnce<T>(t: Tree<T>)
    requires Distinct(t)
    ensures VisitsEachOnce(Preorder(t), t)
  {
    TraversalsCoverNodes(t);
    if t.Node? {
      var l, r := Preorder(t.left), Preorder(t.right);
      PreorderVisitsEachNodeOnce(t.left);
      PreorderVisitsEachNodeOnce(t.right);
      NoDuplicatesConcat(l, r);
      assert forall x :: x in l + r ==> x in Nodes(t.left) || x in Nodes(t.right);
      NoDuplicatesConcat([t.ref], l + r);
      assert Preorder(t) == [t.ref] + (l + r);
    }
  }

  /** recursive_inorder visits every node exactly once. */
  lemma {:induction false} InorderVisitsEachNodeOnce<T>(t: Tree<T>)
    requires Distinct(t)
    ensures VisitsEachOnce(Inorder(t), t)
  {
    TraversalsCoverNodes(t);
    if t.Node? {
      InorderVisitsEachNodeOnce(t.left);
      InorderVisitsEachNodeOnce(t.right);
      NoDuplicatesConcat(Inorder(t.left), [t.ref]);
      NoDuplicatesConcat(Inorder(t.left) + [t.ref], Inorder(t.right));
    }
  }

  /** recursive_postorder visits every node exactly once. */
  lemma {:induction false} PostorderVisitsEachNodeOnce<T>(t: Tree<T>)
    requires Distinct(t)
    ensures VisitsEachOnce(Postorder(t), t)
  {
    TraversalsCoverNodes(t);
    if t.Node? {
      PostorderVisitsEachNodeOnce(t.left);
      PostorderVisitsEachNodeOnce(t.right);
      NoDuplicatesConcat(Postorder(t.left), Postorder(t.right));
      NoDuplicatesConcat(Postorder(t.left) + Postorder(t.right), [t.ref]);
    }
  }
}
