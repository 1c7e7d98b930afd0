/**
 * The test driver of src/tree.cpp: the tree 1(2(4, 5), 3(-, 6(7, -))) is
 * built and walked by every traversal, and a printer collects the values
 * of the visited nodes.
 */
module TreeSample {
  import opened Trees
  import opened TreeTraversals
  import opened TreeMorris

  /** The printer: the values of the visited nodes, in the order of the visits. */
  method ValuesOf(visits: seq<TreeNode?<int>>) returns (values: seq<int>)
    requires forall i :: 0 <= i < |visits| ==> visits[i] != null
    ensures |values| == |visits|
    ensures forall i :: 0 <= i < |visits| ==> values[i] == visits[i].value
  {
    values := [];
    var i := 0;
    while i < |visits|
      invariant 0 <= i <= |visits| && |values| == i
      invariant forall k :: 0 <= k < i ==> values[k] == visits[k].value
    {
      values := values + [visits[i].value];
      i := i + 1;
    }
  }

  /** The three reference orders of a leaf. */
  lemma LeafOrders(n: TreeNode<int>)
    ensures Preorder(Node(n, Nil, Nil)) == [n]
    ensures Inorder(Node(n, Nil, Nil)) == [n]
    ensures Postorder(Node(n, Nil, Nil)) == [n]
  {
    assert Preorder(Tree<int>.Nil) == Inorder(Tree<int>.Nil) == Postorder(Tree<int>.Nil) == [];
  }

  /** The three reference orders of the sample's left subtree 2(4, 5). */
  lemma LeftOrders(n2: TreeNode<int>, n4: TreeNode<int>, n5: TreeNode<int>, t2: Tree<int>)
    requires t2 == Node(n2, Node(n4, Nil, Nil), Node(n5, Nil, Nil))
    ensures Preorder(t2) == [n2, n4, n5] && Inorder(t2) == [n4, n2, n5] && Postorder(t2) == [n4, n5, n2]
  {
    LeafOrders(n4);
    LeafOrders(n5);
    assert Preorder(t2) == [n2] + [n4] + [n5];
    assert Inorder(t2) == [n4] + [n2] + [n5];
    assert Postorder(t2) == [n4] + [n5] + [n2];
  }

  /** The three reference orders of the sample's right subtree 3(-, 6(7, -)). */
  lemma RightOrders(n3: TreeNode<int>, n6: TreeNode<int>, n7: TreeNode<int>, t3: Tree<int>)
    requires t3 == Node(n3, Nil, Node(n6, Node(n7, Nil, Nil), Nil))
    ensures Preorder(t3) == [n3, n6, n7] && Inorder(t3) == [n3, n7, n6] && Postorder(t3) == [n7, n6, n3]
  {
    var t6 := t3.right;
    LeafOrders(n7);
    assert Preorder(Tree<int>.Nil) == Inorder(Tree<int>.Nil) == Postorder(Tree<int>.Nil) == [];
    assert Preorder(t6) == [n6] + [n7] && Inorder(t6) == [n7] + [n6] && Postorder(t6) == [n7] + [n6];
    assert Preorder(t3) == [n3] + [n6, n7] && Inorder(t3) == [n3] + [n7, n6] && Postorder(t3) == [n7, n6] + [n3];
  }

  /** The three reference orders of the sample tree, node by node. */
  lemma SampleOrders(n1: TreeNode<int>, n2: TreeNode<int>, n3: TreeNode<int>, n4: TreeNode<int>,
                     n5: TreeNode<int>, n6: TreeNode<int>, n7: TreeNode<int>, t: Tree<int>)
    requires t == Node(n1, Node(n2, Node(n4, Nil, Nil), Node(n5, Nil, Nil)),
                           Node(n3, Nil, Node(n6, Node(n7, Nil, Nil), Nil)))
    ensures Preorder(t) == [n1, n2, n4, n5, n3, n6, n7]
    ensures Inorder(t) == [n4, n2, n5, n1, n3, n7, n6]
    ensures Postorder(t) == [n4, n5, n2, n7, n6, n3, n1]
  {
    LeftOrders(n2, n4, n5, t.left);
    RightOrders(n3, n6, n7, t.right);
  }

  /** The nodes of a tree already exist. */
  lemma {:induction false} NodesAllocated(t: Tree<int>)
    ensures forall x :: x in Nodes(t) ==> allocated(x)
  {
    if t.Node? {
      NodesAllocated(t.left);
      NodesAllocated(t.right);
    }
  }

  /** `node(val, left, right)`: a fresh node on top of two trees that share no node. */
  method MakeNode(val: int, left: TreeNode?<int>, right: TreeNode?<int>, ghost lt: Tree<int>, ghost rt: Tree<int>)
    returns (n: TreeNode<int>, ghost t: Tree<int>)
    requires Rep(left, lt) && Rep(right, rt) && Distinct(lt) && Distinct(rt) && Nodes(lt) !! Nodes(rt)
    ensures fresh(n) && n.value == val && t == Node(n, lt, rt)
    ensures Rep(n, t) && Distinct(t)
  {
    NodesAllocated(lt);
    NodesAllocated(rt);
    n := new TreeNode(val, left, right);
    t := Node(n, lt, rt);
  }

  /** The left subtree of the sample, 2(4, 5), built from fresh nodes. */
  method LeftSample() returns (n2: TreeNode<int>, ghost t2: Tree<int>, n4: TreeNode<int>, n5: TreeNode<int>)
    ensures Rep(n2, t2) && Distinct(t2) && fresh(Nodes(t2))
    ensures t2 == Node(n2, Node(n4, Nil, Nil), Node(n5, Nil, Nil))
    ensures n2.value == 2 && n4.value == 4 && n5.value == 5
  {
    ghost var t4, t5;
    n4, t4 := MakeNode(4, null, null, Nil, Nil);
    n5, t5 := MakeNode(5, null, null, Nil, Nil);
    n2, t2 := MakeNode(2, n4, n5, t4, t5);
  }

  /** The right subtree of the sample, 3(-, 6(7, -)), built from fresh nodes. */
  method RightSample() returns (n3: TreeNode<int>, ghost t3: Tree<int>, n6: TreeNode<int>, n7: TreeNode<int>)
    ensures Rep(n3, t3) && Distinct(t3) && fresh(Nodes(t3))
    ensures t3 == Node(n3, Nil, Node(n6, Node(n7, Nil, Nil), Nil))
    ensures n3.value == 3 && n6.value == 6 && n7.value == 7
  {
    ghost var t7, t6;
    n7, t7 := MakeNode(7, null, null, Nil, Nil);
    n6, t6 := MakeNode(6, n7, null, t7, Nil);
    n3, t3 := MakeNode(3, null, n6, Nil, t6);
  }

  /** The sample tree 1(2(4, 5), 3(-, 6(7, -))), built from fresh nodes; `ns[i]` holds the value `i + 1`. */
  method SampleTree() returns (root: TreeNode<int>, ghost t: Tree<int>, ghost ns: seq<TreeNode<int>>)
    ensures Rep(root, t) && Distinct(t) && fresh(Nodes(t))
    ensures forall x :: x in Nodes(t) ==> allocated(x)
    ensures |ns| == 7 && forall i :: 0 <= i < 7 ==> ns[i].value == i + 1
    ensures t == Node(ns[0], Node(ns[1], Node(ns[3], Nil, Nil), Node(ns[4], Nil, Nil)),
                             Node(ns[2], Nil, Node(ns[5], Node(ns[6], Nil, Nil), Nil)))
  {
    var n2, t2, n4, n5 := LeftSample();
    NodesAllocated(t2);
    var n3, t3, n6, n7 := RightSample();
    root, t := MakeNode(1, n2, n3, t2, t3);
    NodesAllocated(t);
    ns := [root, n2, n3, n4, n5, n6, n7];
  }

  /** `_main`, preorder: `iterative_preorder` prints 1 2 4 5 3 6 7. */
  method PreorderSample() returns (values: seq<int>)
    ensures values == [1, 2, 4, 5, 3, 6, 7]
  {
    var root, t, ns := SampleTree();
    SampleOrders(ns[0], ns[1], ns[2], ns[3], ns[4], ns[5], ns[6], t);
    var visits := IterativePreorder(root, t);
    values := ValuesOf(visits);
  }

  /** `_main`, inorder: `iterative_inorder_with_marking` and `iterative_inorder` both print 4 2 5 1 3 7 6. */
  method InorderSample() returns (marking: seq<int>, stack: seq<int>)
    ensures marking == stack == [4, 2, 5, 1, 3, 7, 6]
  {
    var root, t, ns := SampleTree();
    SampleOrders(ns[0], ns[1], ns[2], ns[3], ns[4], ns[5], ns[6], t);
    var visits := IterativeInorderWithMarking(root, t);
    marking := ValuesOf(visits);
    visits := IterativeInorder(root, t);
    stack := ValuesOf(visits);
  }

  /**
   * `_main`, Morris: `morris_inorder` prints 4 2 5 1 3 7 6 and leaves the
   * tree as it was, so that `iterative_postorder` run after it on the same
   * tree still prints 4 5 2 7 6 3 1.
   */
  method MorrisSample() returns (morris: seq<int>, post: seq<int>)
    ensures morris == [4, 2, 5, 1, 3, 7, 6]
    ensures post == [4, 5, 2, 7, 6, 3, 1]
  {
    var root, t, ns := SampleTree();
    SampleOrders(ns[0], ns[1], ns[2], ns[3], ns[4], ns[5], ns[6], t);
    var visits := MorrisInorder(root, t);
    morris := ValuesOf(visits);
    visits := IterativePostorder(root, t);
    post := ValuesOf(visits);
  }
}
