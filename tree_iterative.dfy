/**
 * The stack-based traversals of src/tree.cpp, each proved to call the
 * visitor in the same order as its recursive counterpart.
 *
 * `std::stack` is a sequence whose last element is the top. The visitor is
 * modelled by appending the visited node to `visits`. Beside the stack of
 * pointers each method keeps a ghost stack `trees` of the same length whose
 * entries are the shapes those pointers represent; the invariant says that
 * the nodes visited so far followed by the nodes the stack still promises
 * make up the reference order. No method has a modifies clause: none of them
 * writes to a node.
 */
module TreeTraversals {
  import opened Trees

  function Last<X>(s: seq<X>): X
    requires s != []
  {
    s[|s| - 1]
  }

  function Pop<X>(s: seq<X>): seq<X>
    requires s != []
  {
    s[..|s| - 1]
  }

  // ---------------------------------------------------------------- preorder

  /** What a preorder stack still promises: the top entry first. */
  function PreorderOfStack<T>(trees: seq<Tree<T>>): seq<TreeNode<T>>
  {
    if trees == [] then [] else Preorder(Last(trees)) + PreorderOfStack(Pop(trees))
  }

  /** Popping entry `nt` off a preorder stack and pushing its children in its place. */
  lemma {:induction false} PreorderOfStackStep<T>(trees: seq<Tree<T>>)
    requires trees != []
    ensures Last(trees).Nil? ==> PreorderOfStack(trees) == PreorderOfStack(Pop(trees))
    ensures Last(trees).Node? ==>
      var nt := Last(trees);
      PreorderOfStack(trees) == [nt.ref] + PreorderOfStack(Pop(trees) + [nt.right, nt.left])
  {
    var nt := Last(trees);
    if nt.Node? {
      var s := Pop(trees) + [nt.right, nt.left];
      assert Pop(s) == Pop(trees) + [nt.right] && Pop(Pop(s)) == Pop(trees);
    }
  }

  /** Every entry of `stack` points to the root of the matching shape in `trees`. */
  ghost predicate StackRep<T>(stack: seq<TreeNode?<T>>, trees: seq<Tree<T>>)
  {
    |stack| == |trees| && forall i :: 0 <= i < |trees| ==> stack[i] == Ptr(trees[i])
  }

  /** Every shape on the ghost stack is part of `t`. */
  ghost predicate AllSubtrees<T>(trees: seq<Tree<T>>, t: Tree<T>)
  {
    forall i :: 0 <= i < |trees| ==> IsSubtree(trees[i], t)
  }

  /** The loop invariant of `iterative_preorder`, apart from the heap. */
  ghost predicate PreorderState<T>(stack: seq<TreeNode?<T>>, trees: seq<Tree<T>>, visits: seq<TreeNode?<T>>, t: Tree<T>)
  {
    StackRep(stack, trees) && AllSubtrees(trees, t) && visits + PreorderOfStack(trees) == Preorder(t)
  }

  /** A null top entry is popped and skipped. */
  lemma {:induction false} PreorderSkip<T>(stack: seq<TreeNode?<T>>, trees: seq<Tree<T>>, visits: seq<TreeNode?<T>>, t: Tree<T>)
    requires PreorderState(stack, trees, visits, t) && trees != [] && Last(trees).Nil?
    ensures Last(stack) == null && PreorderState(Pop(stack), Pop(trees), visits, t)
  {
    PreorderOfStackStep(trees);
    StackPop(stack, trees, t);
  }

  /** A node on top is popped and visited, and its right child then its left child are pushed. */
  lemma {:induction false} PreorderVisit<T>(stack: seq<TreeNode?<T>>, trees: seq<Tree<T>>, visits: seq<TreeNode?<T>>, t: Tree<T>)
    requires PreorderState(stack, trees, visits, t) && trees != [] && Last(trees).Node?
    requires IsSubtree(Last(trees).left, t) && IsSubtree(Last(trees).right, t)
    ensures var nt := Last(trees);
      && Last(stack) == nt.ref && |visits| < |Preorder(t)|
      && PreorderState(Pop(stack) + [Ptr(nt.right), Ptr(nt.left)], Pop(trees) + [nt.right, nt.left], visits + [nt.ref], t)
  {
    var nt := Last(trees);
    PreorderOfStackStep(trees);
    StackPop(stack, trees, t);
    StackPushTwo(Pop(stack), Pop(trees), nt.right, nt.left, t);
    var rest := PreorderOfStack(Pop(trees) + [nt.right, nt.left]);
    assert visits + ([nt.ref] + rest) == (visits + [nt.ref]) + rest;
  }

  /** Pushing two pointers together with the subtrees they point to. */
  lemma {:induction false} StackPushTwo<T>(stack: seq<TreeNode?<T>>, trees: seq<Tree<T>>, a: Tree<T>, b: Tree<T>, t: Tree<T>)
    requires StackRep(stack, trees) && AllSubtrees(trees, t) && IsSubtree(a, t) && IsSubtree(b, t)
    ensures StackRep(stack + [Ptr(a), Ptr(b)], trees + [a, b]) && AllSubtrees(trees + [a, b], t)
  {
  }

  /**
   * `iterative_preorder`: pop; a null entry is skipped, a node is visited
   * and its right child then its left child are pushed.
   */
  method IterativePreorder<T>(root: TreeNode?<T>, ghost t: Tree<T>) returns (visits: seq<TreeNode?<T>>)
    requires Rep(root, t)
    ensures visits == Preorder(t)
  {
    var stack: seq<TreeNode?<T>> := [root];
    ghost var trees: seq<Tree<T>> := [t];
    visits := [];
    while stack != []
      invariant Linked(t)
      invariant PreorderState(stack, trees, visits, t)
      decreases |Preorder(t)| - |visits|, |stack|
    {
      var node := Last(stack);
      ghost var nt := Last(trees);
      StackPop(stack, trees, t);
      if node == null {
        PreorderSkip(stack, trees, visits, t);
        stack, trees := Pop(stack), Pop(trees);
      } else {
        Descend(nt, t);
        PreorderVisit(stack, trees, visits, t);
        stack, trees := Pop(stack) + [node.right, node.left], Pop(trees) + [nt.right, nt.left];
        visits := visits + [node];
      }
    }
  }

  /** Pushing a pointer together with the subtree it points to. */
  lemma {:induction false} StackPush<T>(stack: seq<TreeNode?<T>>, trees: seq<Tree<T>>, x: Tree<T>, t: Tree<T>)
    requires StackRep(stack, trees) && AllSubtrees(trees, t) && IsSubtree(x, t)
    ensures StackRep(stack + [Ptr(x)], trees + [x]) && AllSubtrees(trees + [x], t)
  {
  }

  /** Popping both stacks together. */
  lemma {:induction false} StackPop<T>(stack: seq<TreeNode?<T>>, trees: seq<Tree<T>>, t: Tree<T>)
    requires StackRep(stack, trees) && AllSubtrees(trees, t) && trees != []
    ensures StackRep(Pop(stack), Pop(trees)) && AllSubtrees(Pop(trees), t)
    ensures Last(stack) == Ptr(Last(trees)) && IsSubtree(Last(trees), t)
  {
  }

  // ----------------------------------------------------------------- inorder

  /** What is left of an inorder walk of `s` once its left subtree is done. */
  function InorderTail<T>(s: Tree<T>): seq<TreeNode<T>>
  {
    if s.Nil? then [] else [s.ref] + Inorder(s.right)
  }

  /** What the entries of an inorder stack promise, the top entry first. */
  function InorderBelow<T>(trees: seq<Tree<T>>): seq<TreeNode<T>>
  {
    if trees == [] then [] else InorderTail(Last(trees)) + InorderBelow(Pop(trees))
  }

  /**
   * What an inorder stack promises when its top entry is `entering` (its left
   * subtree not yet entered) or not (its left subtree done).
   */
  function InorderPending<T>(trees: seq<Tree<T>>, entering: bool): seq<TreeNode<T>>
  {
    if trees == [] then []
    else (if entering then Inorder(Last(trees)) else InorderTail(Last(trees))) + InorderBelow(Pop(trees))
  }

  /** An empty top entry promises nothing: it may simply be popped. */
  lemma {:induction false} InorderPopNil<T>(trees: seq<Tree<T>>, entering: bool)
    requires trees != [] && Last(trees).Nil?
    ensures InorderPending(trees, entering) == InorderPending(Pop(trees), false)
  {
    assert InorderPending(trees, entering) == InorderBelow(Pop(trees));
  }

  /** Pushing the left child of an entering top entry promises the same. */
  lemma {:induction false} InorderPushLeft<T>(trees: seq<Tree<T>>)
    requires trees != [] && Last(trees).Node?
    ensures InorderPending(trees + [Last(trees).left], true) == InorderPending(trees, true)
  {
    var s := trees + [Last(trees).left];
    assert Pop(s) == trees;
  }

  /**
   * Popping and visiting a top entry whose left subtree is done, and pushing
   * its right child in its place, promises the same minus that visit.
   */
  lemma {:induction false} InorderVisitTop<T>(trees: seq<Tree<T>>, entering: bool)
    requires trees != [] && Last(trees).Node?
    requires entering ==> Last(trees).left.Nil?
    ensures InorderPending(trees, entering)
         == [Last(trees).ref] + InorderPending(Pop(trees) + [Last(trees).right], true)
  {
    var top := Last(trees);
    InorderPendingPush(Pop(trees), top.right);
    InorderHead(trees, entering);
  }

  /** What the top entry itself promises once its left subtree is done: itself, then its right subtree. */
  lemma {:induction false} InorderHead<T>(trees: seq<Tree<T>>, entering: bool)
    requires trees != [] && Last(trees).Node?
    requires entering ==> Last(trees).left.Nil?
    ensures InorderPending(trees, entering)
         == [Last(trees).ref] + (Inorder(Last(trees).right) + InorderBelow(Pop(trees)))
  {
    var top := Last(trees);
    var below, r := InorderBelow(Pop(trees)), Inorder(top.right);
    if entering {
      assert Inorder(top.left) == [];
      assert Inorder(top) == [top.ref] + r;
      assert InorderPending(trees, entering) == Inorder(top) + below;
    } else {
      assert InorderPending(trees, entering) == InorderTail(top) + below;
    }
    assert ([top.ref] + r) + below == [top.ref] + (r + below);
  }

  /** Pushing `x` on top of `below` as an entering entry promises all of `x` first. */
  lemma {:induction false} InorderPendingPush<T>(below: seq<Tree<T>>, x: Tree<T>)
    ensures InorderPending(below + [x], true) == Inorder(x) + InorderBelow(below)
  {
    var s := below + [x];
    assert Pop(s) == below && Last(s) == x;
  }

  /**
   * Every entry below the top of a marking stack has a left child that is
   * either already visited or the entry right above it.
   */
  ghost predicate LeftsInProgress<T>(trees: seq<Tree<T>>, visited: set<TreeNode<T>>)
  {
    forall i :: 0 <= i < |trees| - 1 ==>
      trees[i].Node? && trees[i].left.Node? && (trees[i].left.ref in visited || trees[i + 1] == trees[i].left)
  }

  /** Pushing the unvisited left child of the top entry. */
  lemma {:induction false} LeftsInProgressPush<T>(trees: seq<Tree<T>>, visited: set<TreeNode<T>>)
    requires LeftsInProgress(trees, visited) && trees != []
    requires Last(trees).Node? && Last(trees).left.Node?
    ensures LeftsInProgress(trees + [Last(trees).left], visited)
  {
  }

  /** Visiting the top entry and replacing it by its right child. */
  lemma {:induction false} LeftsInProgressVisit<T>(trees: seq<Tree<T>>, visited: set<TreeNode<T>>, r: Tree<T>)
    requires LeftsInProgress(trees, visited) && trees != [] && Last(trees).Node?
    ensures LeftsInProgress(Pop(trees) + [r], visited + {Last(trees).ref})
  {
    var s := Pop(trees) + [r];
    forall i | 0 <= i < |s| - 1
      ensures s[i].Node? && s[i].left.Node? && (s[i].left.ref in visited + {Last(trees).ref} || s[i + 1] == s[i].left)
    {
      assert s[i] == trees[i];
      if i + 1 < |s| - 1 {
        assert s[i + 1] == trees[i + 1];
      }
    }
  }

  /** An empty top entry is popped. */
  lemma {:induction false} LeftsInProgressPop<T>(trees: seq<Tree<T>>, visited: set<TreeNode<T>>)
    requires LeftsInProgress(trees, visited) && trees != []
    ensures LeftsInProgress(Pop(trees), visited)
  {
  }

  /**
   * The loop invariant of `iterative_inorder_with_marking`, apart from the
   * heap: `entering` says the top entry's left subtree is not entered yet,
   * and `visited` holds exactly the nodes visited so far.
   */
  ghost predicate MarkingState<T>(stack: seq<TreeNode?<T>>, trees: seq<Tree<T>>, entering: bool,
                                  visited: set<TreeNode<T>>, visits: seq<TreeNode?<T>>, t: Tree<T>)
  {
    && StackRep(stack, trees) && AllSubtrees(trees, t)
    && LeftsInProgress(trees, visited)
    && (forall n :: n in visited ==> n in visits)
    && (forall n :: n in visits ==> n in visited)
    && visits + InorderPending(trees, entering) == Inorder(t)
    && (trees != [] && entering && Last(trees).Node? && Last(trees).left.Node? ==>
          Last(trees).left.ref !in visited)
    && (trees != [] && !entering ==>
          Last(trees).Node? && (Last(trees).left.Nil? || Last(trees).left.ref in visited))
  }

  /** A null top entry is popped. */
  lemma {:induction false} MarkingSkip<T>(stack: seq<TreeNode?<T>>, trees: seq<Tree<T>>, entering: bool,
                                          visited: set<TreeNode<T>>, visits: seq<TreeNode?<T>>, t: Tree<T>)
    requires MarkingState(stack, trees, entering, visited, visits, t)
    requires trees != [] && Last(trees).Nil?
    ensures MarkingState(Pop(stack), Pop(trees), false, visited, visits, t)
  {
    StackPop(stack, trees, t);
    InorderPopNil(trees, entering);
    LeftsInProgressPop(trees, visited);
    if |trees| >= 2 {
      assert trees[|trees| - 2] == Last(Pop(trees));
    }
  }

  /**
   * A new left child (where `NoDuplicates(Inorder(t))`, an unvisited
   * grandchild stays unvisited) is pushed.
   */
  lemma {:induction false} MarkingDescend<T>(stack: seq<TreeNode?<T>>, trees: seq<Tree<T>>, entering: bool,
                                             visited: set<TreeNode<T>>, visits: seq<TreeNode?<T>>, t: Tree<T>)
    requires MarkingState(stack, trees, entering, visited, visits, t) && NoDuplicates(Inorder(t))
    requires trees != [] && Last(trees).Node? && Last(trees).left.Node? && Last(trees).left.ref !in visited
    requires IsSubtree(Last(trees).left, t)
    ensures MarkingState(stack + [Ptr(Last(trees).left)], trees + [Last(trees).left], true, visited, visits, t)
    ensures entering && Size(Last(trees).left) < Size(Last(trees))
  {
    var l := Last(trees).left;
    InorderPushLeft(trees);
    StackPush(stack, trees, l, t);
    LeftsInProgressPush(trees, visited);
    assert InorderPending(trees, entering) == InorderPending(trees + [l], true) by {
      if !entering {
        assert false;
      }
    }
    UnvisitedLeftChild(visits, trees + [l], t);
  }

  /** The top node is popped, visited, marked, and its right child pushed. */
  lemma {:induction false} MarkingVisit<T>(stack: seq<TreeNode?<T>>, trees: seq<Tree<T>>, entering: bool,
                                           visited: set<TreeNode<T>>, visits: seq<TreeNode?<T>>, t: Tree<T>)
    requires MarkingState(stack, trees, entering, visited, visits, t) && NoDuplicates(Inorder(t))
    requires trees != [] && Last(trees).Node? && (Last(trees).left.Nil? || Last(trees).left.ref in visited)
    requires IsSubtree(Last(trees).right, t)
    ensures var nt := Last(trees);
      MarkingState(Pop(stack) + [Ptr(nt.right)], Pop(trees) + [nt.right], true,
                   visited + {nt.ref}, visits + [nt.ref], t)
    ensures |visits| < |Inorder(t)|
  {
    var nt := Last(trees);
    InorderVisitTopFrom(visits, trees, entering, t);
    StackPop(stack, trees, t);
    StackPush(Pop(stack), Pop(trees), nt.right, t);
    LeftsInProgressVisit(trees, visited, nt.right);
    UnvisitedLeftChild(visits + [nt.ref], Pop(trees) + [nt.right], t);
  }

  /**
   * Where the inorder walk has no duplicates, the left child of an entering
   * top entry has not been visited yet.
   */
  lemma {:induction false} UnvisitedLeftChild<T>(visits: seq<TreeNode?<T>>, trees: seq<Tree<T>>, t: Tree<T>)
    requires NoDuplicates(Inorder(t)) && visits + InorderPending(trees, true) == Inorder(t)
    ensures trees != [] && Last(trees).Node? && Last(trees).left.Node? ==> Last(trees).left.ref !in visits
  {
    if trees != [] && Last(trees).Node? && Last(trees).left.Node? {
      var top := Last(trees);
      TraversalsCoverNodes(top);
      assert top.left.ref in Nodes(top);
      NotYetVisited(visits, InorderPending(trees, true), top.left.ref);
    }
  }

  /** `InorderVisitTop`, with the nodes visited before in front. */
  lemma {:induction false} InorderVisitTopFrom<T>(visits: seq<TreeNode?<T>>, trees: seq<Tree<T>>, entering: bool, t: Tree<T>)
    requires trees != [] && Last(trees).Node?
    requires entering ==> Last(trees).left.Nil?
    requires visits + InorderPending(trees, entering) == Inorder(t)
    ensures (visits + [Last(trees).ref]) + InorderPending(Pop(trees) + [Last(trees).right], true) == Inorder(t)
  {
    InorderVisitTop(trees, entering);
  }

  /**
   * `iterative_inorder_with_marking`: a node on top whose left child is not
   * yet in the `visited` set gets its left child pushed; otherwise it is
   * popped, visited, marked, and its right child pushed. Membership in
   * `visited` is by node identity, so the tree must not share nodes.
   */
  method IterativeInorderWithMarking<T>(root: TreeNode?<T>, ghost t: Tree<T>) returns (visits: seq<TreeNode?<T>>)
    requires Rep(root, t) && Distinct(t)
    ensures visits == Inorder(t)
  {
    InorderVisitsEachNodeOnce(t);
    var stack: seq<TreeNode?<T>> := [root];
    ghost var trees: seq<Tree<T>> := [t];
    ghost var entering := true;
    var visited: set<TreeNode<T>> := {};
    visits := [];
    while stack != []
      invariant Linked(t) && NoDuplicates(Inorder(t))
      invariant MarkingState(stack, trees, entering, visited, visits, t)
      decreases |Inorder(t)| - |visits|, if trees != [] && entering then Size(Last(trees)) else 0, |stack|
    {
      var top := Last(stack);
      ghost var nt := Last(trees);
      StackPop(stack, trees, t);
      if top == null {
        MarkingSkip(stack, trees, entering, visited, visits, t);
        stack, trees, entering := Pop(stack), Pop(trees), false;
        continue;
      }
      var node: TreeNode<T> := top;
      Descend(nt, t);
      if node.left != null && node.left !in visited {
        MarkingDescend(stack, trees, entering, visited, visits, t);
        stack, trees, entering := stack + [node.left], trees + [nt.left], true;
      } else {
        MarkingVisit(stack, trees, entering, visited, visits, t);
        stack, trees, entering := Pop(stack) + [node.right], Pop(trees) + [nt.right], true;
        visits := visits + [node];
        visited := visited + {node};
      }
    }
  }

  /**
   * The loop invariant of `iterative_inorder`, apart from the heap: a
   * non-null `node` is the top entry, whose left spine is still to be pushed.
   */
  ghost predicate InorderState<T>(stack: seq<TreeNode?<T>>, trees: seq<Tree<T>>, node: TreeNode?<T>,
                                  visits: seq<TreeNode?<T>>, t: Tree<T>)
  {
    && StackRep(stack, trees) && AllSubtrees(trees, t)
    && (node != null ==> stack != [] && node == Last(stack))
    && visits + InorderPending(trees, node != null) == Inorder(t)
  }

  /** A null top entry is popped. */
  lemma {:induction false} InorderSkip<T>(stack: seq<TreeNode?<T>>, trees: seq<Tree<T>>, node: TreeNode?<T>,
                                          visits: seq<TreeNode?<T>>, t: Tree<T>)
    requires InorderState(stack, trees, node, visits, t) && trees != [] && Last(trees).Nil?
    ensures node == null && InorderState(Pop(stack), Pop(trees), null, visits, t)
  {
    StackPop(stack, trees, t);
    InorderPopNil(trees, node != null);
  }

  /** The left child of `node` is pushed and followed. */
  lemma {:induction false} InorderDescend<T>(stack: seq<TreeNode?<T>>, trees: seq<Tree<T>>, node: TreeNode?<T>,
                                             visits: seq<TreeNode?<T>>, t: Tree<T>)
    requires InorderState(stack, trees, node, visits, t) && node != null
    requires Last(trees).Node? && IsSubtree(Last(trees).left, t)
    ensures var l := Last(trees).left;
      InorderState(stack + [Ptr(l)], trees + [l], Ptr(l), visits, t)
  {
    var l := Last(trees).left;
    InorderPushLeft(trees);
    StackPush(stack, trees, l, t);
  }

  /** With no node to follow, the top node is popped, visited, and its right child pushed and followed. */
  lemma {:induction false} InorderVisit<T>(stack: seq<TreeNode?<T>>, trees: seq<Tree<T>>,
                                           visits: seq<TreeNode?<T>>, t: Tree<T>)
    requires InorderState(stack, trees, null, visits, t)
    requires trees != [] && Last(trees).Node? && IsSubtree(Last(trees).right, t)
    ensures var nt := Last(trees);
      InorderState(Pop(stack) + [Ptr(nt.right)], Pop(trees) + [nt.right], Ptr(nt.right), visits + [nt.ref], t)
  {
    var nt := Last(trees);
    InorderVisitTopFrom(visits, trees, false, t);
    StackPop(stack, trees, t);
    StackPush(Pop(stack), Pop(trees), nt.right, t);
  }

  /**
   * `iterative_inorder`: a "current" pointer walks down left spines, pushing
   * every left child (null included); when it runs out, the top node is
   * popped, visited and its right child pushed and followed.
   */
  method IterativeInorder<T>(root: TreeNode?<T>, ghost t: Tree<T>) returns (visits: seq<TreeNode?<T>>)
    requires Rep(root, t)
    ensures visits == Inorder(t)
  {
    var stack: seq<TreeNode?<T>> := [root];
    ghost var trees: seq<Tree<T>> := [t];
    var node := root;
    visits := [];
    while stack != []
      invariant Linked(t)
      invariant InorderState(stack, trees, node, visits, t)
      decreases |Inorder(t)| - |visits|, if node != null then Size(Last(trees)) else 0, |stack|
    {
      ghost var nt := Last(trees);
      StackPop(stack, trees, t);
      if Last(stack) == null {
        InorderSkip(stack, trees, node, visits, t);
        stack, trees := Pop(stack), Pop(trees);
        continue;
      }
      Descend(nt, t);
      if node != null {
        InorderDescend(stack, trees, node, visits, t);
        stack, trees := stack + [node.left], trees + [nt.left];
        node := node.left;
      } else {
        InorderVisit(stack, trees, visits, t);
        node := Last(stack);
        stack, trees := Pop(stack), Pop(trees);
        visits := visits + [node];
        stack, trees := stack + [node.right], trees + [nt.right];
        node := node.right;
      }
    }
  }

  // --------------------------------------------------------------- postorder

  /** `child` is one of the two children of `parent`. */
  ghost predicate ChildOf<T>(child: Tree<T>, parent: Tree<T>)
  {
    parent.Node? && (child == parent.left || child == parent.right)
  }

  /** Every entry of a postorder stack is a child of the entry below it. */
  ghost predicate ChildChain<T>(trees: seq<Tree<T>>)
  {
    forall i :: 0 < i < |trees| ==> ChildOf(trees[i], trees[i - 1]) && trees[i].Node?
  }

  /** Pushing a child of the top entry. */
  lemma {:induction false} ChildChainPush<T>(trees: seq<Tree<T>>, c: Tree<T>)
    requires ChildChain(trees) && trees != [] && c.Node? && ChildOf(c, Last(trees))
    ensures ChildChain(trees + [c])
  {
  }

  /** Popping the top entry. */
  lemma {:induction false} ChildChainPop<T>(trees: seq<Tree<T>>)
    requires ChildChain(trees) && trees != []
    ensures ChildChain(Pop(trees))
    ensures |trees| >= 2 ==> ChildOf(Last(trees), Last(Pop(trees))) && Last(trees).Node?
  {
  }

  /**
   * What a postorder stack entry `parent` still promises while `child`, one
   * of its children, sits above it: the right subtree too if `child` is the
   * left one, then `parent` itself.
   */
  ghost function PostorderFrame<T>(parent: Tree<T>, child: Tree<T>): seq<TreeNode?<T>>
  {
    (if parent.Node? && child == parent.left then Postorder(parent.right) else []) + [Ptr(parent)]
  }

  /** What the entries below the top of a postorder stack promise. */
  ghost function PostorderBelow<T>(trees: seq<Tree<T>>): seq<TreeNode?<T>>
  {
    if |trees| <= 1 then []
    else PostorderFrame(trees[|trees| - 2], Last(trees)) + PostorderBelow(Pop(trees))
  }

  /**
   * What a postorder stack promises: the whole top subtree when it is
   * `entering`, otherwise just the top entry (both its subtrees are done).
   */
  ghost function PostorderPending<T>(trees: seq<Tree<T>>, entering: bool): seq<TreeNode?<T>>
  {
    if trees == [] then []
    else (if entering then Postorder(Last(trees)) else [Ptr(Last(trees))]) + PostorderBelow(trees)
  }

  /** Descending from an entering top entry into its child `c` promises the same. */
  lemma {:induction false} PostorderDescend<T>(trees: seq<Tree<T>>, c: Tree<T>)
    requires trees != [] && Last(trees).Node? && c.Node?
    requires c == Last(trees).left || (c == Last(trees).right && Last(trees).left.Nil?)
    ensures PostorderPending(trees + [c], true) == PostorderPending(trees, true)
  {
    var s := trees + [c];
    var p := Last(trees);
    var below := PostorderBelow(trees);
    assert Pop(s) == trees && s[|s| - 2] == p && Last(s) == c;
    assert PostorderBelow(s) == PostorderFrame(p, c) + below;
    assert PostorderPending(trees, true) == Postorder(p) + below;
    if c == p.left {
      var r := Postorder(p.right);
      assert PostorderFrame(p, c) == r + [p.ref];
      assert Postorder(p) == Postorder(c) + r + [p.ref];
      assert Postorder(c) + ((r + [p.ref]) + below) == (Postorder(c) + r + [p.ref]) + below;
    } else {
      assert Postorder(p.left) == [];
      assert PostorderFrame(p, c) == [p.ref];
      assert Postorder(p) == Postorder(c) + [p.ref];
      assert Postorder(c) + ([p.ref] + below) == (Postorder(c) + [p.ref]) + below;
    }
  }

  /** A leaf on top has nothing left to descend into. */
  lemma {:induction false} PostorderLeaf<T>(trees: seq<Tree<T>>)
    requires trees != [] && Last(trees).Node? && Last(trees).left.Nil? && Last(trees).right.Nil?
    ensures PostorderPending(trees, true) == PostorderPending(trees, false)
  {
    var top := Last(trees);
    assert Postorder(top) == [top.ref];
  }

  /**
   * Popping and visiting a finished top entry: what the entry below
   * promised, split into its right subtree (when the popped one was its left
   * child) and itself.
   */
  lemma {:induction false} PostorderVisitTop<T>(trees: seq<Tree<T>>)
    requires |trees| >= 2
    ensures PostorderPending(trees, false)
         == [Ptr(Last(trees))] + PostorderFrame(trees[|trees| - 2], Last(trees)) + PostorderBelow(Pop(trees))
  {
  }

  /** The two children of a node of a tree that shares no node differ, unless both are empty. */
  lemma ChildrenDiffer<T>(p: Tree<T>)
    requires p.Node? && Distinct(p) && p.right.Node?
    ensures p.left != p.right
  {
    assert p.right.ref in Nodes(p.right);
  }

  /** After the visit of the top's left child: its right subtree comes next, then the top. */
  lemma {:induction false} PostorderResumeRight<T>(trees: seq<Tree<T>>)
    requires trees != [] && Last(trees).Node? && Last(trees).right.Node?
    requires Last(trees).left != Last(trees).right
    ensures PostorderFrame(Last(trees), Last(trees).left) + PostorderBelow(trees)
         == PostorderPending(trees + [Last(trees).right], true)
  {
    var p := Last(trees);
    var s := trees + [p.right];
    var below := PostorderBelow(trees);
    assert Pop(s) == trees && s[|s| - 2] == p && Last(s) == p.right;
    assert PostorderFrame(p, p.right) == [p.ref];
    assert PostorderBelow(s) == [p.ref] + below;
    assert PostorderFrame(p, p.left) == Postorder(p.right) + [p.ref];
    assert (Postorder(p.right) + [p.ref]) + below == Postorder(p.right) + ([p.ref] + below);
  }

  /** After the visit of the top's last child: the top itself comes next. */
  lemma {:induction false} PostorderResumeUp<T>(trees: seq<Tree<T>>, child: Tree<T>)
    requires trees != [] && Last(trees).Node?
    requires child != Last(trees).left || Last(trees).right.Nil?
    ensures PostorderFrame(Last(trees), child) + PostorderBelow(trees) == PostorderPending(trees, false)
  {
    var p := Last(trees);
    assert PostorderFrame(p, child) == [p.ref];
  }

  /**
   * The loop invariant of `iterative_postorder`, apart from the heap: the
   * bottom entry is the root, every other entry a child of the one below,
   * a non-null `node` is the top entry, still to be descended into, and the
   * visits so far followed by what the stack promises make up `goal`.
   */
  ghost predicate PostorderState<T>(stack: seq<TreeNode?<T>>, trees: seq<Tree<T>>, node: TreeNode?<T>,
                                    visits: seq<TreeNode?<T>>, goal: seq<TreeNode?<T>>, t: Tree<T>)
  {
    && StackRep(stack, trees) && AllSubtrees(trees, t) && ChildChain(trees)
    && (trees != [] ==> trees[0] == t)
    && (node != null ==> stack != [] && node == Last(stack))
    && visits + PostorderPending(trees, node != null) == goal
  }

  /** Following the left child of `node`, or its right child when it has no left. */
  lemma {:induction false} PostorderFollow<T>(stack: seq<TreeNode?<T>>, trees: seq<Tree<T>>, node: TreeNode?<T>,
                                              visits: seq<TreeNode?<T>>, goal: seq<TreeNode?<T>>, t: Tree<T>, c: Tree<T>)
    requires PostorderState(stack, trees, node, visits, goal, t) && node != null
    requires Last(trees).Node? && IsSubtree(c, t) && c.Node?
    requires c == Last(trees).left || (c == Last(trees).right && Last(trees).left.Nil?)
    ensures PostorderState(stack + [Ptr(c)], trees + [c], Ptr(c), visits, goal, t)
  {
    PostorderDescend(trees, c);
    StackPush(stack, trees, c, t);
    ChildChainPush(trees, c);
  }

  /** A leaf leaves nothing to follow. */
  lemma {:induction false} PostorderStop<T>(stack: seq<TreeNode?<T>>, trees: seq<Tree<T>>, node: TreeNode?<T>,
                                            visits: seq<TreeNode?<T>>, goal: seq<TreeNode?<T>>, t: Tree<T>)
    requires PostorderState(stack, trees, node, visits, goal, t) && node != null
    requires Last(trees).Node? && Last(trees).left.Nil? && Last(trees).right.Nil?
    ensures PostorderState(stack, trees, null, visits, goal, t)
  {
    PostorderLeaf(trees);
  }

  /** Popping and visiting the top entry hands over to what the entries below it promise. */
  lemma {:induction false} PostorderPop<T>(stack: seq<TreeNode?<T>>, trees: seq<Tree<T>>,
                                           visits: seq<TreeNode?<T>>, goal: seq<TreeNode?<T>>, t: Tree<T>)
    requires PostorderState(stack, trees, null, visits, goal, t) && trees != []
    ensures StackRep(Pop(stack), Pop(trees)) && AllSubtrees(Pop(trees), t) && ChildChain(Pop(trees))
    ensures Pop(trees) != [] ==> Pop(trees)[0] == t
    ensures Last(stack) == Ptr(Last(trees))
    ensures (visits + [Last(stack)]) + PostorderBelow(trees) == goal
    ensures |trees| >= 2 ==> ChildOf(Last(trees), Last(Pop(trees))) && Last(trees).Node?
    ensures |trees| >= 2 ==>
      PostorderBelow(trees) == PostorderFrame(Last(Pop(trees)), Last(trees)) + PostorderBelow(Pop(trees))
  {
    StackPop(stack, trees, t);
    ChildChainPop(trees);
    var below := PostorderBelow(trees);
    assert PostorderPending(trees, false) == [Last(stack)] + below;
    assert visits + ([Last(stack)] + below) == (visits + [Last(stack)]) + below;
    if |trees| >= 2 {
      assert trees[|trees| - 2] == Last(Pop(trees));
    }
  }

  /**
   * The identity test `stack.top()->left == top`: in a tree that shares no
   * node, the popped child is the left one exactly when the pointers agree.
   */
  lemma LeftChildByIdentity<T>(pt: Tree<T>, tt: Tree<T>)
    requires pt.Node? && Distinct(pt) && tt.Node? && ChildOf(tt, pt)
    ensures Ptr(pt.left) == tt.ref <==> pt.left == tt
  {
  }

  /** Resuming at the right subtree of the entry below, after its left child was popped and visited. */
  lemma {:induction false} PostorderPopRight<T>(stack: seq<TreeNode?<T>>, trees: seq<Tree<T>>,
                                                visits: seq<TreeNode?<T>>, goal: seq<TreeNode?<T>>, t: Tree<T>)
    requires PostorderState(stack, trees, null, visits, goal, t) && |trees| >= 2
    requires Distinct(t) && Linked(t)
    requires Last(Pop(trees)).Node? && Last(Pop(trees)).left == Last(trees) && Last(Pop(trees)).right.Node?
    ensures var r := Last(Pop(trees)).right;
      PostorderState(Pop(stack) + [Ptr(r)], Pop(trees) + [r], Ptr(r), visits + [Last(stack)], goal, t)
  {
    PostorderPop(stack, trees, visits, goal, t);
    var pt := Last(Pop(trees));
    Descend(pt, t);
    ChildrenDiffer(pt);
    PostorderResumeRight(Pop(trees));
    StackPush(Pop(stack), Pop(trees), pt.right, t);
    ChildChainPush(Pop(trees), pt.right);
  }

  /** Otherwise the entry below, if any, is now finished itself. */
  lemma {:induction false} PostorderPopUp<T>(stack: seq<TreeNode?<T>>, trees: seq<Tree<T>>,
                                             visits: seq<TreeNode?<T>>, goal: seq<TreeNode?<T>>, t: Tree<T>)
    requires PostorderState(stack, trees, null, visits, goal, t) && trees != []
    requires |trees| >= 2 ==>
      Last(Pop(trees)).Node? && (Last(Pop(trees)).left != Last(trees) || Last(Pop(trees)).right.Nil?)
    ensures PostorderState(Pop(stack), Pop(trees), null, visits + [Last(stack)], goal, t)
  {
    PostorderPop(stack, trees, visits, goal, t);
    if |trees| >= 2 {
      PostorderResumeUp(Pop(trees), Last(trees));
    }
  }

  /**
   * Popping and visiting the top entry: the entry below it, if any, is a
   * node; when the popped node was its left child and it has a right child,
   * that right child is pushed and followed.
   */
  lemma {:induction false} PostorderPopVisit<T>(stack: seq<TreeNode?<T>>, trees: seq<Tree<T>>,
                                                visits: seq<TreeNode?<T>>, goal: seq<TreeNode?<T>>, t: Tree<T>)
    requires PostorderState(stack, trees, null, visits, goal, t) && trees != []
    requires Distinct(t) && Linked(t)
    ensures |trees| >= 2 ==> Last(Pop(trees)).Node? && IsSubtree(Last(Pop(trees)), t)
    ensures |trees| >= 2 ==>
      && Last(Pop(stack)) != null
      && (Last(Pop(stack)).left == Last(stack) <==> Last(Pop(trees)).left == Last(trees))
    ensures var v := visits + [Last(stack)];
      if |trees| >= 2 && Last(Pop(trees)).left == Last(trees) && Last(Pop(trees)).right.Node? then
        var r := Last(Pop(trees)).right;
        PostorderState(Pop(stack) + [Ptr(r)], Pop(trees) + [r], Ptr(r), v, goal, t)
      else
        PostorderState(Pop(stack), Pop(trees), null, v, goal, t)
  {
    PostorderPop(stack, trees, visits, goal, t);
    if |trees| >= 2 {
      var pt, tt := Last(Pop(trees)), Last(trees);
      StackPop(Pop(stack), Pop(trees), t);
      Descend(pt, t);
      LeftChildByIdentity(pt, tt);
      if tt == pt.left && pt.right.Node? {
        PostorderPopRight(stack, trees, visits, goal, t);
      } else {
        PostorderPopUp(stack, trees, visits, goal, t);
      }
    } else {
      PostorderPopUp(stack, trees, visits, goal, t);
    }
  }

  /**
   * `iterative_postorder`: follow left children (or the right one when there
   * is no left) down to a leaf, then pop and visit; when the popped node is
   * the left child of the new top (compared by identity), descend into that
   * top's right subtree. An empty tree is not special-cased: the null root is
   * popped and handed to the visitor.
   */
  method IterativePostorder<T>(root: TreeNode?<T>, ghost t: Tree<T>) returns (visits: seq<TreeNode?<T>>)
    requires Rep(root, t) && Distinct(t)
    ensures visits == if root == null then [null] else Postorder(t)
  {
    var stack: seq<TreeNode?<T>> := [root];
    ghost var trees: seq<Tree<T>> := [t];
    var node := root;
    ghost var goal := if root == null then [null] else Postorder(t);
    visits := [];
    while stack != []
      invariant Linked(t) && Distinct(t)
      invariant PostorderState(stack, trees, node, visits, goal, t)
      decreases |Postorder(t)| + 1 - |visits|, if node != null then Size(Last(trees)) else 0
    {
      StackPop(stack, trees, t);
      if node != null {
        ghost var nt := Last(trees);
        Descend(nt, t);
        var follow: TreeNode?<T> := null;
        if node.left != null {
          PostorderFollow(stack, trees, node, visits, goal, t, nt.left);
          stack, trees := stack + [node.left], trees + [nt.left];
          follow := node.left;
        } else if node.right != null {
          PostorderFollow(stack, trees, node, visits, goal, t, nt.right);
          stack, trees := stack + [node.right], trees + [nt.right];
          follow := node.right;
        } else {
          PostorderStop(stack, trees, node, visits, goal, t);
        }
        node := follow;
      } else {
        PostorderPopVisit(stack, trees, visits, goal, t);
        if |trees| >= 2 {
          Descend(Last(Pop(trees)), t);
        }
        var top := Last(stack);
        stack, trees := Pop(stack), Pop(trees);
        visits := visits + [top];
        if stack != [] && Last(stack).left == top {
          if Last(stack).right != null {
            stack, trees := stack + [Last(stack).right], trees + [Last(trees).right];
            node := Last(stack);
          }
        }
      }
    }
  }

  /**
   * `iterative_postorder` with the empty tree handled as the other
   * traversals handle it: no visit at all.
   */
  method GuardedPostorder<T>(root: TreeNode?<T>, ghost t: Tree<T>) returns (visits: seq<TreeNode?<T>>)
    requires Rep(root, t) && Distinct(t)
    ensures visits == Postorder(t)
  {
    if root == null {
      visits := [];
    } else {
      visits := IterativePostorder(root, t);
    }
  }
}
