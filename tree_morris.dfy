/**
 * `morris_inorder` (src/tree.cpp): an inorder walk without a stack that
 * temporarily rewrites `right` pointers ("threads") and puts them back.
 *
 * The proof tracks, beside the real pointer `curr`, a ghost cursor `c` (the
 * subtree about to be entered, `Nil` when the walk is climbing back along a
 * thread) and a ghost sequence `ts` of the ancestors whose left subtree is
 * being walked; each of them owns one thread, from the rightmost node of its
 * left subtree back to itself. The heap is described node by node: every
 * `left` pointer is the original one, every `right` pointer is the original
 * one except at the thread owners' rightmost nodes.
 */
module TreeMorris {
  import opened Trees
  import opened TreeTraversals

  // ----------------------------------------------------------- tree shapes

  /** `s` is reached from `f` by following `right` only. */
  ghost predicate OnRightSpine<T>(s: Tree<T>, f: Tree<T>)
  {
    s == f || (f.Node? && OnRightSpine(s, f.right))
  }

  /** The last node on the right spine of `f`: where the thread to `f`'s parent starts. */
  ghost function Rightmost<T>(f: Tree<T>): (r: Tree<T>)
    requires f.Node?
    ensures r.Node? && r.right.Nil? && OnRightSpine(r, f)
    ensures r.ref in Nodes(f)
  {
    if f.right.Nil? then f else Rightmost(f.right)
  }

  lemma {:induction false} SubtreeTrans<T>(r: Tree<T>, s: Tree<T>, t: Tree<T>)
    requires IsSubtree(r, s) && IsSubtree(s, t)
    ensures IsSubtree(r, t)
  {
    if s != t {
      if IsSubtree(s, t.left) {
        SubtreeTrans(r, s, t.left);
      } else {
        SubtreeTrans(r, s, t.right);
      }
    }
  }

  /** A subtree has no node outside the tree and shares none when the tree shares none. */
  lemma {:induction false} SubtreeNodes<T>(s: Tree<T>, t: Tree<T>)
    requires IsSubtree(s, t)
    ensures Nodes(s) <= Nodes(t)
    ensures Distinct(t) ==> Distinct(s)
  {
    if s != t {
      if IsSubtree(s, t.left) {
        SubtreeNodes(s, t.left);
      } else {
        SubtreeNodes(s, t.right);
      }
    }
  }

  /** Walking down a right spine. */
  lemma {:induction false} SpineFacts<T>(s: Tree<T>, f: Tree<T>)
    requires OnRightSpine(s, f)
    ensures IsSubtree(s, f)
    ensures s.Node? ==> OnRightSpine(s.right, f) && Rightmost(s) == Rightmost(f)
    ensures s.Node? && s.right.Nil? ==> s == Rightmost(f)
  {
    if s != f {
      SpineFacts(s, f.right);
    }
  }

  /** The rightmost node of `a` is not in `a`'s left subtree. */
  lemma RightmostNotLeft<T>(a: Tree<T>)
    requires a.Node? && Distinct(a)
    ensures Rightmost(a).ref !in Nodes(a.left)
  {
  }

  // ------------------------------------------------- original shape lookup

  /** Every node of `t` mapped to the subtree it is the root of. */
  ghost function SubMap<T>(t: Tree<T>): map<TreeNode<T>, Tree<T>>
  {
    if t.Nil? then map[] else (SubMap(t.left) + SubMap(t.right))[t.ref := t]
  }

  lemma {:induction false} SubMapKeys<T>(t: Tree<T>)
    ensures SubMap(t).Keys == Nodes(t)
  {
    if t.Node? {
      SubMapKeys(t.left);
      SubMapKeys(t.right);
    }
  }

  /** In a tree that shares no node, a subtree is found under its root node. */
  lemma {:induction false} SubMapAt<T>(s: Tree<T>, t: Tree<T>)
    requires Distinct(t) && IsSubtree(s, t) && s.Node?
    ensures s.ref in SubMap(t) && SubMap(t)[s.ref] == s
  {
    if s != t {
      SubMapKeys(t.left);
      SubMapKeys(t.right);
      if IsSubtree(s, t.left) {
        SubMapAt(s, t.left);
        SubtreeNodes(s, t.left);
        assert s.ref in Nodes(s);
      } else {
        SubMapAt(s, t.right);
        SubtreeNodes(s, t.right);
        assert s.ref in Nodes(s);
      }
    }
  }

  /** The subtree found under a node of `t` is rooted at it. */
  lemma {:induction false} SubMapOf<T>(t: Tree<T>, n: TreeNode<T>)
    requires Distinct(t) && n in Nodes(t)
    ensures n in SubMap(t) && SubMap(t)[n].Node? && SubMap(t)[n].ref == n && IsSubtree(SubMap(t)[n], t)
  {
    SubMapKeys(t.left);
    SubMapKeys(t.right);
    if n != t.ref {
      if n in Nodes(t.left) {
        SubMapOf(t.left, n);
      } else {
        SubMapOf(t.right, n);
      }
    }
  }

  // --------------------------------------------------------- threaded heap

  /**
   * The heap holds the nodes of `t` with their original `left` pointers,
   * and their original `right` pointers except where `thr` gives a thread.
   */
  ghost predicate Threaded<T>(t: Tree<T>, sub: map<TreeNode<T>, Tree<T>>, thr: map<TreeNode<T>, TreeNode<T>>)
    reads Nodes(t)
  {
    forall n :: n in Nodes(t) ==>
      && n in sub && sub[n].Node?
      && n.left == Ptr(sub[n].left)
      && n.right == (if n in thr then thr[n] else Ptr(sub[n].right))
  }

  /** What `Threaded` says about one node. */
  lemma ThreadedAt<T>(t: Tree<T>, sub: map<TreeNode<T>, Tree<T>>, thr: map<TreeNode<T>, TreeNode<T>>, n: TreeNode<T>)
    requires Threaded(t, sub, thr) && n in Nodes(t)
    ensures n in sub && sub[n].Node?
    ensures n.left == Ptr(sub[n].left) && n.right == (if n in thr then thr[n] else Ptr(sub[n].right))
  {
  }

  /** Writing the thread from `p` to `v` (`prev->right = curr`). */
  method SetThread<T>(p: TreeNode<T>, v: TreeNode<T>, ghost t: Tree<T>, ghost sub: map<TreeNode<T>, Tree<T>>,
                      ghost thr: map<TreeNode<T>, TreeNode<T>>)
    requires Threaded(t, sub, thr) && p in Nodes(t)
    modifies p`right
    ensures Threaded(t, sub, thr[p := v])
  {
    p.right := v;
  }

  /** Removing the thread from `p`, whose original `right` is null (`prev->right = nullptr`). */
  method ClearThread<T>(p: TreeNode<T>, ghost t: Tree<T>, ghost sub: map<TreeNode<T>, Tree<T>>,
                        ghost thr: map<TreeNode<T>, TreeNode<T>>)
    requires Threaded(t, sub, thr) && p in Nodes(t)
    requires p in sub && sub[p].Node? && sub[p].right.Nil?
    modifies p`right
    ensures Threaded(t, sub, thr - {p})
  {
    p.right := null;
  }

  /** A linked tree is threaded with no threads. */
  lemma RepThreaded<T>(t: Tree<T>)
    requires Linked(t) && Distinct(t)
    ensures Threaded(t, SubMap(t), map[])
  {
    forall n | n in Nodes(t)
      ensures n in SubMap(t) && SubMap(t)[n].Node?
      ensures n.left == Ptr(SubMap(t)[n].left) && n.right == Ptr(SubMap(t)[n].right)
    {
      SubMapOf(t, n);
      Descend(SubMap(t)[n], t);
    }
  }

  /** A tree threaded with no threads is linked again. */
  lemma {:induction false} ThreadedLinked<T>(s: Tree<T>, t: Tree<T>)
    requires Distinct(t) && IsSubtree(s, t) && Threaded(t, SubMap(t), map[])
    ensures Linked(s)
  {
    if s.Node? {
      SubMapAt(s, t);
      SubtreeNodes(s, t);
      assert s.ref in Nodes(s);
      assert IsSubtree(s.left, s) && IsSubtree(s.right, s);
      SubtreeTrans(s.left, s, t);
      SubtreeTrans(s.right, s, t);
      ThreadedLinked(s.left, t);
      ThreadedLinked(s.right, t);
    }
  }

  // ------------------------------------------------------------ walk state

  /** The subtree whose right spine the walk is on: the last owner's left subtree. */
  ghost function Frame<T>(ts: seq<Tree<T>>, t: Tree<T>): Tree<T>
  {
    if ts == [] then t else if Last(ts).Node? then Last(ts).left else Nil
  }

  /** Every thread owner has a left subtree and lies on the right spine of the previous owner's frame. */
  ghost predicate Chain<T>(ts: seq<Tree<T>>, t: Tree<T>)
  {
    ts != [] ==>
      && Chain(Pop(ts), t)
      && Last(ts).Node? && Last(ts).left.Node?
      && OnRightSpine(Last(ts), Frame(Pop(ts), t))
  }

  /** The threads owned by `ts`: rightmost node of the owner's left subtree to the owner. */
  ghost function Threads<T>(ts: seq<Tree<T>>): map<TreeNode<T>, TreeNode<T>>
  {
    if ts == [] then map[]
    else if Last(ts).Node? && Last(ts).left.Node? then
      Threads(Pop(ts))[Rightmost(Last(ts).left).ref := Last(ts).ref]
    else Threads(Pop(ts))
  }

  /** What the owners still promise, the last one first: itself, then its right subtree. */
  function MorrisPending<T>(ts: seq<Tree<T>>): seq<TreeNode<T>>
  {
    if ts == [] then []
    else (if Last(ts).Node? then [Last(ts).ref] + Inorder(Last(ts).right) else []) + MorrisPending(Pop(ts))
  }

  /** The node the real `curr` points at: the cursor's root, or the owner a thread leads back to. */
  function Cursor<T>(c: Tree<T>, ts: seq<Tree<T>>): TreeNode?<T>
  {
    if c.Node? then c.ref else if ts != [] && Last(ts).Node? then Last(ts).ref else null
  }

  /** The subtree rooted at the cursor. */
  function Host<T>(c: Tree<T>, ts: seq<Tree<T>>): Tree<T>
  {
    if c.Node? then c else if ts != [] then Last(ts) else Nil
  }

  /** The loop invariant of `morris_inorder`, apart from the heap. */
  ghost predicate MorrisState<T>(c: Tree<T>, ts: seq<Tree<T>>, visits: seq<TreeNode?<T>>, t: Tree<T>)
  {
    && Distinct(t)
    && Chain(ts, t)
    && OnRightSpine(c, Frame(ts, t))
    && visits + Inorder(c) + MorrisPending(ts) == Inorder(t)
  }

  lemma {:induction false} ChainSubtree<T>(ts: seq<Tree<T>>, t: Tree<T>)
    requires Chain(ts, t)
    ensures IsSubtree(Frame(ts, t), t)
    ensures ts != [] ==> IsSubtree(Last(ts), t)
  {
    if ts != [] {
      var a := Last(ts);
      ChainSubtree(Pop(ts), t);
      SpineFacts(a, Frame(Pop(ts), t));
      SubtreeTrans(a, Frame(Pop(ts), t), t);
      assert IsSubtree(a.left, a);
      SubtreeTrans(a.left, a, t);
    }
  }

  /** Every thread starts at a node of `t` whose original right pointer is null. */
  lemma {:induction false} ThreadKeys<T>(ts: seq<Tree<T>>, t: Tree<T>)
    requires Chain(ts, t) && Distinct(t)
    ensures forall k :: k in Threads(ts) ==> k in Nodes(t) && k in SubMap(t) && SubMap(t)[k].Node? && SubMap(t)[k].right.Nil?
  {
    if ts != [] {
      var a := Last(ts);
      ThreadKeys(Pop(ts), t);
      ChainSubtree(ts, t);
      var r := Rightmost(a.left);
      SpineFacts(r, a.left);
      assert IsSubtree(a.left, a);
      SubtreeTrans(a.left, a, t);
      SubtreeTrans(r, a.left, t);
      SubMapAt(r, t);
      SubtreeNodes(r, t);
      assert r.ref in Nodes(r);
    }
  }

  /** The threads of earlier owners start outside the last owner's left subtree. */
  lemma {:induction false} OlderKeysOutside<T>(ts: seq<Tree<T>>, t: Tree<T>)
    requires Chain(ts, t) && Distinct(t) && ts != []
    ensures forall k :: k in Threads(Pop(ts)) ==> k !in Nodes(Last(ts).left)
  {
    var a, p := Last(ts), Pop(ts);
    if p != [] {
      var b := Last(p);
      OlderKeysOutside(p, t);
      SpineFacts(a, b.left);
      SubtreeNodes(a, b.left);
      ChainSubtree(ts, t);
      SubtreeNodes(a, t);
      RightmostNotLeft(a);
    }
  }

  /** No thread starts in the left subtree of a node on the current frame's right spine. */
  lemma {:induction false} NoThreadsBelow<T>(c: Tree<T>, ts: seq<Tree<T>>, t: Tree<T>)
    requires Chain(ts, t) && Distinct(t) && OnRightSpine(c, Frame(ts, t)) && c.Node?
    ensures forall k :: k in Threads(ts) ==> k !in Nodes(c.left)
  {
    if ts != [] {
      var a := Last(ts);
      OlderKeysOutside(ts, t);
      SpineFacts(c, a.left);
      SubtreeNodes(c, a.left);
      ChainSubtree(ts, t);
      assert IsSubtree(a.left, a);
      SubtreeTrans(a.left, a, t);
      SubtreeTrans(c, a.left, t);
      SubtreeNodes(c, t);
      RightmostNotLeft(c);
    }
  }

  /**
   * Following the `right` pointer of a node on the current frame's right
   * spine, thread or not, leads where the cursor goes next.
   */
  lemma {:induction false} RightLink<T>(c: Tree<T>, ts: seq<Tree<T>>, t: Tree<T>)
    requires Chain(ts, t) && Distinct(t) && OnRightSpine(c, Frame(ts, t)) && c.Node?
    ensures c.ref in Nodes(t) && c.ref in SubMap(t) && SubMap(t)[c.ref] == c
    ensures (if c.ref in Threads(ts) then Threads(ts)[c.ref] else Ptr(c.right)) == Cursor(c.right, ts)
  {
    ChainSubtree(ts, t);
    SpineFacts(c, Frame(ts, t));
    SubtreeTrans(c, Frame(ts, t), t);
    SubMapAt(c, t);
    SubtreeNodes(c, t);
    assert c.ref in Nodes(c);
    ThreadKeys(ts, t);
  }

  // ------------------------------------------------------------ walk steps

  /** Where the real pointer is not null, it points at a node of `t`. */
  lemma {:induction false} CursorHost<T>(c: Tree<T>, ts: seq<Tree<T>>, visits: seq<TreeNode?<T>>, t: Tree<T>)
    requires MorrisState(c, ts, visits, t) && Cursor(c, ts) != null
    ensures var h := Host(c, ts);
      && h.Node? && Cursor(c, ts) == h.ref && IsSubtree(h, t)
      && h.ref in Nodes(t) && h.ref in SubMap(t) && SubMap(t)[h.ref] == h
      && (c.Nil? ==> ts != [] && h.left.Node?)
  {
    var h := Host(c, ts);
    ChainSubtree(ts, t);
    if c.Node? {
      SpineFacts(c, Frame(ts, t));
      SubtreeTrans(c, Frame(ts, t), t);
    }
    SubMapAt(h, t);
    SubtreeNodes(h, t);
    assert h.ref in Nodes(h);
  }

  /** The real pointer's `left` is the host's original left child. */
  lemma CursorLeft<T>(c: Tree<T>, ts: seq<Tree<T>>, visits: seq<TreeNode?<T>>, t: Tree<T>,
                      sub: map<TreeNode<T>, Tree<T>>)
    requires MorrisState(c, ts, visits, t) && Cursor(c, ts) != null
    requires sub == SubMap(t) && Threaded(t, sub, Threads(ts))
    ensures Host(c, ts).Node? && Cursor(c, ts) == Host(c, ts).ref
    ensures Cursor(c, ts).left == Ptr(Host(c, ts).left)
    ensures Cursor(c, ts).left == null ==> c.Node? && c.left.Nil?
  {
    CursorHost(c, ts, visits, t);
    ThreadedAt(t, sub, Threads(ts), Cursor(c, ts));
  }

  /** A node without a left child is visited and the walk goes right. */
  lemma {:induction false} MorrisVisit<T>(c: Tree<T>, ts: seq<Tree<T>>, visits: seq<TreeNode?<T>>, t: Tree<T>)
    requires MorrisState(c, ts, visits, t) && c.Node? && c.left.Nil?
    ensures MorrisState(c.right, ts, visits + [c.ref], t)
    ensures c.ref in Nodes(t) && c.ref in SubMap(t) && SubMap(t)[c.ref] == c
    ensures (if c.ref in Threads(ts) then Threads(ts)[c.ref] else Ptr(c.right)) == Cursor(c.right, ts)
  {
    SpineFacts(c, Frame(ts, t));
    RightLink(c, ts, t);
    var rest := MorrisPending(ts);
    assert Inorder(c) == [c.ref] + Inorder(c.right);
    assert visits + Inorder(c) + rest == (visits + [c.ref]) + Inorder(c.right) + rest;
  }

  /** A node with a left child becomes a thread owner and the walk goes left. */
  lemma {:induction false} MorrisDescend<T>(c: Tree<T>, ts: seq<Tree<T>>, visits: seq<TreeNode?<T>>, t: Tree<T>)
    requires MorrisState(c, ts, visits, t) && c.Node? && c.left.Node?
    ensures MorrisState(c.left, ts + [c], visits, t)
    ensures Threads(ts + [c]) == Threads(ts)[Rightmost(c.left).ref := c.ref]
    ensures Cursor(c.left, ts + [c]) == c.left.ref
  {
    var ts' := ts + [c];
    assert Pop(ts') == ts && Last(ts') == c;
    assert Chain(ts', t) && Frame(ts', t) == c.left;
    var rest := MorrisPending(ts);
    assert MorrisPending(ts') == [c.ref] + Inorder(c.right) + rest;
    assert Inorder(c) == Inorder(c.left) + [c.ref] + Inorder(c.right);
    assert visits + Inorder(c.left) + ([c.ref] + Inorder(c.right) + rest)
        == visits + (Inorder(c.left) + [c.ref] + Inorder(c.right)) + rest;
  }

  /**
   * Climbing back along the thread to the last owner: it is visited and
   * the walk goes right.
   */
  lemma {:induction false} MorrisReturn<T>(ts: seq<Tree<T>>, visits: seq<TreeNode?<T>>, t: Tree<T>)
    requires MorrisState(Nil, ts, visits, t) && ts != []
    ensures var a := Last(ts);
      && MorrisState(a.right, Pop(ts), visits + [a.ref], t)
      && a.ref in Nodes(t) && a.ref in SubMap(t) && SubMap(t)[a.ref] == a
      && (if a.ref in Threads(Pop(ts)) then Threads(Pop(ts))[a.ref] else Ptr(a.right)) == Cursor(a.right, Pop(ts))
  {
    var a, p := Last(ts), Pop(ts);
    SpineFacts(a, Frame(p, t));
    RightLink(a, p, t);
    var rest := MorrisPending(p);
    assert MorrisPending(ts) == [a.ref] + Inorder(a.right) + rest;
    assert visits + Inorder(Nil) + MorrisPending(ts) == (visits + [a.ref]) + Inorder(a.right) + rest;
  }

  /** Removing the last owner's thread leaves the threads of the others. */
  lemma {:induction false} ThreadRemoval<T>(ts: seq<Tree<T>>, t: Tree<T>)
    requires Chain(ts, t) && Distinct(t) && ts != []
    ensures var a := Last(ts); var k := Rightmost(a.left).ref;
      && k in Threads(ts) && k in SubMap(t) && SubMap(t)[k].Node? && SubMap(t)[k].right.Nil?
      && k != a.ref
      && Threads(Pop(ts)) == Threads(ts) - {k}
  {
    var a, p := Last(ts), Pop(ts);
    var k := Rightmost(a.left).ref;
    ThreadKeys(ts, t);
    OlderKeysOutside(ts, t);
    ChainSubtree(ts, t);
    SubtreeNodes(a, t);
    assert k !in Threads(p);
    assert Threads(p) == Threads(ts) - {k};
  }

  /**
   * One step of the search for the predecessor of the host node: along the
   * right spine of its left subtree, stopping at the rightmost node, which
   * carries the host's thread exactly when the walk is climbing back.
   */
  lemma {:induction false} PredecessorStep<T>(c: Tree<T>, ts: seq<Tree<T>>, visits: seq<TreeNode?<T>>, t: Tree<T>, pt: Tree<T>)
    requires MorrisState(c, ts, visits, t) && Cursor(c, ts) != null
    requires Host(c, ts).left.Node? && OnRightSpine(pt, Host(c, ts).left) && pt.Node?
    ensures pt.ref in Nodes(t) && pt.ref in SubMap(t) && SubMap(t)[pt.ref] == pt
    ensures var h := Host(c, ts);
      pt.right.Node? ==>
        pt.ref !in Threads(ts) && pt.right.ref != h.ref && OnRightSpine(pt.right, h.left)
    ensures var h := Host(c, ts);
      pt.right.Nil? ==>
        && pt == Rightmost(h.left)
        && (c.Node? ==> pt.ref !in Threads(ts))
        && (c.Nil? ==> pt.ref in Threads(ts) && Threads(ts)[pt.ref] == h.ref)
  {
    var h := Host(c, ts);
    CursorHost(c, ts, visits, t);
    assert IsSubtree(h.left, h);
    SubtreeTrans(h.left, h, t);
    SpineFacts(pt, h.left);
    SubtreeTrans(pt, h.left, t);
    SubMapAt(pt, t);
    SubtreeNodes(pt, t);
    SubtreeNodes(pt, h.left);
    SubtreeNodes(h, t);
    assert pt.ref in Nodes(pt);
    if pt.right.Node? {
      assert pt.right.ref in Nodes(pt);
    }
    ThreadKeys(ts, t);
    if c.Node? {
      NoThreadsBelow(c, ts, t);
    } else {
      OlderKeysOutside(ts, t);
    }
  }

  /** With the cursor gone, the walk is over and every thread removed. */
  lemma {:induction false} MorrisDone<T>(c: Tree<T>, ts: seq<Tree<T>>, visits: seq<TreeNode?<T>>, t: Tree<T>)
    requires MorrisState(c, ts, visits, t) && Cursor(c, ts) == null
    ensures visits == Inorder(t) && Threads(ts) == map[]
  {
  }

  /**
   * The inner loop of `morris_inorder`: from the left child of the node
   * `curr` points at, follow `right` pointers until one is null or leads
   * back to that node. The result is the node's inorder predecessor, the
   * rightmost node of its left subtree; its `right` pointer is null when the
   * walk is entering the node and the thread back to it when the walk is
   * climbing back.
   */
  method Predecessor<T>(curr: TreeNode<T>, ghost c: Tree<T>, ghost ts: seq<Tree<T>>, ghost visits: seq<TreeNode?<T>>,
                        ghost t: Tree<T>, ghost sub: map<TreeNode<T>, Tree<T>>) returns (prev: TreeNode<T>, ghost pt: Tree<T>)
    requires MorrisState(c, ts, visits, t) && curr == Cursor(c, ts)
    requires sub == SubMap(t) && Threaded(t, sub, Threads(ts))
    requires curr.left != null
    ensures Host(c, ts).Node? && Host(c, ts).left.Node?
    ensures pt == Rightmost(Host(c, ts).left) && prev == pt.ref
    ensures prev in Nodes(t) && prev in sub && sub[prev] == pt
    ensures Threaded(t, sub, Threads(ts))
    ensures c.Node? ==> prev.right == null
    ensures c.Nil? ==> prev.right == curr
  {
    CursorHost(c, ts, visits, t);
    var h := Host(c, ts);
    ThreadedAt(t, sub, Threads(ts), curr);
    prev := curr.left;
    pt := h.left;
    while prev.right != null && prev.right != curr
      invariant pt.Node? && prev == pt.ref && OnRightSpine(pt, h.left)
      decreases Size(pt)
    {
      PredecessorStep(c, ts, visits, t, pt);
      ThreadedAt(t, sub, Threads(ts), prev);
      prev := prev.right;
      pt := pt.right;
    }
    PredecessorStep(c, ts, visits, t, pt);
    ThreadedAt(t, sub, Threads(ts), prev);
  }

  /**
   * `morris_inorder`: a node without a left child is visited and the walk
   * goes right; otherwise the rightmost node of its left subtree is found.
   * If that node's right pointer is null, it is set to the current node
   * (a thread) and the walk goes left; if it already points back, the
   * thread is removed, the current node visited and the walk goes right.
   * The tree is left as it was found.
   */
  method MorrisInorder<T>(root: TreeNode?<T>, ghost t: Tree<T>) returns (visits: seq<TreeNode?<T>>)
    requires Rep(root, t) && Distinct(t)
    modifies Nodes(t)`right
    ensures visits == Inorder(t)
    ensures Rep(root, t)
  {
    ghost var sub := SubMap(t);
    RepThreaded(t);
    var curr := root;
    var prev: TreeNode?<T> := null;
    ghost var c := t;
    ghost var ts: seq<Tree<T>> := [];
    visits := [];
    while curr != null
      invariant MorrisState(c, ts, visits, t) && curr == Cursor(c, ts)
      invariant sub == SubMap(t) && Threaded(t, sub, Threads(ts))
      decreases |Inorder(t)| - |visits|, Size(c)
    {
      CursorLeft(c, ts, visits, t, sub);
      if curr.left == null {
        MorrisVisit(c, ts, visits, t);
        ThreadedAt(t, sub, Threads(ts), curr);
        visits := visits + [curr];
        curr := curr.right;
        c := c.right;
      } else {
        ghost var pt;
        prev, pt := Predecessor(curr, c, ts, visits, t, sub);
        if prev.right == null {
          MorrisDescend(c, ts, visits, t);
          SetThread(prev, curr, t, sub, Threads(ts));
          curr := curr.left;
          ts, c := ts + [c], c.left;
        } else {
          MorrisReturn(ts, visits, t);
          ThreadRemoval(ts, t);
          ClearThread(prev, t, sub, Threads(ts));
          ThreadedAt(t, sub, Threads(Pop(ts)), curr);
          visits := visits + [curr];
          curr := curr.right;
          c, ts := Last(ts).right, Pop(ts);
        }
      }
    }
    MorrisDone(c, ts, visits, t);
    ThreadedLinked(t, t);
  }
}
