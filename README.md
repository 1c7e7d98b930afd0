# ds-playground in Dafny

A model of three small C++ data-structure exercises, with proofs that each
behaves as its reference definition says:

- **Binary-tree traversals** (`src/tree.cpp`). The recursive preorder,
  inorder and postorder walks are the reference orders. Five other walks are
  proved to call the visitor in the same order:
  - iterative preorder;
  - inorder with a `visited` set;
  - inorder with a "current" pointer;
  - Morris inorder, which threads `right` pointers and is proved to restore
    every one of them;
  - iterative postorder, for a non-empty tree. On an empty tree it calls the
    visitor once with null (see Findings).

  Tree nodes are heap objects (`Trees.TreeNode`). A ghost datatype
  `Trees.Tree` mirrors the shape of the structure reachable from a root, and
  its `Node` case carries the heap node itself. This keeps node identity
  intact, which the `visited` set and the `stack.top()->left == top` test
  compare by. The visitor is modelled as appending the visited pointer to a
  sequence `visits`. Every walk other than Morris has no `modifies` clause,
  so the verifier itself guarantees that those walks never write to a node.
- **Growable array stack** (`src/array.cpp`). `ArrayStacks.RawArray` is the
  owned buffer `array<T>`. `ArrayStacks.ArrayStack` keeps its elements in the
  first `length` slots of such a buffer and shifts slots to insert or remove
  at an index. When the buffer is at least three times the length after a
  removal, it shrinks to `length + length/2` slots. When it is full on an
  insertion it grows to `length + length/2` slots, or to one more slot than
  the length at length 0 or 1. That second case corrects the source, whose
  growth adds no slot there (see Findings). A ghost `Contents` sequence is
  the abstract stack.
- **Singly linked list** (`src/list.cpp`). `LinkedLists.SinglyLinkedList` has
  heap nodes, `head`/`tail`/`length` fields, a ghost `Contents` and a ghost
  `Spine`. Appending, prepending and removing from the head are each proved
  against `Contents`.

The three modules are independent. `TreeSample` and the test methods in the
other two modules restate the repository's own test drivers as methods whose
postconditions are the values those drivers print or assert.

## Model

| member | source | states |
|---|---|---|
| Trees.TreeNode.constructor | src/tree.cpp:17 | a node holds the given value and the given left and right pointers |
| Trees.TraversalRoots | src/tree.cpp:25-51 | `Preorder`, `Inorder` and `Postorder` model the three recursive walks: for a non-empty tree the root comes first in preorder, right after the nodes of its left subtree in inorder, and last in postorder |
| Trees.TraversalsCoverNodes | src/tree.cpp:25-51 | each reference order contains exactly the nodes of the tree, and each has as many entries as the tree has nodes, so an empty tree gives no visit |
| Trees.PreorderVisitsEachNodeOnce | src/tree.cpp:25-31 | when no node is shared, preorder (root, left subtree, right subtree) visits every node exactly once |
| Trees.InorderVisitsEachNodeOnce | src/tree.cpp:35-41 | when no node is shared, inorder (left subtree, root, right subtree) visits every node exactly once |
| Trees.PostorderVisitsEachNodeOnce | src/tree.cpp:45-51 | when no node is shared, postorder (left subtree, right subtree, root) visits every node exactly once |
| TreeTraversals.PreorderOfStackStep | src/tree.cpp:70-78 | popping a null entry drops nothing still owed; popping a node owes that node first, then what its pushed right and left children owe |
| TreeTraversals.PreorderSkip | src/tree.cpp:71-74 | a null top entry is popped, nothing is visited, and the walk's invariant holds |
| TreeTraversals.PreorderVisit | src/tree.cpp:71-77 | a node on top is popped and is the next preorder visit; pushing its right child and then its left child keeps the invariant |
| TreeTraversals.IterativePreorder | src/tree.cpp:65-80 | the stack walk that skips null entries and pushes right before left visits exactly the recursive preorder sequence, and it writes no node |
| TreeTraversals.MarkingSkip | src/tree.cpp:94-97 | a null top entry is popped and the walk's invariant holds with the entry below no longer entering |
| TreeTraversals.MarkingDescend | src/tree.cpp:100-101 | pushing the unvisited left child of the top node keeps the walk's invariant, and the pushed subtree is smaller |
| TreeTraversals.MarkingVisit | src/tree.cpp:102-106 | when the left child is null or already visited, popping and visiting the top node and pushing its right child keeps the invariant, and one more inorder entry is done |
| TreeTraversals.IterativeInorderWithMarking | src/tree.cpp:84-109 | the walk with a `visited` set visits exactly the recursive inorder sequence, and it writes no node |
| TreeTraversals.InorderSkip | src/tree.cpp:120-123 | a null top entry is popped, which only happens when there is no current node, and the walk's invariant holds |
| TreeTraversals.InorderDescend | src/tree.cpp:125-128 | pushing and following the left child of the current node keeps the walk's invariant |
| TreeTraversals.InorderVisit | src/tree.cpp:129-134 | with no current node, popping and visiting the top node and then pushing and following its right child keeps the invariant |
| TreeTraversals.IterativeInorder | src/tree.cpp:113-137 | the walk with a "current" pointer visits exactly the recursive inorder sequence, and it writes no node |
| TreeTraversals.PostorderFollow | src/tree.cpp:177-190 | following the left child, or the right child when there is no left one, keeps the walk's invariant |
| TreeTraversals.PostorderStop | src/tree.cpp:177-190 | at a leaf there is nothing to follow, and the invariant holds with no current node |
| TreeTraversals.PostorderPop | src/tree.cpp:192-195 | popping and visiting the top entry hands over to what the entries below it promise; the popped entry is a child of the one below |
| TreeTraversals.LeftChildByIdentity | src/tree.cpp:197 | in a tree that shares no node, the popped child is the left child of the entry below exactly when the pointers compare equal |
| TreeTraversals.PostorderPopRight | src/tree.cpp:197-201 | after the left child is visited, pushing and following the right child of the entry below keeps the invariant |
| TreeTraversals.PostorderPopUp | src/tree.cpp:192-197 | after the last child is visited, the entry below is finished and the invariant holds with no current node |
| TreeTraversals.PostorderPopVisit | src/tree.cpp:191-202 | popping and visiting the top entry keeps the invariant; the identity test pushes the parent's right child exactly when the popped node was the left child and a right child exists |
| TreeTraversals.IterativePostorder | src/tree.cpp:169-205 | for a non-null root the walk visits exactly the recursive postorder sequence; for a null root it visits null once; it writes no node |
| TreeTraversals.GuardedPostorder | src/tree.cpp:169-205 | the same walk with the empty tree handled first visits exactly the recursive postorder sequence for every tree |
| TreeMorris.SetThread | src/tree.cpp:155-157 | writing `prev->right = curr` adds exactly that thread to the threaded-tree invariant |
| TreeMorris.ClearThread | src/tree.cpp:158-159 | resetting the right pointer of a node whose original right child is null removes exactly that thread |
| TreeMorris.Predecessor | src/tree.cpp:149-153 | the inner loop stops at the rightmost node of the left subtree; its right pointer is null on the way down and is the thread back to the current node on the way up |
| TreeMorris.MorrisVisit | src/tree.cpp:145-147 | a node without a left child is visited next in inorder, and the walk moves right |
| TreeMorris.MorrisDescend | src/tree.cpp:155-157 | threading the predecessor and going left keeps the walk's invariant and shrinks the subtree still to be entered |
| TreeMorris.MorrisReturn | src/tree.cpp:158-161 | on meeting the thread, its owner is the next node in inorder; the walk then continues from its right subtree |
| TreeMorris.RepThreaded | src/tree.cpp:141-144 | an untouched tree satisfies the threaded-tree invariant with no threads |
| TreeMorris.ThreadedLinked | src/tree.cpp:144-164 | a tree that satisfies the invariant with no threads left has every left and right pointer as it was before the walk |
| TreeMorris.MorrisInorder | src/tree.cpp:140-165 | Morris traversal visits exactly the recursive inorder sequence, and on return every node's left and right pointers are as they were before the call |
| TreeSample.ValuesOf | src/tree.cpp:226 | the printer emits, in order, the value of each visited node |
| TreeSample.SampleOrders | src/tree.cpp:216-229 | on the tree 1(2(4, 5), 3(-, 6(7, -))) the reference orders are 1 2 4 5 3 6 7, 4 2 5 1 3 7 6 and 4 5 2 7 6 3 1 |
| TreeSample.MakeNode | src/tree.cpp:207-213 | `node(val, l, r)` returns a fresh node that holds `val` and sits on top of the two given trees, and no node of the result is shared |
| TreeSample.LeftSample | src/tree.cpp:217-219 | `node(2, node(4), node(5))` builds the subtree 2(4, 5) from fresh distinct nodes |
| TreeSample.RightSample | src/tree.cpp:220-224 | `node(3, nullptr, node(6, node(7), nullptr))` builds the subtree 3(-, 6(7, -)) from fresh distinct nodes |
| TreeSample.SampleTree | src/tree.cpp:216-224 | the sample tree is built from fresh distinct nodes with values 1 to 7 in the given shape |
| TreeSample.PreorderSample | src/tree.cpp:231 | iterative preorder prints 1 2 4 5 3 6 7 on the sample tree |
| TreeSample.InorderSample | src/tree.cpp:232-233 | both stack-based inorder walks print 4 2 5 1 3 7 6 on the sample tree |
| TreeSample.MorrisSample | src/tree.cpp:234-235 | Morris inorder prints 4 2 5 1 3 7 6 and leaves the tree intact, so iterative postorder run after it prints 4 5 2 7 6 3 1 |
| ArrayStacks.Insert | src/array.cpp:84-88 | inserting at `i` puts the value at `i`, keeps the earlier elements, and moves the later ones up by one |
| ArrayStacks.Delete | src/array.cpp:93-97 | removing at `i` keeps the earlier elements and moves the later ones down by one |
| ArrayStacks.InsertDeleteInverse | src/array.cpp:79-106 | removing what was just inserted at an index restores the contents, and so does re-inserting what was just removed |
| ArrayStacks.InsertByElements | src/array.cpp:84-88 | a sequence that agrees slot by slot with the shifted insertion is the insertion |
| ArrayStacks.DeleteByElements | src/array.cpp:95-97 | a sequence that agrees slot by slot with the shifted removal is the removal |
| ArrayStacks.AddCapacityAsWritten | src/array.cpp:80-82 | the capacity after `add` as written: never below the old capacity or the length, and unchanged while there is room |
| ArrayStacks.AddCapacityAsWrittenRoom | src/array.cpp:80-82 | as written, `add` has room for the new element exactly when the buffer was not full or the stack holds at least two elements |
| ArrayStacks.AddAfterDrainOverflows | src/array.cpp:101-103 | from capacity 4, adding one element and removing it shrinks the buffer to 0 slots, and the next `add` still has no slot for its element |
| ArrayStacks.GrowCapacity | src/array.cpp:110 | the corrected growth is `length + length/2` from two elements on, and always leaves at least one free slot |
| ArrayStacks.AddCapacity | src/array.cpp:80-82 | the corrected capacity after `add` (see Findings): kept when there is room, otherwise grown by `GrowCapacity`; either way there is room for the new element, which the source does not ensure at length 0 or 1 |
| ArrayStacks.RemoveCapacity | src/array.cpp:101-103 | `remove` shrinks to `length + length/2` exactly when the buffer is at least three times the length; it never grows and never drops below the length, and afterwards it is under three times a non-zero length |
| ArrayStacks.RawArray.constructor | src/array.cpp:11-13 | a fresh buffer of the requested number of slots |
| ArrayStacks.RawArray.Put | src/array.cpp:19-21 | writing through `operator[]` changes exactly one slot; reading it back with `At`, the read half of `operator[]`, gives the value written, and every other slot reads as before |
| ArrayStacks.RawArray.Size | src/array.cpp:23-25 | the size is the number of slots, and 0 once the buffer has been moved from |
| ArrayStacks.RawArray.MoveFrom | src/array.cpp:31-41 | move assignment takes the source's storage and size and leaves the source with null storage and size 0 |
| ArrayStacks.ArrayStack.constructor | src/array.cpp:56-57 | an empty stack with the requested capacity |
| ArrayStacks.ArrayStack.Default | src/array.cpp:53-54 | an empty stack with capacity 4 |
| ArrayStacks.ArrayStack.Size | src/array.cpp:59-61 | the size is the number of elements |
| ArrayStacks.ArrayStack.Get | src/array.cpp:63-65 | reads the slot at `idx`, which is the element at `idx` when `idx` is below the size |
| ArrayStacks.ArrayStack.Set | src/array.cpp:67-77 | returns the previous slot content and changes only that slot, and the element there when it is occupied |
| ArrayStacks.ArrayStack.Add | src/array.cpp:79-90 | the new contents are the old ones with the value inserted at `idx`; the capacity is the old one, or the grown one when the buffer was full |
| ArrayStacks.ArrayStack.ShiftUp | src/array.cpp:84-86 | the elements from `idx` on move up one slot, and those before `idx` stay |
| ArrayStacks.ArrayStack.Remove | src/array.cpp:92-106 | returns the element at `idx`; the new contents are the old ones without it; the capacity shrinks as `RemoveCapacity` says |
| ArrayStacks.ArrayStack.ShiftDown | src/array.cpp:95-97 | the elements after `idx` move down one slot, and those before `idx` stay |
| ArrayStacks.ArrayStack.Resize | src/array.cpp:109-117 | reallocation keeps the elements in order and gives the buffer the requested capacity |
| ArrayStacks.ReadBack | src/array.cpp:126-128 | reading slots 0 to size-1 with `get` yields the contents |
| ArrayStacks.TestAdd | src/array.cpp:120-130 | adding 0 to count-1, each at its own index, to an empty stack gives size `count` and `get(i) == i` |
| ArrayStacks.TestSet | src/array.cpp:132-140 | overwriting the first and the last slots changes those two elements only, and reading them back gives the values written |
| ArrayStacks.TestRemove | src/array.cpp:142-154 | removing the first and then the last element leaves the inner elements, two fewer |
| ArrayStacks.ArrayStackTest | src/array.cpp:165-173 | the test driver adds 0 to 5, replaces the ends with 23 and 32, and after removing both ends reads back 1 to 4 |
| LinkedLists.Node.constructor | src/list.cpp:11-12 | a new node holds the value and links nowhere |
| LinkedLists.SinglyLinkedList.constructor | src/list.cpp:21 | an empty list |
| LinkedLists.SinglyLinkedList.EndsAgree | src/list.cpp:15-17 | `head` is null exactly when `tail` is null, exactly when the length is 0; the tail links nowhere; a one-element list has head equal to tail |
| LinkedLists.SinglyLinkedList.Size | src/list.cpp:48-50 | the size is the number of elements |
| LinkedLists.SinglyLinkedList.Empty | src/list.cpp:52-54 | the list is empty exactly when it has no elements |
| LinkedLists.SinglyLinkedList.Peek | src/list.cpp:56-59 | on a non-empty list, returns the first element and changes nothing |
| LinkedLists.SinglyLinkedList.Add | src/list.cpp:61-72 | appends the value behind the tail; on an empty list the new node becomes both ends |
| LinkedLists.SinglyLinkedList.Remove | src/list.cpp:74-87 | on a non-empty list, returns the first element and drops it; removing the only element clears both ends |
| LinkedLists.SinglyLinkedList.Push | src/list.cpp:89-101 | puts the value in front of the head; on an empty list the new node becomes both ends |
| LinkedLists.SinglyLinkedList.Pop | src/list.cpp:103-105 | behaves exactly as `remove` |
| LinkedLists.AddRemoveTest | src/list.cpp:109-128 | appending 0 to 6 gives size 7 and first element 0; removing seven times yields 0 to 6 and leaves the list empty |
| LinkedLists.PushPopTest | src/list.cpp:130-150 | pushing 0 to 6 gives size 7 and first element 6; popping seven times yields 6 down to 0 and leaves the list empty |

## Left out

- Integer widths: the stack's `uint32_t` length and capacity and `size_t` indices are unbounded `nat`s here. `3 * length` and `length + length/2` wrap only past about 1.4 billion elements.
- The `cnt<N>` element type of `src/stat.hpp` and its construction, copy and move counters. Elements are a generic `T`, or `int` in the test drivers.
- Console output. `run_traverse`, the printing lambdas and the `std::cout` lines of the test drivers are not modelled. The visitor is modelled as appending to a sequence, and a printed value is a method result.
- `std::function` dispatch of the visitor is replaced by that append.
- Destructors and `delete`, including the teardown of the sample tree by a postorder `delete` (`src/tree.cpp:237`). Dafny memory is garbage-collected.
- The `array` move constructor (`src/array.cpp:27-29`). Its `*this = rhs` names the deleted copy assignment, so it is never instantiated.
- Move construction and move assignment of `SinglyLinkedList` (`src/list.cpp:25-38`). They are ownership plumbing, not list behaviour.
- Move-versus-copy semantics. Every `std::move` of an element is a plain value copy.
- `test_vector` (`src/array.cpp:156-163`) exercises `std::vector`, which is not part of this model.
- The default `tree_node` constructor (`src/tree.cpp:13`) is never used. The one-argument constructor and `node(val)` (`src/tree.cpp:15`, `src/tree.cpp:207-209`) are modelled as the three-argument constructor with two null children.
- ArrayStacks.ArrayStack.Get: returns the slot's value rather than a reference. Writing through the reference `get` returns, as `test_set` does, is modelled by `Set`. It also requires `idx` below the capacity, because reading past the buffer is undefined behaviour in the source.
- ArrayStacks.ArrayStack.Resize: takes the new capacity as a parameter. `Add` passes the corrected growth `GrowCapacity(length)` and `Remove` passes `length + length/2`.
- ArrayStacks.AddCapacity: is the corrected capacity, not the source's. As written (`AddCapacityAsWritten`), a full stack of length 0 or 1 gets no new slot, so `add` writes past the buffer. `AddCapacity` always leaves room.
- ArrayStacks.ArrayStack.Add: uses the corrected growth (see Findings). As written, growth at length 0 or 1 leaves no free slot, and the model states this through `AddCapacityAsWritten` instead of writing past a buffer.

## Findings

| source | as written | input that shows it | evidently intended | confidence | as-written member | corrected member |
|---|---|---|---|---|---|---|
| src/tree.cpp:169-205 | `iterative_postorder` pushes the root without checking it, and a null top entry is popped and passed to the visitor | `root == nullptr`: the visitor is called once with null, and the sample printer would dereference it | no visit for an empty tree, as the recursive postorder and the other walks do | not executed | TreeTraversals.IterativePostorder | TreeTraversals.GuardedPostorder |
| src/array.cpp:80-82, 101-103, 110 | growth to `length + length/2` adds no slot when the length is 0 or 1, and shrinking on `remove` can leave 0 or 1 slots | `ArrayStack(4)`: `add(0, x)` then `remove(0)` shrinks the buffer to 0 slots; the next `add(0, y)` resizes to 0 slots and writes slot 0 past the buffer | growth always adds at least one slot | not executed | ArrayStacks.AddAfterDrainOverflows | ArrayStacks.GrowCapacity |
