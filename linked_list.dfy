/**
 * The singly linked list of src/list.cpp: heap nodes linked by `next`,
 * with pointers to both ends and an element count, so that appending at
 * the tail, prepending at the head and removing from the head each take one
 * step.
 *
 * The ghost `Spine` lists the nodes from head to tail, `Contents` their
 * values; `Repr` is the list object and its nodes.
 */
module LinkedLists {

  /** `SinglyLinkedList<T>::Node`. */
  class Node<T> {
    var next: Node?<T>
    var value: T

    constructor (value: T)
      ensures this.value == value && next == null
    {
      this.value := value;
      next := null;
    }
  }

  class SinglyLinkedList<T> {
    var head: Node?<T>
    var tail: Node?<T>
    var length: nat
    ghost var Contents: seq<T>
    ghost var Spine: seq<Node<T>>
    ghost var Repr: set<object>

    /**
     * The nodes of `Spine` are distinct, each links to the next, the last
     * one links nowhere; `head` and `tail` are the first and last of them,
     * or both null when there is none; `length` counts them.
     */
    ghost predicate Valid()
      reads this, Repr
    {
      && this in Repr
      && (forall i :: 0 <= i < |Spine| ==> Spine[i] in Repr)
      && |Spine| == |Contents| == length
      && (forall i, j :: 0 <= i < j < |Spine| ==> Spine[i] != Spine[j])
      && (forall i :: 0 <= i < |Spine| ==> Spine[i].value == Contents[i])
      && (forall i :: 0 <= i < |Spine| - 1 ==> Spine[i].next == Spine[i + 1])
      && (length == 0 ==> head == null && tail == null)
      && (length > 0 ==> head == Spine[0] && tail == Spine[length - 1] && tail.next == null)
    }

    /** `SinglyLinkedList()`: the empty list. */
    constructor ()
      ensures Valid() && fresh(Repr) && Contents == []
    {
      head, tail, length := null, null, 0;
      Contents, Spine := [], [];
      Repr := {this};
    }

    /** Both ends are null exactly when the list is empty, and the tail links nowhere. */
    lemma EndsAgree()
      requires Valid()
      ensures head == null <==> length == 0
      ensures tail == null <==> length == 0
      ensures tail != null ==> tail.next == null
      ensures length == 1 ==> head == tail
    {
    }

    /** `size()`: the number of elements. */
    method Size() returns (n: nat)
      requires Valid()
      ensures n == |Contents|
    {
      n := length;
    }

    /** `empty()`: whether there are no elements. */
    method Empty() returns (b: bool)
      requires Valid()
      ensures b <==> Contents == []
    {
      b := length == 0;
    }

    /** `peek()`: the first element, which must exist; nothing changes. */
    method Peek() returns (v: T)
      requires Valid() && Contents != []
      ensures v == Contents[0]
    {
      v := head.value;
    }

    /** `add(value)`: `value` is appended behind the tail. */
    method Add(value: T)
      requires Valid()
      modifies Repr
      ensures Valid() && fresh(Repr - old(Repr))
      ensures Contents == old(Contents) + [value]
    {
      var node := new Node(value);
      if tail == null {
        head, tail := node, node;
      } else {
        tail.next := node;
        tail := node;
      }
      length := length + 1;
      Contents, Spine := Contents + [value], Spine + [node];
      Repr := Repr + {node};
    }

    /** `push(value)`: `value` is put in front of the head. */
    method Push(value: T)
      requires Valid()
      modifies Repr
      ensures Valid() && fresh(Repr - old(Repr))
      ensures Contents == [value] + old(Contents)
    {
      var node := new Node(value);
      if tail == null {
        head, tail := node, node;
      } else {
        node.next := head;
        head := node;
      }
      length := length + 1;
      Contents, Spine := [value] + Contents, [node] + Spine;
      Repr := Repr + {node};
    }

    /**
     * `remove()`: the first element, which must exist, is unlinked and
     * returned; removing the only one clears both ends.
     */
    method Remove() returns (v: T)
      requires Valid() && Contents != []
      modifies Repr
      ensures Valid() && Repr < old(Repr)
      ensures v == old(Contents)[0] && Contents == old(Contents)[1..]
    {
      v := head.value;
      ghost var first := head;
      head := head.next;
      if head == null {
        tail := null;
      }
      length := length - 1;
      Contents, Spine := Contents[1..], Spine[1..];
      Repr := Repr - {first};
    }

    /** `pop()`: the same as `remove()`. */
    method Pop() returns (v: T)
      requires Valid() && Contents != []
      modifies Repr
      ensures Valid() && Repr < old(Repr)
      ensures v == old(Contents)[0] && Contents == old(Contents)[1..]
    {
      v := Remove();
    }
  }

  /**
   * `test_list_add` then `test_list_remove`: 0 to 6 appended, then removed
   * in the order they were appended, leaving the list empty.
   */
  method AddRemoveTest() returns (sizeAfterAdd: nat, first: int, removed: seq<int>, emptyAfter: bool)
    ensures sizeAfterAdd == 7 && first == 0
    ensures |removed| == 7 && forall i :: 0 <= i < 7 ==> removed[i] == i
    ensures emptyAfter
  {
    var list := new SinglyLinkedList<int>();
    var i := 0;
    while i != 7
      invariant 0 <= i <= 7
      invariant list.Valid() && fresh(list.Repr)
      invariant |list.Contents| == i && forall k :: 0 <= k < i ==> list.Contents[k] == k
    {
      list.Add(i);
      i := i + 1;
    }
    sizeAfterAdd := list.Size();
    first := list.Peek();
    removed := [];
    i := 0;
    while i != 7
      invariant 0 <= i <= 7
      invariant list.Valid() && fresh(list.Repr)
      invariant |list.Contents| == 7 - i && forall k :: 0 <= k < 7 - i ==> list.Contents[k] == i + k
      invariant |removed| == i && forall k :: 0 <= k < i ==> removed[k] == k
    {
      var c := list.Remove();
      removed := removed + [c];
      i := i + 1;
    }
    emptyAfter := list.Empty();
  }

  /**
   * `test_list_push` then `test_list_pop`: 0 to 6 pushed, then popped in the
   * reverse order, leaving the list empty.
   */
  method PushPopTest() returns (sizeAfterPush: nat, first: int, popped: seq<int>, emptyAfter: bool)
    ensures sizeAfterPush == 7 && first == 6
    ensures |popped| == 7 && forall i :: 0 <= i < 7 ==> popped[i] == 6 - i
    ensures emptyAfter
  {
    var list := new SinglyLinkedList<int>();
    var i := 0;
    while i != 7
      invariant 0 <= i <= 7
      invariant list.Valid() && fresh(list.Repr)
      invariant |list.Contents| == i && forall k :: 0 <= k < i ==> list.Contents[k] == i - 1 - k
    {
      list.Push(i);
      i := i + 1;
    }
    sizeAfterPush := list.Size();
    first := list.Peek();
    popped := [];
    i := 0;
    while i != 7
      invariant 0 <= i <= 7
      invariant list.Valid() && fresh(list.Repr)
      invariant |list.Contents| == 7 - i && forall k :: 0 <= k < 7 - i ==> list.Contents[k] == 6 - i - k
      invariant |popped| == i && forall k :: 0 <= k < i ==> popped[k] == 6 - k
    {
      var c := list.Pop();
      popped := popped + [c];
      i := i + 1;
    }
    emptyAfter := list.Empty();
  }
}
