/**
 * The growable array stack of src/array.cpp.
 *
 * `RawArray` is the owned buffer class `array<T>`: `length` default-built
 * slots, or no storage at all once its contents have been moved out.
 * `ArrayStack` keeps its elements in the first `length` slots of one such
 * buffer, shifts slots to insert and remove at an index, and replaces the
 * buffer by a fresh one when it is full or when it is at least three times
 * larger than needed. Shrinking gives `length + length/2` slots; growing
 * gives `length + length/2` slots, or one more slot than `length` when that
 * formula adds none (length 0 or 1), which corrects the source's growth.
 *
 * Element types are `T(0)`: `new T[n]` in the source default-constructs
 * every slot, and Dafny's auto-initialisable types play that role.
 */
module ArrayStacks {

  // ------------------------------------------------ abstract stack contents

  /** The contents after inserting `v` at index `i`. */
  function Insert<T>(s: seq<T>, i: nat, v: T): (r: seq<T>)
    requires i <= |s|
    ensures |r| == |s| + 1 && r[i] == v
    ensures forall k :: 0 <= k < i ==> r[k] == s[k]
    ensures forall k :: i < k < |r| ==> r[k] == s[k - 1]
  {
    s[..i] + [v] + s[i..]
  }

  /** The contents after removing the element at index `i`. */
  function Delete<T>(s: seq<T>, i: nat): (r: seq<T>)
    requires i < |s|
    ensures |r| == |s| - 1
    ensures forall k :: 0 <= k < i ==> r[k] == s[k]
    ensures forall k :: i <= k < |r| ==> r[k] == s[k + 1]
  {
    s[..i] + s[i + 1..]
  }

  /** Removing what was just inserted gives the contents back, and so does re-inserting what was just removed. */
  lemma InsertDeleteInverse<T>(s: seq<T>, i: nat, v: T)
    requires i <= |s|
    ensures Delete(Insert(s, i, v), i) == s
    ensures i < |s| ==> Insert(Delete(s, i), i, s[i]) == s
  {
    var r := Delete(Insert(s, i, v), i);
    assert |r| == |s|;
    forall k | 0 <= k < |s|
      ensures r[k] == s[k]
    {
      if k < i {
      } else {
        assert r[k] == Insert(s, i, v)[k + 1];
      }
    }
    if i < |s| {
      var q := Insert(Delete(s, i), i, s[i]);
      forall k | 0 <= k < |s|
        ensures q[k] == s[k]
      {
        if k > i {
          assert q[k] == Delete(s, i)[k - 1];
        }
      }
    }
  }

  /** A sequence that agrees with `Insert(s, i, v)` slot by slot is it. */
  lemma InsertByElements<T>(s: seq<T>, i: nat, v: T, r: seq<T>)
    requires i <= |s| && |r| == |s| + 1 && r[i] == v
    requires forall k :: 0 <= k < i ==> r[k] == s[k]
    requires forall k :: i < k < |r| ==> r[k] == s[k - 1]
    ensures r == Insert(s, i, v)
  {
  }

  /** A sequence that agrees with `Delete(s, i)` slot by slot is it. */
  lemma DeleteByElements<T>(s: seq<T>, i: nat, r: seq<T>)
    requires i < |s| && |r| == |s| - 1
    requires forall k :: 0 <= k < i ==> r[k] == s[k]
    requires forall k :: i <= k < |r| ==> r[k] == s[k + 1]
    ensures r == Delete(s, i)
  {
  }

  // ---------------------------------------------------------- capacities

  /** The capacity `add` leaves as written: when full, `length + length/2`. */
  function AddCapacityAsWritten(capacity: nat, length: nat): (c: nat)
    ensures c >= capacity && c >= length
    ensures capacity > length ==> c == capacity
  {
    if length + 1 > capacity then length + length / 2 else capacity
  }

  /**
   * As written, `add` has room for the new element exactly when the buffer
   * was not full or the stack already holds two elements: growing an empty
   * or one-element stack gives no new slot.
   */
  lemma AddCapacityAsWrittenRoom(capacity: nat, length: nat)
    ensures AddCapacityAsWritten(capacity, length) > length <==> capacity > length || length >= 2
  {
  }

  /**
   * A counterexample: a stack of capacity 4 that gets one element and loses
   * it shrinks to capacity 0, and the next `add` grows it to capacity 0 and
   * writes slot 0 past the end of the buffer.
   */
  lemma AddAfterDrainOverflows()
    ensures AddCapacityAsWritten(4, 0) == 4
    ensures RemoveCapacity(4, 0) == 0
    ensures !(0 < AddCapacityAsWritten(RemoveCapacity(AddCapacityAsWritten(4, 0), 0), 0))
  {
  }

  /** The capacity `add` grows to: `length + length/2`, but always at least one more slot. */
  function GrowCapacity(length: nat): (c: nat)
    ensures c > length && c >= length + length / 2
    ensures length >= 2 ==> c == length + length / 2
  {
    if length + length / 2 > length then length + length / 2 else length + 1
  }

  /** The capacity after `add`: unchanged when there is room, grown when full; in every case room for the new element. */
  function AddCapacity(capacity: nat, length: nat): (c: nat)
    ensures c > length
    ensures capacity > length ==> c == capacity
  {
    if length + 1 > capacity then GrowCapacity(length) else capacity
  }

  /**
   * The capacity after `remove` leaves `length` elements: the buffer shrinks
   * to `length + length/2` when it is at least three times the length. It
   * never grows, always keeps room for the elements, and afterwards is less
   * than three times the length unless the stack is empty.
   */
  function RemoveCapacity(capacity: nat, length: nat): (c: nat)
    ensures length <= capacity ==> length <= c <= capacity
    ensures length > 0 ==> c < 3 * length
    ensures capacity >= 3 * length ==> c == length + length / 2
  {
    if capacity >= 3 * length then length + length / 2 else capacity
  }

  // ------------------------------------------------------------- array<T>

  /** `array<T>`: an owned buffer of `length` slots; `storage` is null once moved from. */
  class RawArray<T(0)> {
    var storage: array?<T>
    var length: nat

    ghost predicate Valid()
      reads this
    {
      if storage == null then length == 0 else storage.Length == length
    }

    /** `array(length)`: a fresh buffer of `length` default-built slots. */
    constructor (length: nat)
      ensures Valid() && storage != null && fresh(storage) && this.length == length
    {
      storage := new T[length];
      this.length := length;
    }

    /** `operator[]`, read. */
    function At(idx: nat): T
      reads this, storage
      requires Valid() && idx < length
    {
      storage[idx]
    }

    /** `operator[]`, write: slot `idx` becomes `v`, no other slot changes. */
    method Put(idx: nat, v: T)
      requires Valid() && idx < length
      modifies storage
      ensures storage[..] == old(storage[..])[idx := v]
      ensures Valid() && At(idx) == v
      ensures forall j :: 0 <= j < length && j != idx ==> At(j) == old(At(j))
    {
      storage[idx] := v;
    }

    /** `size()`: the number of slots, none once moved from. */
    method Size() returns (n: nat)
      requires Valid()
      ensures storage == null ==> n == 0
      ensures storage != null ==> n == storage.Length
    {
      n := length;
    }

    /**
     * Move assignment: this buffer takes over the storage and size of `rhs`,
     * which is left with no storage and size 0. Moving a buffer onto itself
     * leaves it empty.
     */
    method MoveFrom(rhs: RawArray<T>)
      modifies this, rhs
      ensures rhs.storage == null && rhs.length == 0
      ensures rhs != this ==> storage == old(rhs.storage) && length == old(rhs.length)
      ensures old(rhs.Valid()) ==> Valid() && rhs.Valid()
    {
      storage := rhs.storage;
      length := rhs.length;
      rhs.storage := null;
      rhs.length := 0;
    }
  }

  // --------------------------------------------------------- ArrayStack<T>

  /** `ArrayStack<T>`: the elements are the first `length` slots of `buffer`. */
  class ArrayStack<T(0)> {
    const buffer: RawArray<T>
    var length: nat
    ghost var Contents: seq<T>
    ghost var Repr: set<object>

    ghost predicate Valid()
      reads this, Repr
    {
      && this in Repr && buffer in Repr
      && buffer.storage != null && buffer.storage in Repr
      && buffer.Valid()
      && length <= buffer.length
      && Contents == buffer.storage[..length]
    }

    /** The number of slots of the buffer. */
    ghost function Capacity(): nat
      reads this, buffer
    {
      buffer.length
    }

    /** `ArrayStack(capacity)`: an empty stack with `capacity` slots. */
    constructor (capacity: nat)
      ensures Valid() && fresh(Repr) && Contents == [] && Capacity() == capacity
    {
      buffer := new RawArray(capacity);
      length := 0;
      new;
      Contents := [];
      Repr := {this, buffer, buffer.storage};
    }

    /** `ArrayStack()`: an empty stack with 4 slots. */
    constructor Default()
      ensures Valid() && fresh(Repr) && Contents == [] && Capacity() == 4
    {
      buffer := new RawArray(4);
      length := 0;
      new;
      Contents := [];
      Repr := {this, buffer, buffer.storage};
    }

    /** `size()`: the number of elements. */
    method Size() returns (n: nat)
      requires Valid()
      ensures n == |Contents|
    {
      n := length;
    }

    /** `get(idx)`: the slot `idx` of the buffer, which is the element at `idx` when there is one. */
    method Get(idx: nat) returns (v: T)
      requires Valid() && idx < Capacity()
      ensures idx < |Contents| ==> v == Contents[idx]
      ensures v == buffer.storage[idx]
    {
      v := buffer.At(idx);
    }

    /**
     * `set(idx, val)`: slot `idx` becomes `val` and its previous value is
     * returned; no other slot changes.
     */
    method Set(idx: nat, val: T) returns (prev: T)
      requires Valid() && idx < Capacity()
      modifies Repr
      ensures Valid() && Repr == old(Repr) && Capacity() == old(Capacity())
      ensures prev == old(buffer.storage[idx])
      ensures buffer.storage[..] == old(buffer.storage[..])[idx := val]
      ensures Contents == if idx < old(|Contents|) then old(Contents)[idx := val] else old(Contents)
    {
      prev := buffer.At(idx);
      buffer.Put(idx, val);
      Contents := buffer.storage[..length];
    }

    /**
     * `add(idx, val)`: `val` is inserted at `idx`, the elements from `idx`
     * on move one slot up; a full buffer is first grown.
     */
    method Add(idx: nat, val: T)
      requires Valid() && idx <= |Contents|
      modifies Repr
      ensures Valid() && fresh(Repr - old(Repr))
      ensures Contents == Insert(old(Contents), idx, val)
      ensures Capacity() == AddCapacity(old(Capacity()), old(|Contents|))
    {
      if length + 1 > buffer.length {
        Resize(GrowCapacity(length));
      }
      ShiftUp(idx);
      buffer.Put(idx, val);
      length := length + 1;
      InsertByElements(Contents, idx, val, buffer.storage[..length]);
      Contents := buffer.storage[..length];
    }

    /**
     * The loop of `add`: the elements from `idx` on move one slot up, the
     * last one into the free slot at `length`; the slots below `idx` keep
     * their elements.
     */
    method ShiftUp(idx: nat)
      requires Valid() && idx <= length < buffer.length
      modifies buffer.storage
      ensures forall k :: 0 <= k < idx ==> buffer.storage[k] == Contents[k]
      ensures forall k :: idx < k <= length ==> buffer.storage[k] == Contents[k - 1]
    {
      var i := length;
      while i > idx
        invariant idx <= i <= length
        invariant forall k :: 0 <= k < i ==> buffer.storage[k] == Contents[k]
        invariant forall k :: i < k <= length ==> buffer.storage[k] == Contents[k - 1]
      {
        buffer.Put(i, buffer.At(i - 1));
        i := i - 1;
      }
    }

    /**
     * `remove(idx)`: the element at `idx` is returned and the ones after it
     * move one slot down; a buffer at least three times the new length is
     * then shrunk.
     */
    method Remove(idx: nat) returns (v: T)
      requires Valid() && idx < |Contents|
      modifies Repr
      ensures Valid() && fresh(Repr - old(Repr))
      ensures v == old(Contents)[idx]
      ensures Contents == Delete(old(Contents), idx)
      ensures Capacity() == RemoveCapacity(old(Capacity()), |Contents|)
    {
      v := buffer.At(idx);
      ShiftDown(idx);
      length := length - 1;
      DeleteByElements(Contents, idx, buffer.storage[..length]);
      Contents := buffer.storage[..length];
      if buffer.length >= 3 * length {
        Resize(length + length / 2);
      }
    }

    /**
     * The loop of `remove`: the elements after `idx` move one slot down over
     * it; the slots below `idx` keep their elements.
     */
    method ShiftDown(idx: nat)
      requires Valid() && idx < length
      modifies buffer.storage
      ensures forall k :: 0 <= k < idx ==> buffer.storage[k] == Contents[k]
      ensures forall k :: idx <= k < length - 1 ==> buffer.storage[k] == Contents[k + 1]
    {
      var i := idx;
      while i < length - 1
        invariant idx <= i <= length - 1
        invariant forall k :: 0 <= k < idx ==> buffer.storage[k] == Contents[k]
        invariant forall k :: idx <= k < i ==> buffer.storage[k] == Contents[k + 1]
        invariant forall k :: i <= k < length ==> buffer.storage[k] == Contents[k]
      {
        buffer.Put(i, buffer.At(i + 1));
        i := i + 1;
      }
    }

    /**
     * `resize()`: the elements are copied in order into a fresh buffer of
     * `capacity` slots, which then replaces the old one.
     */
    method Resize(capacity: nat)
      requires Valid() && length <= capacity
      modifies Repr
      ensures Valid() && fresh(Repr - old(Repr))
      ensures length == old(length) && Contents == old(Contents)
      ensures Capacity() == capacity
    {
      var next := new RawArray(capacity);
      var i := 0;
      while i < length
        modifies next.storage
        invariant i <= length
        invariant forall k :: 0 <= k < i ==> next.storage[k] == Contents[k]
      {
        next.Put(i, buffer.At(i));
        i := i + 1;
      }
      buffer.MoveFrom(next);
      Repr := {this, buffer, buffer.storage};
      assert buffer.storage[..length] == Contents;
    }
  }

  /** The elements read back one by one with `get`, as the test drivers check them. */
  method ReadBack<T(0)>(stack: ArrayStack<T>) returns (elements: seq<T>)
    requires stack.Valid()
    ensures elements == stack.Contents
  {
    var n := stack.Size();
    elements := [];
    var i := 0;
    while i < n
      invariant 0 <= i <= n == |stack.Contents|
      invariant elements == stack.Contents[..i]
    {
      var x := stack.Get(i);
      elements := elements + [x];
      i := i + 1;
    }
  }

  /** `test_add`: `count` elements appended to an empty stack, each equal to its index. */
  method TestAdd(stack: ArrayStack<int>, count: nat)
    requires stack.Valid() && stack.Contents == []
    modifies stack.Repr
    ensures stack.Valid() && fresh(stack.Repr - old(stack.Repr))
    ensures |stack.Contents| == count && forall i :: 0 <= i < count ==> stack.Contents[i] == i
  {
    var i := 0;
    while i < count
      invariant 0 <= i <= count
      invariant stack.Valid() && fresh(stack.Repr - old(stack.Repr))
      invariant |stack.Contents| == i && forall k :: 0 <= k < i ==> stack.Contents[k] == k
    {
      stack.Add(i, i);
      i := i + 1;
    }
  }

  /** `test_set`: the first and the last element overwritten with 23 and 32. */
  method TestSet(stack: ArrayStack<int>) returns (first: int, last: int)
    requires stack.Valid() && stack.Contents != []
    modifies stack.Repr
    ensures stack.Valid() && stack.Repr == old(stack.Repr)
    ensures first == old(stack.Contents)[0] && last == old(stack.Contents)[0 := 23][|old(stack.Contents)| - 1]
    ensures stack.Contents == old(stack.Contents)[0 := 23][|old(stack.Contents)| - 1 := 32]
  {
    var n := stack.Size();
    first := stack.Set(0, 23);
    last := stack.Set(n - 1, 32);
  }

  /** `test_remove`: the first and the last element removed. */
  method TestRemove(stack: ArrayStack<int>)
    requires stack.Valid() && |stack.Contents| >= 2
    modifies stack.Repr
    ensures stack.Valid() && fresh(stack.Repr - old(stack.Repr))
    ensures stack.Contents == old(stack.Contents)[1..|old(stack.Contents)| - 1]
  {
    ghost var s := stack.Contents;
    var a := stack.Remove(0);
    assert stack.Contents == s[1..];
    var n := stack.Size();
    var b := stack.Remove(n - 1);
    assert stack.Contents == s[1..][..n - 1];
  }

  /**
   * `test_array_stack`: on a stack of capacity 4, six elements are added
   * and read back as 0 to 5; the first and last are overwritten; after the
   * first and last are removed the rest reads back as 1 to 4.
   */
  method ArrayStackTest() returns (added: seq<int>, replaced: seq<int>, remaining: seq<int>)
    ensures |added| == 6 && forall i :: 0 <= i < 6 ==> added[i] == i
    ensures replaced == [0, 5]
    ensures |remaining| == 4 && forall i :: 0 <= i < 4 ==> remaining[i] == i + 1
  {
    var stack := new ArrayStack<int>(4);
    TestAdd(stack, 6);
    added := ReadBack(stack);
    var first, last := TestSet(stack);
    replaced := [first, last];
    TestRemove(stack);
    remaining := ReadBack(stack);
  }
}
