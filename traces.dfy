/**
 * Concrete scenarios from the queue's unit tests, restated as methods whose
 * postconditions are the values the tests expect. Each one is proved from the
 * contracts of the `TQueue` operations alone.
 */
module QueueTraces {
  import opened Queue

  /** The four construction tests: default, capacity 5, capacity 0, capacity -1. */
  method Construction() returns (defaultEmpty: bool, defaultFull: bool, fiveEmpty: bool, fiveFull: bool,
                                 zeroEmpty: bool, zeroFull: bool, negative: Result<TQueue<int>>)
    ensures defaultEmpty && defaultFull
    ensures fiveEmpty && !fiveFull
    ensures zeroEmpty && zeroFull
    ensures negative == Failure(NegativeCapacity)
  {
    var d := new TQueue<int>();
    defaultEmpty, defaultFull := d.IsEmpty(), d.IsFull();
    var five := NewQueue<int>(5);
    var q5 := five.value;
    fiveEmpty, fiveFull := q5.IsEmpty(), q5.IsFull();
    var zero := NewQueue<int>(0);
    var q0 := zero.value;
    zeroEmpty, zeroFull := q0.IsEmpty(), q0.IsFull();
    negative := NewQueue<int>(-1);
  }

  /** A third push into a queue of capacity 2 fails. */
  method PushOnFull() returns (third: Outcome, size: int)
    ensures third == Fail(Full) && size == 2
  {
    var q := new TQueue<int>.WithCapacity(2);
    var _ := q.Push(1);
    var _ := q.Push(2);
    third := q.Push(3);
    size := q.GetSize();
  }

  /** A fresh queue of the given capacity into which `values` have been pushed in order. */
  method Filled<T(0, ==)>(capacity: nat, values: seq<T>) returns (q: TQueue<T>)
    requires |values| <= capacity
    ensures fresh(q) && fresh(q.memory) && q.Valid()
    ensures q.capacity == capacity && q.Contents() == values
    ensures q.front == 0 && q.rear == (if |values| > 0 then |values| - 1 else 0)
  {
    q := new TQueue<T>.WithCapacity(capacity);
    for i := 0 to |values|
      invariant q.Valid() && fresh(q.memory) && q.capacity == capacity
      invariant q.Contents() == values[..i]
      invariant q.front == 0 && q.rear == (if i > 0 then i - 1 else 0)
    {
      var _ := q.Push(values[i]);
      assert values[..i + 1] == values[..i] + [values[i]];
    }
    assert values[..|values|] == values;
  }

  /**
   * Reading Front and popping until the queue is empty, from any valid state
   * (wrapped around the end of the array or not), yields the contents in
   * FIFO order and leaves the queue empty.
   */
  method DrainAll<T(0, ==)>(q: TQueue<T>) returns (drained: seq<T>)
    requires q.Valid()
    modifies q
    ensures q.Valid() && q.Contents() == [] && drained == old(q.Contents())
  {
    ghost var initial := q.Contents();
    drained := [];
    while !q.IsEmpty()
      invariant q.Valid()
      invariant q.memory == old(q.memory)
      invariant initial == drained + q.Contents()
      decreases |q.Contents()|
    {
      var value := TakeFront(q);
      drained := drained + [value];
    }
  }

  /** Front followed by Pop on a non-empty queue: the oldest element, and the rest stay queued. */
  method TakeFront<T(0, ==)>(q: TQueue<T>) returns (value: T)
    requires q.Valid() && q.Contents() != []
    modifies q
    ensures q.Valid() && q.memory == old(q.memory)
    ensures old(q.Contents()) == [value] + q.Contents()
  {
    ghost var before := q.Contents();
    var f := q.Front();
    var _ := q.Pop();
    value := f.value;
    assert before == [value] + q.Contents();
  }

  /**
   * The FIFO law, for any values and any capacity that holds them: pushing
   * them all and then reading Front and popping until empty gives them back
   * in the order they were pushed.
   */
  method FifoDrain<T(0, ==)>(capacity: nat, values: seq<T>) returns (drained: seq<T>, emptyAtEnd: bool)
    requires |values| <= capacity
    ensures drained == values && emptyAtEnd
  {
    var q := Filled(capacity, values);
    drained := DrainAll(q);
    emptyAtEnd := q.IsEmpty();
  }

  /** Push `v` into a queue that has room, then read both ends. */
  method PushPeek(q: TQueue<int>, v: int) returns (front: int, back: int)
    requires q.Valid() && |q.Contents()| < q.capacity
    modifies q, q.memory
    ensures q.Valid() && q.memory == old(q.memory) && q.capacity == old(q.capacity)
    ensures q.Contents() == old(q.Contents()) + [v]
    ensures front == q.Contents()[0] && back == v
  {
    var _ := q.Push(v);
    var f := q.Front();
    var b := q.Back();
    front, back := f.value, b.value;
  }

  /** One step of the wraparound scenario: pop the oldest, push `v`, then read both ends. */
  method PopPushPeek(q: TQueue<int>, v: int) returns (front: int, back: int)
    requires q.Valid() && q.Contents() != []
    modifies q, q.memory
    ensures q.Valid() && q.memory == old(q.memory) && q.capacity == old(q.capacity)
    ensures q.Contents() == old(q.Contents())[1..] + [v]
    ensures front == q.Contents()[0] && back == v
  {
    var _ := q.Pop();
    front, back := PushPeek(q, v);
  }

  /**
   * Capacity 3, filled with 1, 2, 3; then pop, push 4, pop, push 5, pop,
   * push 6. Front and back are read after the first pop and after each push,
   * as the live elements wrap around the array.
   */
  method CircularBuffer() returns (fronts: seq<int>, backs: seq<int>)
    ensures fronts == [2, 2, 3, 4] && backs == [3, 4, 5, 6]
  {
    var q := Filled(3, [1, 2, 3]);
    var _ := q.Pop();
    assert q.Contents() == [2, 3];
    var f := q.Front();
    var b := q.Back();
    var f2, b2 := PushPeek(q, 4);
    assert q.Contents() == [2, 3, 4];
    var f3, b3 := PopPushPeek(q, 5);
    assert q.Contents() == [3, 4, 5];
    var f4, b4 := PopPushPeek(q, 6);
    fronts, backs := [f.value, f2, f3, f4], [b.value, b2, b3, b4];
  }

  /**
   * Capacity 3 holding 1, 2; grow to 5, push 3 and 4; shrink to 2, which
   * keeps the two oldest elements; then shrink to 0.
   */
  method ResizeScenario() returns (grown: seq<int>, shrunk: seq<int>, shrunkCapacity: int,
                                   zeroEmpty: bool, zeroFull: bool)
    ensures grown == [5, 4, 1, 4]    // capacity, size, front, back after growing and two pushes
    ensures shrunk == [2, 2, 1, 2]   // capacity, size, front, back after shrinking to 2
    ensures shrunkCapacity == 2
    ensures zeroEmpty && zeroFull
  {
    var q := Filled(3, [1, 2]);
    var _ := q.Resize(5);
    assert q.Contents() == [1, 2];
    var _ := q.Push(3);
    var _ := q.Push(4);
    assert q.Contents() == [1, 2, 3, 4];
    var f := q.Front();
    var b := q.Back();
    grown := [q.GetCapacity(), q.GetSize(), f.value, b.value];
    var _ := q.Resize(2);
    assert q.Contents() == [1, 2];
    f := q.Front();
    b := q.Back();
    shrunk := [q.GetCapacity(), q.GetSize(), f.value, b.value];
    shrunkCapacity := q.GetCapacity();
    var _ := q.Resize(0);
    zeroEmpty, zeroFull := q.IsEmpty(), q.IsFull();
  }

  /**
   * Capacity 4: push 1..4, pop twice, push 5 and 6, so the live elements wrap
   * past the end of the array. The copy starts at slot 0 and still compares
   * equal, with front 3, back 6 and size 4.
   */
  method CopyOfWrapped() returns (equal: bool, front: int, back: int, size: int)
    ensures equal && front == 3 && back == 6 && size == 4
  {
    var original := Filled(4, [1, 2, 3, 4]);
    var _ := original.Pop();
    var _ := original.Pop();
    assert original.Contents() == [3, 4];
    var _ := original.Push(5);
    var _ := original.Push(6);
    assert original.Contents() == [3, 4, 5, 6];
    var copy := new TQueue<int>.Copy(original);
    equal := copy.Equals(original);
    var f := copy.Front();
    var b := copy.Back();
    front, back, size := f.value, b.value, copy.GetSize();
  }

  /**
   * Two capacity-4 queues built by the same pushes of 1, 2, 3 compare equal;
   * after each pops once and pushes 4 they still do, with front 2 and back 4.
   */
  method EqualityWithCircularBuffer() returns (equalBefore: bool, equalAfter: bool,
                                               fronts: seq<int>, backs: seq<int>)
    ensures equalBefore && equalAfter
    ensures fronts == [2, 2] && backs == [4, 4]
  {
    var q1 := Filled(4, [1, 2, 3]);
    var q2 := Filled(4, [1, 2, 3]);
    equalBefore := q1.Equals(q2);
    var f1, b1 := PopPushPeek(q1, 4);
    var f2, b2 := PopPushPeek(q2, 4);
    equalAfter := q1.Equals(q2);
    fronts, backs := [f1, f2], [b1, b2];
  }

  /**
   * Two queues of different capacities whose elements sit at different
   * slots: the capacity-3 one has wrapped (front at slot 1, rear at slot 0),
   * the capacity-5 one holds the same values from slot 0. They compare equal
   * because their FIFO sequences agree.
   */
  method EqualityIgnoresLayout() returns (equal: bool, notEqual: bool, layout: seq<int>)
    ensures equal && !notEqual
    ensures layout == [1, 0, 0, 2]   // wrapped front, wrapped rear, linear front, linear rear
  {
    var wrapped := Filled(3, [0, 7, 8]);
    var _ := wrapped.Pop();
    var _ := wrapped.Push(9);
    assert wrapped.Contents() == [7, 8, 9];
    var linear := Filled(5, [7, 8, 9]);
    equal := wrapped.Equals(linear);
    notEqual := wrapped.NotEquals(linear);
    layout := [wrapped.front, wrapped.rear, linear.front, linear.rear];
  }

  /** Capacity 3 holding 1, 2, 3: the copy has size 3, capacity 3, front 1, back 3 and compares equal. */
  method CopyConstructor() returns (size: int, capacity: int, front: int, back: int, equal: bool)
    ensures size == 3 && capacity == 3 && front == 1 && back == 3 && equal
  {
    var original := Filled(3, [1, 2, 3]);
    var copy := new TQueue<int>.Copy(original);
    size, capacity := copy.GetSize(), copy.GetCapacity();
    var f := copy.Front();
    var b := copy.Back();
    front, back := f.value, b.value;
    equal := copy.Equals(original);
  }

  /**
   * A copy of any queue compares equal to it. Writing `v` through the copy's
   * front reference and then popping the copy change only the copy: the
   * method's frame holds nothing that existed before it was called, so the
   * write is allowed only because the copy has an array of its own. After the
   * write the two are equal exactly when there was no front or it already
   * held `v`; after the pop, exactly when the queue was empty.
   */
  method CopyIsIndependent<T(0, ==)>(q: TQueue<T>, v: T)
    returns (equalAfterCopy: bool, equalAfterWrite: bool, equalAfterPop: bool)
    requires q.Valid()
    ensures equalAfterCopy
    ensures equalAfterWrite <==> q.Contents() == [] || q.Contents()[0] == v
    ensures equalAfterPop <==> q.Contents() == []
  {
    var copy := new TQueue<T>.Copy(q);
    equalAfterCopy := copy.Equals(q);
    var _ := copy.AssignFront(v);
    equalAfterWrite := copy.Equals(q);
    var _ := copy.Pop();
    equalAfterPop := copy.Equals(q);
  }
}
