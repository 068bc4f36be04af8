/**
 * The bounded circular-buffer queue `TQueue<T>`: a backing array `memory` of
 * length `capacity`, with `size` live elements running from slot `front` to
 * slot `rear`, wrapping around modulo `capacity`.
 *
 * Every failure of the original (a negative capacity, a push onto a full
 * queue, a pop or peek on an empty one) is returned as an `Error` instead of
 * being thrown, and a failed call leaves the queue as it was.
 */
module Queue {
  import opened Ring

  /** The three ways an operation can fail. */
  datatype Error = NegativeCapacity | Full | Empty

  /** The outcome of an operation that returns nothing on success. */
  datatype Outcome = Pass | Fail(error: Error)

  /** The outcome of an operation that returns a value on success. */
  datatype Result<R> = Success(value: R) | Failure(error: Error)

  function Min(a: int, b: int): int
  {
    if a <= b then a else b
  }

  /**
   * Copies the `count` live elements of the ring `(src, srcFront)` into a fresh
   * array of length `newCapacity`, in FIFO order starting at index 0. This is
   * the loop shared by the copy constructor, copy assignment and Resize.
   */
  method Relinearize<T(0)>(src: array<T>, srcFront: int, count: int, newCapacity: int)
    returns (dst: array<T>)
    requires WellFormed(src[..], srcFront, count) && 0 <= count <= newCapacity
    ensures fresh(dst) && dst.Length == newCapacity
    ensures Live(dst[..], 0, count) == Live(src[..], srcFront, count)
  {
    dst := new T[newCapacity];
    for i := 0 to count
      invariant forall k :: 0 <= k < i ==> dst[k] == src[Slot(srcFront + k, src.Length)]
    {
      SlotIsMod(srcFront + i, src.Length);
      var sourceIndex := (srcFront + i) % src.Length;
      dst[i] := src[sourceIndex];
    }
    LiveFromZero(dst[..], count);
  }

  class TQueue<T(0, ==)> {
    var capacity: int
    var size: int
    var front: int
    var rear: int
    var memory: array<T>

    /**
     * The object invariant: the array has `capacity` slots, at most all of them
     * live; an empty queue sits in the canonical state `front == rear == 0`; a
     * non-empty one has its last element at `(front + size - 1) % capacity`,
     * written with `Slot`.
     */
    ghost predicate Valid()
      reads this
    {
      && memory.Length == capacity
      && 0 <= size <= capacity
      && (size == 0 ==> front == 0 && rear == 0)
      && (size > 0 ==> 0 <= front < capacity && rear == Slot(front + size - 1, capacity))
    }

    /** The live elements, oldest first. */
    ghost function Contents(): seq<T>
      reads this, memory
      requires Valid()
    {
      Live(memory[..], front, size)
    }

    /** The default constructor: no storage, capacity 0. */
    constructor ()
      ensures Valid() && fresh(memory)
      ensures capacity == 0 && size == 0 && front == 0 && rear == 0
      ensures Contents() == []
    {
      capacity, size, front, rear := 0, 0, 0, 0;
      memory := new T[0];
    }

    /** Construction with a capacity the caller has checked (see `NewQueue`). */
    constructor WithCapacity(capacity': nat)
      ensures Valid() && fresh(memory)
      ensures capacity == capacity' && size == 0 && front == 0 && rear == 0
      ensures Contents() == []
    {
      capacity, size, front, rear := capacity', 0, 0, 0;
      memory := new T[capacity'];
    }

    /** The copy constructor: same capacity, same live elements, re-linearised from index 0. */
    constructor Copy(other: TQueue<T>)
      requires other.Valid()
      ensures Valid() && fresh(memory)
      ensures capacity == other.capacity && size == other.size
      ensures front == 0 && rear == (if size > 0 then size - 1 else 0)
      ensures Contents() == other.Contents()
    {
      capacity := other.capacity;
      size := other.size;
      front := 0;
      rear := if other.size > 0 then other.size - 1 else 0;
      var linear := Relinearize(other.memory, other.front, other.size, other.capacity);
      memory := linear;
    }

    /** The move constructor: takes over the other queue's state and array, and leaves it empty with capacity 0. */
    constructor Move(other: TQueue<T>)
      requires other.Valid()
      modifies other
      ensures Valid() && other.Valid()
      ensures capacity == old(other.capacity) && size == old(other.size)
      ensures front == old(other.front) && rear == old(other.rear) && memory == old(other.memory)
      ensures Contents() == old(other.Contents())
      ensures other.capacity == 0 && other.size == 0 && other.front == 0 && other.rear == 0
      ensures other.Contents() == []
    {
      capacity := other.capacity;
      size := other.size;
      front := other.front;
      rear := other.rear;
      memory := other.memory;
      other.memory := new T[0];
      other.capacity, other.size, other.front, other.rear := 0, 0, 0, 0;
    }

    /** Copy assignment: a no-op on itself, otherwise the state of the copy constructor. */
    method CopyAssign(other: TQueue<T>)
      requires Valid() && other.Valid()
      modifies this
      ensures Valid()
      ensures this == other ==> unchanged(this)
      ensures this != other ==>
                && fresh(memory)
                && capacity == other.capacity && size == other.size
                && front == 0 && rear == (if size > 0 then size - 1 else 0)
      ensures Contents() == old(other.Contents())
    {
      if this == other {
        return;
      }
      capacity := other.capacity;
      size := other.size;
      front := 0;
      rear := if size > 0 then size - 1 else 0;
      memory := Relinearize(other.memory, other.front, other.size, other.capacity);
    }

    /** Move assignment: a no-op on itself, otherwise the state transfer of the move constructor. */
    method MoveAssign(other: TQueue<T>)
      requires Valid() && other.Valid()
      modifies this, other
      ensures Valid() && other.Valid()
      ensures this == other ==> unchanged(this)
      ensures this != other ==>
                && capacity == old(other.capacity) && size == old(other.size)
                && front == old(other.front) && rear == old(other.rear) && memory == old(other.memory)
                && Contents() == old(other.Contents())
                && other.capacity == 0 && other.size == 0 && other.front == 0 && other.rear == 0
                && other.Contents() == []
    {
      if this == other {
        return;
      }
      capacity := other.capacity;
      size := other.size;
      front := other.front;
      rear := other.rear;
      memory := other.memory;
      other.memory := new T[0];
      other.capacity, other.size, other.front, other.rear := 0, 0, 0, 0;
    }

    /** Appends `value` at the back; fails, changing nothing, when the queue is full. */
    method Push(value: T) returns (status: Outcome)
      requires Valid()
      modifies this, memory
      ensures Valid() && capacity == old(capacity) && memory == old(memory)
      ensures status == if old(size) == old(capacity) then Fail(Full) else Pass
      ensures status.Fail? ==> unchanged(this) && unchanged(memory)
      ensures status.Pass? ==>
                && size == old(size) + 1
                && front == old(front)
                && rear == (if old(size) == 0 then 0 else Slot(old(rear) + 1, capacity))
                && Contents() == old(Contents()) + [value]
    {
      if size == capacity {
        return Fail(Full);
      }
      ghost var before := memory[..];
      if size == 0 {
        front := 0;
        rear := 0;
      } else {
        SlotIsMod(rear + 1, capacity);
        rear := (rear + 1) % capacity;
      }
      LiveAppend(before, front, size, value);
      memory[rear] := value;
      assert memory[..] == before[Slot(front + size, capacity) := value];
      size := size + 1;
      status := Pass;
    }

    /** Removes the front element; fails, changing nothing, when the queue is empty. */
    method Pop() returns (status: Outcome)
      requires Valid()
      modifies this
      ensures Valid() && capacity == old(capacity) && memory == old(memory)
      ensures status == if old(size) == 0 then Fail(Empty) else Pass
      ensures status.Fail? ==> unchanged(this)
      ensures status.Pass? ==>
                && size == old(size) - 1
                && front == (if size == 0 then 0 else Slot(old(front) + 1, capacity))
                && rear == (if size == 0 then 0 else old(rear))
                && Contents() == old(Contents())[1..]
    {
      if size == 0 {
        return Fail(Empty);
      }
      LiveAdvance(memory[..], front, size);
      SlotIsMod(front + 1, capacity);
      front := (front + 1) % capacity;
      size := size - 1;
      if size == 0 {
        front := 0;
        rear := 0;
      }
      status := Pass;
    }

    /** The element at the front, which is the oldest live element. */
    method Front() returns (r: Result<T>)
      requires Valid()
      ensures r.Failure? <==> Contents() == []
      ensures r.Failure? ==> r.error == Empty
      ensures r.Success? ==> r.value == Contents()[0] && r.value == memory[front]
    {
      if size == 0 {
        return Failure(Empty);
      }
      r := Success(memory[front]);
    }

    /** The element at the back, which is the most recently pushed live element. */
    method Back() returns (r: Result<T>)
      requires Valid()
      ensures r.Failure? <==> Contents() == []
      ensures r.Failure? ==> r.error == Empty
      ensures r.Success? ==> r.value == Contents()[|Contents()| - 1] && r.value == memory[rear]
    {
      if size == 0 {
        return Failure(Empty);
      }
      r := Success(memory[rear]);
    }

    /** Writing through the reference `Front()` returns: only the oldest element changes. */
    method AssignFront(value: T) returns (status: Outcome)
      requires Valid()
      modifies memory
      ensures Valid()
      ensures status == if size == 0 then Fail(Empty) else Pass
      ensures status.Fail? ==> unchanged(memory)
      ensures status.Pass? ==> Contents() == old(Contents())[0 := value]
    {
      if size == 0 {
        return Fail(Empty);
      }
      ghost var before := memory[..];
      LiveUpdate(before, front, size, 0, value);
      memory[front] := value;
      assert memory[..] == before[Slot(front + 0, capacity) := value];
      status := Pass;
    }

    /** Writing through the reference `Back()` returns: only the newest element changes. */
    method AssignBack(value: T) returns (status: Outcome)
      requires Valid()
      modifies memory
      ensures Valid()
      ensures status == if size == 0 then Fail(Empty) else Pass
      ensures status.Fail? ==> unchanged(memory)
      ensures status.Pass? ==> Contents() == old(Contents())[size - 1 := value]
    {
      if size == 0 {
        return Fail(Empty);
      }
      ghost var before := memory[..];
      LiveUpdate(before, front, size, size - 1, value);
      memory[rear] := value;
      assert memory[..] == before[Slot(front + (size - 1), capacity) := value];
      status := Pass;
    }

    function IsEmpty(): (r: bool)
      reads this, memory
      requires Valid()
      ensures r <==> Contents() == []
    {
      size == 0
    }

    function IsFull(): (r: bool)
      reads this, memory
      requires Valid()
      ensures r <==> |Contents()| == memory.Length
    {
      size == capacity
    }

    function GetSize(): (r: int)
      reads this, memory
      requires Valid()
      ensures r == |Contents()|
    {
      size
    }

    function GetCapacity(): (r: int)
      reads this, memory
      requires Valid()
      ensures r == memory.Length && |Contents()| <= r
    {
      capacity
    }

    /**
     * Changes the capacity. The live elements are copied in FIFO order into a
     * fresh array from index 0; when the new capacity is smaller than the size,
     * the most recently pushed elements are dropped.
     */
    method Resize(newCapacity: int) returns (status: Outcome)
      requires Valid()
      modifies this
      ensures Valid()
      ensures status == if newCapacity < 0 then Fail(NegativeCapacity) else Pass
      ensures status.Fail? || newCapacity == old(capacity) ==> unchanged(this)
      ensures status.Pass? ==>
                && capacity == newCapacity
                && size == Min(old(size), newCapacity)
                && Contents() == old(Contents())[..size]
      ensures status.Pass? && newCapacity != old(capacity) ==>
                && fresh(memory)
                && front == 0 && rear == (if size > 0 then size - 1 else 0)
    {
      if newCapacity < 0 {
        return Fail(NegativeCapacity);
      }
      if capacity == newCapacity {
        LivePrefix(memory[..], front, size, size);
        return Pass;
      }
      var oldMemory := memory;
      var oldSize := size;
      var oldFront := front;
      capacity := newCapacity;
      if size > capacity {
        size := capacity;
      }
      front := 0;
      rear := if size > 0 then size - 1 else 0;
      LivePrefix(oldMemory[..], oldFront, oldSize, size);
      memory := Relinearize(oldMemory, oldFront, size, capacity);
      status := Pass;
    }

    /** `operator==`: equal sizes and equal elements position by position in FIFO order. */
    method Equals(other: TQueue<T>) returns (eq: bool)
      requires Valid() && other.Valid()
      ensures eq <==> Contents() == other.Contents()
    {
      if size != other.size {
        return false;
      }
      if capacity == 0 || other.capacity == 0 {
        return true;
      }
      for i := 0 to size
        invariant forall k :: 0 <= k < i ==> Contents()[k] == other.Contents()[k]
      {
        SlotIsMod(front + i, capacity);
        SlotIsMod(other.front + i, other.capacity);
        var thisIndex := (front + i) % capacity;
        var otherIndex := (other.front + i) % other.capacity;
        if memory[thisIndex] != other.memory[otherIndex] {
          assert Contents()[i] != other.Contents()[i];
          return false;
        }
      }
      return true;
    }

    /** `operator!=`: the negation of `Equals`. */
    method NotEquals(other: TQueue<T>) returns (ne: bool)
      requires Valid() && other.Valid()
      ensures ne <==> Contents() != other.Contents()
    {
      var eq := Equals(other);
      ne := !eq;
    }
  }

  /** Construction from an unchecked capacity: a negative one fails. */
  method NewQueue<T(0, ==)>(capacity: int) returns (r: Result<TQueue<T>>)
    ensures r.Failure? <==> capacity < 0
    ensures r.Failure? ==> r.error == NegativeCapacity
    ensures r.Success? ==>
              && fresh(r.value) && fresh(r.value.memory) && r.value.Valid()
              && r.value.capacity == capacity && r.value.Contents() == []
              && r.value.IsEmpty() && (r.value.IsFull() <==> capacity == 0)
  {
    if capacity < 0 {
      return Failure(NegativeCapacity);
    }
    var q := new TQueue<T>.WithCapacity(capacity);
    r := Success(q);
  }
}
