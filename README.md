# TQueue: a verified model of a bounded circular-buffer queue

This project models `TQueue<T>` from `structures/TQueue.hpp`. It is a
fixed-capacity FIFO queue kept in a ring buffer. A backing array `memory`
has `capacity` slots. The `size` live elements run from slot `front` to slot
`rear`, and the indices wrap modulo `capacity`. An empty queue always sits
in the canonical state `front == rear == 0`.

Files:

- `ring.dfy` (module `Ring`): the logical view of a ring buffer. `Live(buf, front, size)`
  is the sequence `buf[(front + i) % |buf|]` for `i` in `[0, size)`. Every index the queue
  reduces is below `2 * |buf|`, so the contracts write the reduction as `Slot`, a single
  conditional subtraction, and `SlotIsMod` ties it to `%`. Beside it are the lemmas on what
  writing a slot, advancing the front or re-linearising does to that view.
- `queue.dfy` (module `Queue`): the class `TQueue<T>`. It has the source's fields
  (`capacity`, `size`, `front`, `rear`, `memory`), the object invariant `Valid()`
  and the abstract contents `Contents() == Live(memory[..], front, size)`. Every
  constructor, assignment operator and member function is a constructor, method
  or function whose contract is stated against `Contents()`.
- `traces.dfy` (module `QueueTraces`): the scenarios of `test/test_queue.cpp` as
  methods whose postconditions are the values the tests expect. The FIFO law is
  proved for any valid queue, wrapped or not. For any queue, a copy is proved to
  compare equal and to take writes without touching the original.

Each `throw` of the source becomes a returned error. The `Error` kinds are
`NegativeCapacity`, `Full` and `Empty`. A failed call leaves the queue
unchanged, and the contracts say so. A C++ `nullptr` buffer is a zero-length
array. The references returned by `Front()` and `Back()` are modelled twice:
`Front`/`Back` read through them, and `AssignFront`/`AssignBack` write through them.

## Model

| member | source | states |
|---|---|---|
| `Queue.TQueue.constructor` | structures/TQueue.hpp:45-53 | The default queue has capacity 0, `size == front == rear == 0` and no contents. |
| `Queue.TQueue.WithCapacity` | structures/TQueue.hpp:62-73 | A queue built with capacity `c >= 0` has capacity `c`, a fresh array of `c` slots, `size == front == rear == 0` and no contents. |
| `Queue.NewQueue` | structures/TQueue.hpp:55-74 | A negative capacity fails with `NegativeCapacity`. Any other capacity gives a fresh valid queue of that capacity that is empty, and that is full exactly when the capacity is 0. |
| `Queue.TQueue.Copy` | structures/TQueue.hpp:76-97 | The copy has its own fresh array, the same capacity and size, `front == 0`, `rear == max(size - 1, 0)` and the same FIFO contents as the source. |
| `Queue.TQueue.Move` | structures/TQueue.hpp:99-112 | The new queue takes over capacity, size, front, rear and the array itself, so its contents are the source's old contents. The source is left valid, with capacity 0 and empty. |
| `Queue.TQueue.CopyAssign` | structures/TQueue.hpp:123-155 | Self-assignment changes nothing. Otherwise the target gets a fresh array, the source's capacity and size, `front == 0`, `rear == max(size - 1, 0)` and the source's FIFO contents. |
| `Queue.TQueue.MoveAssign` | structures/TQueue.hpp:157-183 | Self-assignment changes nothing. Otherwise the target takes over all four indices and the array, and the source is left valid with capacity 0 and empty. |
| `Queue.TQueue.Push` | structures/TQueue.hpp:185-205 | On a full queue (capacity 0 included) it fails with `Full` and changes nothing. Otherwise the contents become `old + [value]` and size grows by one. `rear` becomes 0 if the queue was empty and `(rear + 1) % capacity` otherwise. The invariant is kept. |
| `Queue.TQueue.Pop` | structures/TQueue.hpp:207-223 | On an empty queue it fails with `Empty` and changes nothing. Otherwise the first element is dropped and `front` becomes `(front + 1) % capacity`. When the last element goes, the queue returns to `front == rear == 0`. The invariant is kept. |
| `Queue.TQueue.Front` | structures/TQueue.hpp:225-233 | It fails with `Empty` exactly when there are no contents. Otherwise it returns the oldest element, which is `memory[front]`. |
| `Queue.TQueue.Back` | structures/TQueue.hpp:235-243 | It fails with `Empty` exactly when there are no contents. Otherwise it returns the newest element, which is `memory[rear]`. |
| `Queue.TQueue.AssignFront` | structures/TQueue.hpp:225-233 | Writing through the front reference fails on an empty queue. Otherwise it replaces the oldest element and no other. |
| `Queue.TQueue.AssignBack` | structures/TQueue.hpp:235-243 | Writing through the back reference fails on an empty queue. Otherwise it replaces the newest element and no other. |
| `Queue.TQueue.IsEmpty` | structures/TQueue.hpp:245-249 | True exactly when the contents are empty. |
| `Queue.TQueue.IsFull` | structures/TQueue.hpp:251-255 | True exactly when the number of live elements equals the number of slots. |
| `Queue.TQueue.GetSize` | structures/TQueue.hpp:257-261 | The number of live elements. |
| `Queue.TQueue.GetCapacity` | structures/TQueue.hpp:263-267 | The number of slots, which is never below the number of live elements. |
| `Queue.TQueue.Resize` | structures/TQueue.hpp:269-316 | A negative capacity fails and changes nothing, and the same capacity changes nothing. Otherwise the capacity becomes the new one and the size becomes `min(size, newCapacity)`. The contents become the first `size` elements of the old contents, so the newest are dropped on shrink. The array is fresh, `front == 0` and `rear == max(size - 1, 0)`. |
| `Queue.Relinearize` | structures/TQueue.hpp:87-91 | The copy loop of the copy constructor, which copy assignment (lines 144-148) and Resize (lines 300-304) repeat: it reads slot `(front + i) % capacity` and writes index `i`. The result is a fresh array of the requested length whose prefix, read from index 0, is the ring's FIFO contents. |
| `Queue.TQueue.Equals` | structures/TQueue.hpp:318-339 | True exactly when the two FIFO sequences are equal. Capacity and wrap offset do not matter. |
| `Queue.TQueue.NotEquals` | structures/TQueue.hpp:341-345 | True exactly when the two FIFO sequences differ. |
| `Ring.SlotIsMod` | structures/TQueue.hpp:200 | For any index below twice the capacity, such as `rear + 1` here and `front + 1` at line 215, the division-free reduction `Slot` equals the source's `% capacity`. |
| `Ring.LiveIsDrain` | structures/TQueue.hpp:207-233 | The index view `memory[(front + i) % capacity]` equals the sequence read by taking `memory[front]` (Front) and then advancing `front` by one slot (Pop) until nothing is left. |
| `Ring.LiveAppend` | structures/TQueue.hpp:193-204 | Writing a value at the first free slot `(front + size) % capacity` appends it to the FIFO view and leaves every live element in place. |
| `Ring.LiveAdvance` | structures/TQueue.hpp:215-216 | Advancing `front` by one modulo the capacity and shrinking the size by one drops exactly the first element of the FIFO view. |
| `Ring.LiveUpdate` | structures/TQueue.hpp:232 | Overwriting the slot of logical position `j` changes element `j` of the FIFO view and no other. Different positions never share a slot. |
| `Ring.LiveFromZero` | structures/TQueue.hpp:292-293 | A ring re-linearised to `front == 0` holds its FIFO contents as a plain prefix of its array. |
| `Ring.LivePrefix` | structures/TQueue.hpp:287-290 | Truncating the size keeps the oldest elements: the shorter view is a prefix of the longer one. |
| `QueueTraces.Construction` | test/test_queue.cpp:4-34 | The default and zero-capacity queues are empty and full. A capacity-5 queue is empty and not full. Capacity -1 fails with `NegativeCapacity`. |
| `QueueTraces.PushOnFull` | test/test_queue.cpp:129-136 | A third push into a capacity-2 queue fails with `Full`, and the size stays 2. |
| `QueueTraces.DrainAll` | test/test_queue.cpp:303-307 | For any valid queue, wrapped or not, reading Front and popping until empty yields the old contents in FIFO order and leaves the queue empty. |
| `QueueTraces.TakeFront` | structures/TQueue.hpp:207-233 | Front followed by Pop on a non-empty queue returns the oldest element, and the remaining contents are the rest in order. The array is not replaced. |
| `QueueTraces.FifoDrain` | test/test_queue.cpp:294-310 | For any values and any capacity that holds them, pushing the values and then draining the queue returns them in push order and leaves the queue empty. |
| `QueueTraces.CircularBuffer` | test/test_queue.cpp:312-337 | The wraparound trace on capacity 3 gives fronts 2, 2, 3, 4 and backs 3, 4, 5, 6. |
| `QueueTraces.ResizeScenario` | test/test_queue.cpp:214-250 | Growing from 3 to 5 keeps 1, 2, and two pushes give capacity 5, size 4, front 1, back 4. Shrinking to 2 keeps front 1 and back 2. Shrinking to 0 gives a queue that is both empty and full. |
| `QueueTraces.CopyOfWrapped` | test/test_queue.cpp:367-385 | A copy of a wrapped queue compares equal to it and has front 3, back 6 and size 4. |
| `QueueTraces.EqualityWithCircularBuffer` | test/test_queue.cpp:339-365 | Two capacity-4 queues filled with 1, 2, 3 compare equal. After each pops once and pushes 4 they still compare equal, and both have front 2 and back 4. |
| `QueueTraces.EqualityIgnoresLayout` | structures/TQueue.hpp:318-339 | A capacity-3 queue wrapped to front slot 1 and rear slot 0 compares equal, and not unequal, to a capacity-5 queue holding the same values from slot 0. Equality looks only at the FIFO sequence. |
| `QueueTraces.CopyConstructor` | test/test_queue.cpp:36-49 | A copy of a capacity-3 queue holding 1, 2, 3 has size 3, capacity 3, front 1 and back 3, and compares equal to the original. |
| `QueueTraces.CopyIsIndependent` | structures/TQueue.hpp:84-91 | For any queue, its copy compares equal to it. The copy's front can be overwritten and the copy popped, although the method may change nothing that existed before the call, because the copy has its own array. After the write the two are equal exactly when the queue was empty or its front already held the written value. After the pop they are equal exactly when the queue was empty. |

## Left out

- `operator<<` (structures/TQueue.hpp:347-370): it only formats the queue onto a stream, which is I/O.
- `operator>>` (structures/TQueue.hpp:372-412): it throws right after reading the capacity (line 378), so it never succeeds. The rest of it is unreachable.
- The destructor and `delete[]`: memory release is not modelled. Dafny arrays are garbage-collected, and a zero-length array stands in for `nullptr`.
- `TStack<T>`: `TStack.hpp` is not part of this model. Only its tests and the console driver use it.
- `main/main.cpp`: an interactive console driver that reads and prints values through the public operations.
- The text of the thrown messages: errors are the three `Error` kinds, not strings.
- Integer width: the model uses unbounded integers. In C++, `int` is 32 bits, and `front + i` in the copy, Resize and equality loops could overflow if a capacity were above 2^30. The model does not capture that.
- Element types: `T` is any type with equality and a default value. The `std::string` and `double` instantiations in the tests are not modelled separately, and no floating-point reasoning is done.
- `Queue.TQueue.Move`, `Queue.TQueue.MoveAssign`: the moved-from queue gets a fresh zero-length array where the source stores `nullptr`.
