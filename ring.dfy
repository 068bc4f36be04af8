/**
 * The logical view of a ring buffer: a backing store `buf` of fixed length,
 * a `front` index and a `size`, whose live elements are read at
 * `(front + i) % |buf|` for the logical positions `i` in `[0, size)`.
 * The queue class keeps its contents as such a view of its array.
 *
 * Every index the queue computes has gone at most once around the ring, so
 * the reduction modulo the length is `Slot`, which needs no division;
 * `SlotIsMod` shows that it agrees with `%`.
 */
module Ring {

  /** An index `k < 2 * c` reduced into `[0, c)`. */
  function Slot(k: int, c: int): int
    requires 0 <= k < 2 * c
  {
    if k < c then k else k - c
  }

  /** `Slot` is the remainder the queue computes with `%`. */
  lemma SlotIsMod(k: int, c: int)
    requires 0 <= k < 2 * c
    ensures Slot(k, c) == k % c
  {
  }

  /** The indices a ring view may use: a non-empty store whenever something is live. */
  predicate WellFormed<T>(buf: seq<T>, front: int, size: int)
  {
    0 <= size <= |buf| && (size > 0 ==> 0 <= front < |buf|)
  }

  /** The live elements of the ring, in FIFO order. */
  function Live<T>(buf: seq<T>, front: int, size: int): (s: seq<T>)
    requires WellFormed(buf, front, size)
    ensures |s| == size
    ensures forall i :: 0 <= i < size ==> s[i] == buf[Slot(front + i, |buf|)]
  {
    seq(size, i requires 0 <= i < size => buf[Slot(front + i, |buf|)])
  }

  /**
   * An independent reading of the same ring: the element at `front`, followed
   * by what is read after advancing `front` by one slot. This is the sequence
   * that calling Front and then Pop until the ring is empty produces.
   */
  function Drain<T>(buf: seq<T>, front: int, size: int): seq<T>
    requires WellFormed(buf, front, size)
    decreases size
  {
    if size == 0 then [] else [buf[front]] + Drain(buf, Slot(front + 1, |buf|), size - 1)
  }

  /** Writing a value at the first free slot appends it to the live elements. */
  lemma LiveAppend<T>(buf: seq<T>, front: int, size: int, v: T)
    requires WellFormed(buf, front, size) && size < |buf| && 0 <= front < |buf|
    ensures WellFormed(buf[Slot(front + size, |buf|) := v], front, size + 1)
    ensures Live(buf[Slot(front + size, |buf|) := v], front, size + 1) == Live(buf, front, size) + [v]
  {
  }

  /** Advancing the front by one slot drops the first live element. */
  lemma LiveAdvance<T>(buf: seq<T>, front: int, size: int)
    requires WellFormed(buf, front, size) && size > 0
    ensures WellFormed(buf, Slot(front + 1, |buf|), size - 1)
    ensures Live(buf, Slot(front + 1, |buf|), size - 1) == Live(buf, front, size)[1..]
  {
  }

  /** Overwriting the slot of logical position `j` changes that element and no other. */
  lemma LiveUpdate<T>(buf: seq<T>, front: int, size: int, j: int, v: T)
    requires WellFormed(buf, front, size) && 0 <= j < size
    ensures WellFormed(buf[Slot(front + j, |buf|) := v], front, size)
    ensures Live(buf[Slot(front + j, |buf|) := v], front, size) == Live(buf, front, size)[j := v]
  {
  }

  /** A ring whose front is slot 0 is just the prefix of its store. */
  lemma LiveFromZero<T>(buf: seq<T>, size: int)
    requires 0 <= size <= |buf|
    ensures Live(buf, 0, size) == buf[..size]
  {
  }

  /** Reading fewer elements from the same front gives a prefix of the live elements. */
  lemma LivePrefix<T>(buf: seq<T>, front: int, size: int, n: int)
    requires WellFormed(buf, front, size) && 0 <= n <= size
    ensures WellFormed(buf, front, n)
    ensures Live(buf, front, n) == Live(buf, front, size)[..n]
  {
  }

  /** The index-by-index view and the front-then-advance view of a ring agree. */
  lemma {:induction false} LiveIsDrain<T>(buf: seq<T>, front: int, size: int)
    requires WellFormed(buf, front, size)
    ensures Live(buf, front, size) == Drain(buf, front, size)
    decreases size
  {
    if size > 0 {
      var next := Slot(front + 1, |buf|);
      LiveAdvance(buf, front, size);
      LiveIsDrain(buf, next, size - 1);
      var s := Live(buf, front, size);
      assert s == [s[0]] + s[1..];
    }
  }
}
