/**
 * `CircularArrayQueue`: a FIFO queue kept in a ring buffer. The queue's
 * `size` elements sit in the slots `front, front + 1, …, rear`, counted
 * modulo the capacity, and the array doubles when an element is added to a
 * full queue. Elements are Java references, so a slot holds an `Option`
 * (`None` is `null`).
 */
module CircularQueues {
  import opened Wrappers

  /** The capacity of a new queue. */
  const InitialCapacity := 10

  lemma MulNonneg(x: int, y: int)
    requires 0 <= x && 0 <= y
    ensures 0 <= x * y
  {
  }

  lemma MulGap(n: int, q: int, d: int)
    requires 0 < n && q < d
    ensures n * q + n <= n * d
  {
    MulNonneg(n, d - q - 1);
    assert n * d == n * q + n + n * (d - q - 1);
  }

  /** The quotient and remainder of `a` by `n` are the `q` with `n * q <= a < n * q + n`. */
  lemma Quotient(a: int, n: int, q: int)
    requires 0 < n && n * q <= a < n * q + n
    ensures a / n == q && a % n == a - n * q
  {
    var d := a / n;
    if d > q {
      MulGap(n, q, d);
      assert false;
    } else if d < q {
      MulGap(n, d, q);
      assert false;
    }
  }

  /**
   * `%` (Euclidean, never negative) on an index that has moved at most one lap
   * past either end of `[0, n)`: a single wrap-around. The source only applies
   * `%` to `i + 1` with `0 <= i < n`, where Java's `%` gives the same result.
   */
  lemma Wrap(a: int, n: int)
    requires 0 < n && -n <= a < 2 * n
    ensures a % n == Ring(a, n)
  {
    if a < 0 {
      Quotient(a, n, -1);
    } else if a < n {
      Quotient(a, n, 0);
    } else {
      Quotient(a, n, 1);
    }
  }

  /** The slot `a` of a ring of `n` slots, for `a` at most one lap outside `[0, n)`. */
  function Ring(a: int, n: int): int {
    if a < 0 then a + n else if a < n then a else a - n
  }

  class CircularArrayQueue<E(!new)> {
    var front: int
    var rear: int
    var data: array<Option<E>>
    var size: int

    /**
     * The ring invariant: `size` fits the array, `front` is a slot and `rear`
     * is the slot `size - 1` places after it, wrapping around (one place
     * before `front` when the queue is empty).
     */
    ghost predicate Valid()
      reads this
    {
      && 0 < data.Length
      && 0 <= size <= data.Length
      && 0 <= front < data.Length
      && rear == Ring(front + size - 1, data.Length)
    }

    /**
     * The ring invariant as a Euclidean `%`: `rear` is
     * `(front + size - 1) % data.length`. For an empty queue with `front == 0`
     * the operand is -1 and `rear` is the last slot; Java's `%` would give -1.
     */
    lemma RearSlot()
      requires Valid()
      ensures 0 <= rear < data.Length
      ensures rear == (front + size - 1) % data.Length
    {
      Wrap(front + size - 1, data.Length);
    }

    /** The queued elements, from the front of the queue to its rear. */
    function Contents(): (s: seq<Option<E>>)
      reads this, data
      requires Valid()
      ensures |s| == size
      ensures forall i :: 0 <= i < size ==> s[i] == data[Ring(front + i, data.Length)]
    {
      var a, f, k := data, front, size;
      seq(k, i requires 0 <= i < k reads a => a[Ring(f + i, a.Length)])
    }

    /** `new CircularArrayQueue()`: an empty queue of capacity 10 with `rear` just before `front`. */
    constructor()
      ensures Valid() && Contents() == []
      ensures data.Length == InitialCapacity && front == 0 && rear == InitialCapacity - 1
    {
      data := new Option<E>[InitialCapacity](_ => None);
      front := 0;
      rear := InitialCapacity - 1;
      size := 0;
    }

    /**
     * `reallocate()`, called on a full queue: a fresh array of twice the
     * capacity holding the queue, in order, in its first `size` slots, with
     * `front` at 0 and `rear` at `size - 1`.
     */
    method Reallocate()
      requires Valid() && size == data.Length
      modifies this
      ensures Valid() && fresh(data) && size == old(size)
      ensures data.Length == 2 * old(data.Length) && front == 0 && rear == size - 1
      ensures data[..size] == old(Contents())
      ensures Contents() == old(Contents())
    {
      ghost var queued := Contents();
      var copy := new Option<E>[data.Length * 2](_ => None);
      var j := front;
      var i := 0;
      while i < size
        invariant data == old(data) && front == old(front) && size == old(size)
        invariant copy.Length == 2 * data.Length
        invariant 0 <= i <= size && 0 <= j < data.Length
        invariant j == Ring(front + i, data.Length)
        invariant forall m :: 0 <= m < i ==> copy[m] == queued[m]
      {
        copy[i] := data[j];
        Wrap(j + 1, data.Length);
        j := (j + 1) % data.Length;
        i := i + 1;
      }
      front := 0;
      rear := size - 1;
      data := copy;
      assert data[..size] == queued;
    }

    /**
     * Stores `e` in the slot after `rear` of a queue with room to spare; that
     * slot becomes the new `rear`.
     */
    method Enqueue(e: Option<E>)
      requires Valid() && size < data.Length
      modifies this`size, this`rear, data
      ensures Valid()
      ensures Contents() == old(Contents()) + [e]
    {
      ghost var queued := Contents();
      Wrap(rear + 1, data.Length);
      size := size + 1;
      rear := (rear + 1) % data.Length;
      data[rear] := e;
      assert Contents() == queued + [e];
    }

    /**
     * `add(e)`: reallocates a full queue, then stores `e` after the rear;
     * always true.
     */
    method Add(e: Option<E>) returns (added: bool)
      requires Valid()
      modifies this, data
      ensures Valid() && added
      ensures Contents() == old(Contents()) + [e]
      ensures data.Length == if old(size) == old(data.Length) then 2 * old(data.Length) else old(data.Length)
    {
      if size == data.Length {
        Reallocate();
      }
      Enqueue(e);
      added := true;
    }

    /** `offer(e)`: enqueues `e` exactly as `add` does, but answers false. */
    method Offer(e: Option<E>) returns (offered: bool)
      requires Valid()
      modifies this, data
      ensures Valid() && !offered
      ensures Contents() == old(Contents()) + [e]
    {
      var _ := Add(e);
      offered := false;
    }

    /** `element()`: the element at the front; NoSuchElementException on an empty queue. */
    method Element() returns (r: Result<Option<E>>)
      requires Valid()
      ensures r == if Contents() == [] then Throws(NoSuchElement) else Ok(Contents()[0])
    {
      if size == 0 {
        return Throws(NoSuchElement);
      }
      r := Ok(data[front]);
    }

    /** `peek()`: the element at the front, or null on an empty queue. */
    method Peek() returns (r: Option<E>)
      requires Valid()
      ensures Contents() == [] ==> r == None
      ensures Contents() != [] ==> r == Contents()[0]
    {
      if size == 0 {
        return None;
      }
      r := data[front];
    }

    /**
     * Takes the front element out of a non-empty queue: `front` moves one slot
     * on, wrapping around, and the array is left as it was.
     */
    method Dequeue() returns (first: Option<E>)
      requires Valid() && size > 0
      modifies this
      ensures Valid() && data == old(data)
      ensures [first] + Contents() == old(Contents())
    {
      ghost var queued := Contents();
      Wrap(front + 1, data.Length);
      first := data[front];
      front := (front + 1) % data.Length;
      size := size - 1;
      assert [first] + Contents() == queued;
    }

    /** `poll()`: removes and returns the front element, or null on an empty queue. */
    method Poll() returns (r: Option<E>)
      requires Valid()
      modifies this
      ensures Valid() && data == old(data)
      ensures old(Contents()) == [] ==> r == None && Contents() == []
      ensures old(Contents()) != [] ==> [r] + Contents() == old(Contents())
    {
      if size == 0 {
        return None;
      }
      r := Dequeue();
    }

    /** `remove()`: removes and returns the front element; NoSuchElementException on an empty queue. */
    method Remove() returns (r: Result<Option<E>>)
      requires Valid()
      modifies this
      ensures Valid() && data == old(data)
      ensures old(Contents()) == [] ==> r == Throws(NoSuchElement) && Contents() == []
      ensures old(Contents()) != [] ==> r.Ok? && [r.value] + Contents() == old(Contents())
    {
      if size == 0 {
        return Throws(NoSuchElement);
      }
      var first := Dequeue();
      r := Ok(first);
    }

    /** `size()`: the number of queued elements. */
    method Size() returns (n: int)
      requires Valid()
      ensures n == |Contents()|
    {
      n := size;
    }
  }
}
