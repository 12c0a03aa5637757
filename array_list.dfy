/**
 * `ArrayList`: a list kept in the prefix `data[0..size)` of an array that
 * doubles when full, with three in-place sorts of that prefix. Elements are
 * Java references, so a slot holds an `Option` (`None` is `null`), and the
 * comparator is applied to the references themselves.
 */
module ArrayLists {
  import opened Wrappers
  import opened Comparators
  import opened SortFacts
  import opened ArraySorts
  import opened ListOps

  /** The capacity of a new list. */
  const InitialCapacity := 10

  class ArrayList<E(!new)> {
    var data: array<Option<E>>
    var size: int

    /**
     * The list occupies `data[0..size)`; every slot after it is `null`: new
     * slots start out null and `remove` clears the slot it frees. The capacity
     * never falls below its initial 10, as it only ever doubles.
     */
    ghost predicate Valid()
      reads this, data
    {
      && InitialCapacity <= data.Length
      && 0 <= size <= data.Length
      && forall k :: size <= k < data.Length ==> data[k] == None
    }

    /** The elements of the list, in order. */
    function Contents(): (s: seq<Option<E>>)
      reads this, data
      requires Valid()
      ensures |s| == size
    {
      data[..size]
    }

    /** `new ArrayList()`: an empty list with room for 10 elements. */
    constructor()
      ensures Valid() && Contents() == [] && data.Length == InitialCapacity
    {
      data := new Option<E>[InitialCapacity](_ => None);
      size := 0;
    }

    /**
     * `reallocate`: `Arrays.copyOf(data, 2 * data.length)`, a fresh array of
     * twice the capacity holding the old slots and then nulls.
     */
    method Reallocate()
      requires Valid()
      modifies this
      ensures Valid() && fresh(data) && size == old(size)
      ensures data.Length == 2 * old(data.Length)
      ensures data[..old(data.Length)] == old(data[..])
      ensures Contents() == old(Contents())
    {
      var capacity := data.Length * 2;
      var copy := new Option<E>[capacity](_ => None);
      var k := 0;
      while k < data.Length
        invariant data == old(data) && size == old(size) && copy.Length == capacity == 2 * data.Length
        invariant 0 <= k <= data.Length
        invariant forall m :: 0 <= m < k ==> copy[m] == data[m]
        invariant forall m :: k <= m < capacity ==> copy[m] == None
      {
        copy[k] := data[k];
        k := k + 1;
      }
      assert copy[..data.Length] == data[..];
      data := copy;
    }

    /** `add(e)`: appends `e`, doubling the capacity first when the array is full; always true. */
    method Add(e: Option<E>) returns (added: bool)
      requires Valid()
      modifies this, data
      ensures Valid() && added
      ensures Contents() == old(Contents()) + [e]
      ensures data.Length == if old(size) == old(data.Length) then 2 * old(data.Length) else old(data.Length)
    {
      if data.Length == size {
        Reallocate();
      }
      ghost var before := data[..size];
      data[size] := e;
      size := size + 1;
      assert data[..size] == before + [e];
      added := true;
    }

    /**
     * `add(index, element)`: inserts at `index`, shifting `[index, size)` one
     * place right. The bound check rejects `index == size`, so this method
     * cannot append.
     */
    method AddAt(index: int, element: Option<E>) returns (outcome: Outcome)
      requires Valid()
      modifies this, data
      ensures Valid()
      ensures !(0 <= index < old(size)) ==>
        outcome == Raised(IndexOutOfBounds) && data == old(data) && Contents() == old(Contents())
      ensures 0 <= index < old(size) ==>
        outcome == Done && Contents() == Inserted(old(Contents()), index, element)
    {
      if index < 0 || index >= size {
        return Raised(IndexOutOfBounds);
      }
      if data.Length == size {
        Reallocate();
      }
      ShiftIn(index, element);
      outcome := Done;
    }

    /**
     * The shifting loop of `add(index, element)`, run once there is room:
     * `[index, size)` moves one place right and `element` fills the gap.
     */
    method ShiftIn(index: int, element: Option<E>)
      requires Valid() && 0 <= index < size < data.Length
      modifies this`size, data
      ensures Valid()
      ensures Contents() == Inserted(old(Contents()), index, element)
    {
      ghost var a := data[..];
      var i := size;
      while i > index
        invariant size == old(size) && index <= i <= size
        invariant forall k :: 0 <= k <= i ==> data[k] == a[k]
        invariant forall k :: i < k <= size ==> data[k] == a[k - 1]
        invariant forall k :: size < k < data.Length ==> data[k] == None
      {
        data[i] := data[i - 1];
        i := i - 1;
      }
      data[index] := element;
      size := size + 1;
      ShiftedIn(a, data[..], index, size - 1, element);
    }

    /** `get(index)`: the element at `index`, or the bound exception. */
    method Get(index: int) returns (r: Result<Option<E>>)
      requires Valid()
      ensures !(0 <= index < size) ==> r == Throws(IndexOutOfBounds)
      ensures 0 <= index < size ==> r == Ok(Contents()[index])
    {
      if index < 0 || index >= size {
        return Throws(IndexOutOfBounds);
      }
      r := Ok(data[index]);
    }

    /** `set(index, element)`: replaces the element at `index`, returning the one it held. */
    method Set(index: int, element: Option<E>) returns (r: Result<Option<E>>)
      requires Valid()
      modifies data
      ensures Valid()
      ensures !(0 <= index < size) ==> r == Throws(IndexOutOfBounds) && Contents() == old(Contents())
      ensures 0 <= index < size ==>
        r == Ok(old(Contents())[index]) && Contents() == old(Contents())[index := element]
    {
      if index < 0 || index >= size {
        return Throws(IndexOutOfBounds);
      }
      var replaced := data[index];
      data[index] := element;
      r := Ok(replaced);
    }

    /**
     * `remove(index)`: returns the element at `index`, shifts the tail one
     * place left and clears the slot that falls free.
     */
    method Remove(index: int) returns (r: Result<Option<E>>)
      requires Valid()
      modifies this, data
      ensures Valid() && data == old(data)
      ensures !(0 <= index < old(size)) ==> r == Throws(IndexOutOfBounds) && Contents() == old(Contents())
      ensures 0 <= index < old(size) ==>
        r == Ok(old(Contents())[index]) && Contents() == Removed(old(Contents()), index)
    {
      if index < 0 || index >= size {
        return Throws(IndexOutOfBounds);
      }
      var removed := data[index];
      var i := index;
      while i < size - 1
        invariant data == old(data) && size == old(size)
        invariant index <= i <= size - 1
        invariant forall k :: 0 <= k < index ==> data[k] == old(data[k])
        invariant forall k :: index <= k < i ==> data[k] == old(data[k + 1])
        invariant forall k :: i <= k < data.Length ==> data[k] == old(data[k])
      {
        data[i] := data[i + 1];
        i := i + 1;
      }
      data[size - 1] := None;
      size := size - 1;
      ShiftedOut(old(data[..]), data[..], index, size + 1);
      r := Ok(removed);
    }

    /** `size()`: the number of elements in the list. */
    method Size() returns (n: int)
      requires Valid()
      ensures n == |Contents()|
    {
      n := size;
    }

    /** Exchanges two slots of the list. */
    method Exchange(p: int, q: int)
      requires Valid() && 0 <= p < size && 0 <= q < size
      modifies data
      ensures Valid()
      ensures Contents() == old(Contents())[p := old(data[q])][q := old(data[p])]
      ensures multiset(Contents()) == multiset(old(Contents()))
      ensures data[size..] == old(data[size..])
    {
      SwapPermutes(data[..size], p, q);
      var temp := data[p];
      data[p] := data[q];
      data[q] := temp;
    }

    /** The inner loop of `insertionSort`: larger elements of `data[..i]` move one place right. */
    method ShiftRight(i: int, held: Option<E>, compare: (Option<E>, Option<E>) -> int) returns (j: int)
      requires Valid() && IsComparator(compare) && 0 <= i < size
      modifies data
      ensures 0 <= j <= i
      ensures forall k :: 0 <= k < j ==> data[k] == old(data[k])
      ensures forall k :: j < k <= i ==> data[k] == old(data[k - 1])
      ensures forall k :: i < k < data.Length ==> data[k] == old(data[k])
      ensures forall l :: j <= l < i ==> compare(held, old(data[l])) < 0
      ensures j == 0 || compare(old(data[j - 1]), held) <= 0
    {
      j := i;
      while j > 0 && compare(data[j - 1], held) > 0
        invariant 0 <= j <= i
        invariant forall k :: 0 <= k < j ==> data[k] == old(data[k])
        invariant forall k :: j < k <= i ==> data[k] == old(data[k - 1])
        invariant forall k :: i < k < data.Length ==> data[k] == old(data[k])
        invariant forall l :: j <= l < i ==> compare(held, old(data[l])) < 0
      {
        Flip(compare, data[j - 1], held);
        data[j] := data[j - 1];
        j := j - 1;
      }
    }

    /** One round of `insertionSort`: `data[i]` is dropped into its place in the sorted `data[..i]`. */
    method InsertNext(i: int, compare: (Option<E>, Option<E>) -> int)
      requires Valid() && IsComparator(compare) && 1 <= i < size
      requires Sorted(data[..i], compare)
      modifies data
      ensures Valid()
      ensures Sorted(data[..i + 1], compare)
      ensures multiset(Contents()) == multiset(old(Contents()))
      ensures data[size..] == old(data[size..])
    {
      ghost var a := data[..];
      DropHeld(i, compare);
      assert data[size..] == a[size..];
      FrontMultiset(data[..], a, size);
    }

    /** The held `data[i]` goes back into the hole that `ShiftRight` leaves. */
    method DropHeld(i: int, compare: (Option<E>, Option<E>) -> int)
      requires Valid() && IsComparator(compare) && 1 <= i < size
      requires Sorted(data[..i], compare)
      modifies data
      ensures Sorted(data[..i + 1], compare)
      ensures multiset(data[..]) == multiset(old(data[..]))
      ensures forall k :: i < k < data.Length ==> data[k] == old(data[k])
    {
      ghost var a := data[..];
      var held := data[i];
      var j := ShiftRight(i, held, compare);
      data[j] := held;
      InsertionPlaced(a, data[..], i, j, compare);
    }

    /** `insertionSort`: the list ends sorted, a permutation of itself; spare slots are untouched. */
    method InsertionSort(compare: (Option<E>, Option<E>) -> int)
      requires Valid() && IsComparator(compare)
      modifies data
      ensures Valid()
      ensures Sorted(Contents(), compare)
      ensures multiset(Contents()) == multiset(old(Contents()))
      ensures data[size..] == old(data[size..])
    {
      var i := 1;
      while i < size
        invariant Valid()
        invariant size == 0 || 1 <= i <= size
        invariant size > 0 ==> Sorted(data[..i], compare)
        invariant multiset(Contents()) == multiset(old(Contents()))
        invariant data[size..] == old(data[size..])
      {
        InsertNext(i, compare);
        i := i + 1;
      }
      assert size > 0 ==> data[..size] == data[..i];
    }

    /** One pass of `bubbleSort` over `data[..last + 1]`, returning the number of exchanges. */
    method BubblePass(last: int, compare: (Option<E>, Option<E>) -> int) returns (exchanges: int)
      requires Valid() && 0 <= last < size
      modifies data
      ensures Valid()
      ensures Contents() == BubbleSteps(old(Contents()), last, compare)
      ensures exchanges == BubbleExchanges(old(Contents()), last, compare)
      ensures data[size..] == old(data[size..])
    {
      ghost var a := data[..size];
      exchanges := 0;
      var j := 0;
      while j < last
        invariant Valid()
        invariant 0 <= j <= last
        invariant data[..size] == BubbleSteps(a, j, compare)
        invariant exchanges == BubbleExchanges(a, j, compare)
        invariant data[size..] == old(data[size..])
      {
        if compare(data[j], data[j + 1]) > 0 {
          Exchange(j, j + 1);
          exchanges := exchanges + 1;
        }
        j := j + 1;
      }
    }

    /** A pass of `bubbleSort` seen from the outer loop: it settles position `last`. */
    method SettlingPass(last: int, compare: (Option<E>, Option<E>) -> int) returns (exchanges: int)
      requires Valid() && IsComparator(compare)
      requires 0 <= last < size && SettledFrom(Contents(), last + 1, compare)
      modifies data
      ensures Valid()
      ensures multiset(Contents()) == multiset(old(Contents()))
      ensures SettledFrom(Contents(), last, compare)
      ensures exchanges <= 0 ==> Sorted(Contents(), compare)
      ensures data[size..] == old(data[size..])
    {
      ghost var s := data[..size];
      BubblePassSettles(s, last, compare);
      BubblePassQuiet(s, last, compare);
      exchanges := BubblePass(last, compare);
    }

    /** `bubbleSort`: passes of neighbour exchanges, stopping after a pass without one. */
    method BubbleSort(compare: (Option<E>, Option<E>) -> int)
      requires Valid() && IsComparator(compare)
      modifies data
      ensures Valid()
      ensures Sorted(Contents(), compare)
      ensures multiset(Contents()) == multiset(old(Contents()))
      ensures data[size..] == old(data[size..])
    {
      var n := size;
      if n < 2 {
        return;
      }
      var i := 0;
      while i < n - 1
        invariant Valid() && 0 <= i < n
        invariant multiset(Contents()) == multiset(old(Contents()))
        invariant SettledFrom(Contents(), n - i, compare)
        invariant data[size..] == old(data[size..])
      {
        var exchanges := SettlingPass(n - i - 1, compare);
        if exchanges <= 0 {
          return;
        }
        i := i + 1;
      }
      SettledSorted(Contents(), compare);
    }

    /** The inner loop of `selectionSort`: the first least element of `data[i..size)`. */
    method SmallestFrom(i: int, compare: (Option<E>, Option<E>) -> int) returns (smallest: int)
      requires Valid() && IsComparator(compare) && 0 <= i < size
      ensures i <= smallest < size
      ensures forall k :: i <= k < size ==> compare(data[smallest], data[k]) <= 0
      ensures forall k :: i <= k < smallest ==> compare(data[smallest], data[k]) < 0
    {
      smallest := i;
      Reflexive(compare, data[i]);
      var j := i + 1;
      while j < size
        invariant i + 1 <= j <= size && i <= smallest < j
        invariant forall k :: i <= k < j ==> compare(data[smallest], data[k]) <= 0
        invariant forall k :: i <= k < smallest ==> compare(data[smallest], data[k]) < 0
      {
        Flip(compare, data[j], data[smallest]);
        if compare(data[j], data[smallest]) < 0 {
          forall k | i <= k < j ensures compare(data[j], data[k]) < 0 {
            LessTrans(compare, data[j], data[smallest], data[k]);
          }
          smallest := j;
        }
        Reflexive(compare, data[j]);
        j := j + 1;
      }
    }

    /** One pass of `selectionSort`: a least remaining element is exchanged into position `i`. */
    method SelectNext(i: int, compare: (Option<E>, Option<E>) -> int)
      requires Valid() && IsComparator(compare) && 0 <= i < size
      requires SelectedUpTo(Contents(), i, compare)
      modifies data
      ensures Valid()
      ensures SelectedUpTo(Contents(), i + 1, compare)
      ensures multiset(Contents()) == multiset(old(Contents()))
      ensures data[size..] == old(data[size..])
    {
      var smallest := SmallestFrom(i, compare);
      SelectionStep(data[..size], i, smallest, compare);
      Exchange(i, smallest);
    }

    /** `selectionSort`: the least remaining element is exchanged into each position in turn. */
    method SelectionSort(compare: (Option<E>, Option<E>) -> int)
      requires Valid() && IsComparator(compare)
      modifies data
      ensures Valid()
      ensures Sorted(Contents(), compare)
      ensures multiset(Contents()) == multiset(old(Contents()))
      ensures data[size..] == old(data[size..])
    {
      var i := 0;
      while i < size - 1
        invariant Valid() && 0 <= i && (i == 0 || i < size)
        invariant multiset(Contents()) == multiset(old(Contents()))
        invariant SelectedUpTo(Contents(), i, compare)
        invariant data[size..] == old(data[size..])
      {
        SelectNext(i, compare);
        i := i + 1;
      }
      SelectedSorted(Contents(), compare);
    }
  }

  /**
   * The array `b` after the shifting loop of `add(index, element)` and the
   * store at `index`: its first `size + 1` slots are the list `a[..size]` with
   * the element inserted.
   */
  lemma ShiftedIn<T>(a: seq<T>, b: seq<T>, index: int, size: int, x: T)
    requires 0 <= index <= size < |a| == |b|
    requires forall k :: 0 <= k < index ==> b[k] == a[k]
    requires b[index] == x
    requires forall k :: index < k <= size ==> b[k] == a[k - 1]
    ensures b[..size + 1] == Inserted(a[..size], index, x)
  {
    var r := Inserted(a[..size], index, x);
    assert forall k :: 0 <= k <= size ==> b[..size + 1][k] == r[k];
  }

  /**
   * The array `b` after the shifting loop of `remove(index)`: its first
   * `size - 1` slots are the list `a[..size]` without its element at `index`.
   */
  lemma ShiftedOut<T>(a: seq<T>, b: seq<T>, index: int, size: int)
    requires 0 <= index < size <= |a| == |b|
    requires forall k :: 0 <= k < index ==> b[k] == a[k]
    requires forall k :: index <= k < size - 1 ==> b[k] == a[k + 1]
    ensures b[..size - 1] == Removed(a[..size], index)
  {
    var r := Removed(a[..size], index);
    assert forall k :: 0 <= k < size - 1 ==> b[..size - 1][k] == r[k];
  }
}
