/**
 * Six comparator-driven sorts of a Java array, each run through a counting
 * comparison and a counting exchange so that the two metric counters are exact.
 */
module ArraySorts {
  import opened Comparators
  import opened SortFacts
  import opened HeapOrder
  import opened Merging
  import opened Partitions

  /** One step of a `bubbleSort` pass: the neighbours at `j` are exchanged when out of order. */
  function BubbleStep<T>(s: seq<T>, j: int, cmp: (T, T) -> int): seq<T>
    requires 0 <= j && j + 1 < |s|
  {
    if cmp(s[j], s[j + 1]) > 0 then s[j := s[j + 1]][j + 1 := s[j]] else s
  }

  /** The first `j` steps of a pass over `s`. */
  function BubbleSteps<T>(s: seq<T>, j: nat, cmp: (T, T) -> int): (r: seq<T>)
    requires j < |s|
    ensures |r| == |s|
  {
    if j == 0 then s else BubbleStep(BubbleSteps(s, j - 1, cmp), j - 1, cmp)
  }

  /** How many exchanges the first `j` steps of a pass over `s` make. */
  function BubbleExchanges<T>(s: seq<T>, j: nat, cmp: (T, T) -> int): nat
    requires j < |s|
  {
    if j == 0 then 0
    else
      var t := BubbleSteps(s, j - 1, cmp);
      BubbleExchanges(s, j - 1, cmp) + if cmp(t[j - 1], t[j]) > 0 then 1 else 0
  }

  /**
   * A step at `j` keeps the multiset, touches nothing after `j + 1`, and moves
   * a largest element of the front to `j + 1` if one was at `j`.
   */
  lemma BubbleStepShape<T(!new)>(t: seq<T>, j: nat, cmp: (T, T) -> int)
    requires IsComparator(cmp) && j + 1 < |t|
    requires forall k :: 0 <= k <= j ==> cmp(t[k], t[j]) <= 0
    ensures var r := BubbleStep(t, j, cmp);
      && multiset(r) == multiset(t)
      && r[j + 2..] == t[j + 2..]
      && (forall k :: 0 <= k <= j + 1 ==> cmp(r[k], r[j + 1]) <= 0)
  {
    var r := BubbleStep(t, j, cmp);
    Reflexive(cmp, r[j + 1]);
    if cmp(t[j], t[j + 1]) > 0 {
      Flip(cmp, t[j], t[j + 1]);
      SwapPermutes(t, j, j + 1);
    } else {
      forall k | 0 <= k <= j ensures cmp(r[k], r[j + 1]) <= 0 {
        AtMostTrans(cmp, t[k], t[j], t[j + 1]);
      }
    }
  }

  /**
   * `r` is `s` with its elements moved about inside `s[..j + 1]` only, and a
   * largest of them at `j`.
   */
  ghost predicate CarriedTo<T>(s: seq<T>, r: seq<T>, j: nat, cmp: (T, T) -> int) {
    && j < |s| == |r|
    && multiset(r) == multiset(s)
    && r[j + 1..] == s[j + 1..]
    && (forall k :: 0 <= k <= j ==> cmp(r[k], r[j]) <= 0)
  }

  /** The first `j` steps of a pass carry a largest element of `s[..j + 1]` to `j`. */
  lemma {:induction false} BubbleStepsShape<T(!new)>(s: seq<T>, j: nat, cmp: (T, T) -> int)
    requires IsComparator(cmp) && j < |s|
    ensures CarriedTo(s, BubbleSteps(s, j, cmp), j, cmp)
  {
    if j == 0 {
      Reflexive(cmp, s[0]);
    } else {
      BubbleStepsShape(s, j - 1, cmp);
      var t := BubbleSteps(s, j - 1, cmp);
      var r := BubbleStep(t, j - 1, cmp);
      assert BubbleSteps(s, j, cmp) == r;
      BubbleStepShape(t, j - 1, cmp);
      CarriedFurther(s, t, r, j, cmp);
    }
  }

  /** Carrying to `j - 1` and then one step further carries to `j`. */
  lemma CarriedFurther<T>(s: seq<T>, t: seq<T>, r: seq<T>, j: nat, cmp: (T, T) -> int)
    requires 0 < j && CarriedTo(s, t, j - 1, cmp) && j < |r| == |t|
    requires multiset(r) == multiset(t) && r[j + 1..] == t[j + 1..]
    requires forall k :: 0 <= k <= j ==> cmp(r[k], r[j]) <= 0
    ensures CarriedTo(s, r, j, cmp)
  {
    assert t[j + 1..] == t[j..][1..];
    assert s[j + 1..] == s[j..][1..];
  }

  /**
   * The first `j` steps of a pass exchange nothing exactly when the neighbours
   * up to `j` were already in order, and then they change nothing.
   */
  lemma {:induction false} BubbleStepsQuiet<T>(s: seq<T>, j: nat, cmp: (T, T) -> int)
    requires j < |s|
    ensures BubbleExchanges(s, j, cmp) == 0 <==> NeighboursOrdered(s, j, cmp)
    ensures BubbleExchanges(s, j, cmp) == 0 ==> BubbleSteps(s, j, cmp) == s
  {
    if j > 0 {
      BubbleStepsQuiet(s, j - 1, cmp);
      if BubbleExchanges(s, j - 1, cmp) != 0 {
        assert !NeighboursOrdered(s, j - 1, cmp);
      }
    }
  }

  /**
   * Everything from `m` on is sorted and compares at least everything before
   * it: the part of the array that `bubbleSort` has finished with.
   */
  ghost predicate SettledFrom<T>(s: seq<T>, m: int, cmp: (T, T) -> int) {
    0 <= m <= |s| && forall k, l :: 0 <= k < l < |s| && m <= l ==> InOrderAt(s, k, l, cmp)
  }

  /** Being settled from `m` is a sorted back that compares at least the front. */
  lemma SettledParts<T>(s: seq<T>, m: int, cmp: (T, T) -> int)
    requires 0 <= m <= |s|
    ensures SettledFrom(s, m, cmp) <==> Sorted(s[m..], cmp) && Partitioned(s, m, cmp)
  {
    if SettledFrom(s, m, cmp) {
      forall i, j | 0 <= i < j < |s| - m ensures InOrderAt(s[m..], i, j, cmp) {
        assert InOrderAt(s, m + i, m + j, cmp);
      }
      forall k, l | 0 <= k < m <= l < |s| ensures cmp(s[k], s[l]) <= 0 {
        assert InOrderAt(s, k, l, cmp);
      }
    }
    if Sorted(s[m..], cmp) && Partitioned(s, m, cmp) {
      forall k, l | 0 <= k < l < |s| && m <= l ensures InOrderAt(s, k, l, cmp) {
        if m <= k {
          assert InOrderAt(s[m..], k - m, l - m, cmp);
          assert s[m..][k - m] == s[k] && s[m..][l - m] == s[l];
        }
      }
    }
  }

  /**
   * A whole pass over `s[..last + 1]`, when everything after `last` is settled,
   * settles position `last` too, and keeps the multiset.
   */
  lemma BubblePassSettles<T(!new)>(s: seq<T>, last: nat, cmp: (T, T) -> int)
    requires IsComparator(cmp) && last < |s|
    requires SettledFrom(s, last + 1, cmp)
    ensures multiset(BubbleSteps(s, last, cmp)) == multiset(s)
    ensures SettledFrom(BubbleSteps(s, last, cmp), last, cmp)
  {
    SettledParts(s, last + 1, cmp);
    BubbleStepsShape(s, last, cmp);
    var r := BubbleSteps(s, last, cmp);
    PartitionKept(s, r, last + 1, cmp);
    assert r[last + 1..] == s[last + 1..];
    forall i, j | 0 <= i < j < |r| - last ensures InOrderAt(r[last..], i, j, cmp) {
      if i == 0 {
        assert r[last..][i] == r[last] && r[last..][j] == r[last + j];
      } else {
        assert InOrderAt(s[last + 1..], i - 1, j - 1, cmp);
        assert r[last..][i] == s[last + 1..][i - 1] && r[last..][j] == s[last + 1..][j - 1];
      }
    }
    SettledParts(r, last, cmp);
  }

  /**
   * A pass over a sorted `s` makes no exchange, and a pass without exchanges,
   * when everything after `last` is settled, leaves `s` as it was, and sorted.
   */
  lemma BubblePassQuiet<T(!new)>(s: seq<T>, last: nat, cmp: (T, T) -> int)
    requires IsComparator(cmp) && last < |s|
    requires SettledFrom(s, last + 1, cmp)
    ensures Sorted(s, cmp) ==> BubbleExchanges(s, last, cmp) == 0
    ensures BubbleExchanges(s, last, cmp) == 0 ==> BubbleSteps(s, last, cmp) == s && Sorted(s, cmp)
  {
    BubbleStepsQuiet(s, last, cmp);
    if Sorted(s, cmp) {
      forall k | 0 <= k < last && k + 1 < |s| ensures cmp(s[k], s[k + 1]) <= 0 {
        assert InOrderAt(s, k, k + 1, cmp);
      }
    }
    if BubbleExchanges(s, last, cmp) == 0 {
      OrderedFrontSorted(s, last, cmp);
    }
  }

  /** Neighbours in order up to `last`, and everything after `last` settled, is a sorted whole. */
  lemma OrderedFrontSorted<T(!new)>(s: seq<T>, last: nat, cmp: (T, T) -> int)
    requires IsComparator(cmp) && last < |s|
    requires NeighboursOrdered(s, last, cmp) && SettledFrom(s, last + 1, cmp)
    ensures Sorted(s, cmp)
  {
    SettledParts(s, last + 1, cmp);
    var front := s[..last + 1];
    forall k | 0 <= k < last ensures cmp(front[k], front[k + 1]) <= 0 {
      assert front[k] == s[k] && front[k + 1] == s[k + 1];
    }
    AdjacentSorted(front, cmp);
    SortedJoin(s, last + 1, cmp);
  }

  /** Once everything from position 1 on is settled, the whole sequence is sorted. */
  lemma SettledSorted<T>(s: seq<T>, cmp: (T, T) -> int)
    requires SettledFrom(s, 1, cmp)
    ensures Sorted(s, cmp)
  {
    forall k, l | 0 <= k < l < |s| ensures cmp(s[k], s[l]) <= 0 {
      assert InOrderAt(s, k, l, cmp);
    }
  }

  /**
   * Moving the root of the heap `s[..n + 1]` to position `n`, when everything
   * after `n` is settled and the moved root is at least the rest of the
   * front, settles position `n` too.
   */
  lemma DrainSettles<T>(s: seq<T>, r: seq<T>, n: int, cmp: (T, T) -> int)
    requires 0 <= n < |s| && SettledFrom(s, n + 1, cmp)
    requires r == s[0 := s[n]][n := s[0]]
    requires forall k :: 0 <= k < n ==> InOrderAt(r, k, n, cmp)
    ensures SettledFrom(r, n, cmp)
  {
    forall k, l | 0 <= k < l < |r| && n <= l ensures InOrderAt(r, k, l, cmp) {
      if l > n {
        if k == n {
          assert InOrderAt(s, 0, l, cmp);
        } else if k == 0 {
          assert InOrderAt(s, n, l, cmp);
        } else {
          assert InOrderAt(s, k, l, cmp);
        }
      }
    }
  }

  /** Rearranging the front among itself, the back left alone, keeps the back settled. */
  lemma SettledKept<T>(s: seq<T>, r: seq<T>, m: int, cmp: (T, T) -> int)
    requires 0 <= m <= |s| == |r| && SettledFrom(s, m, cmp)
    requires multiset(r) == multiset(s) && r[m..] == s[m..]
    ensures SettledFrom(r, m, cmp)
  {
    SettledParts(s, m, cmp);
    PartitionKept(s, r, m, cmp);
    SettledParts(r, m, cmp);
  }

  /**
   * Dropping `a[i]` into the hole at `j`, with `a[j..i]` moved one place
   * right, leaves the first `i + 1` elements sorted and the multiset alone.
   */
  lemma InsertionPlaced<T(!new)>(a: seq<T>, b: seq<T>, i: int, j: int, compare: (T, T) -> int)
    requires IsComparator(compare)
    requires 0 <= j <= i < |a| == |b|
    requires Sorted(a[..i], compare)
    requires forall k :: 0 <= k < j ==> b[k] == a[k]
    requires b[j] == a[i]
    requires forall k :: j < k <= i ==> b[k] == a[k - 1]
    requires forall l :: j <= l < i ==> compare(a[i], a[l]) < 0
    requires forall k :: i < k < |a| ==> b[k] == a[k]
    requires j == 0 || compare(a[j - 1], a[i]) <= 0
    ensures Sorted(b[..i + 1], compare)
    ensures multiset(b) == multiset(a)
  {
    RotatePermutes(a, b, j, i);
    forall k, l | 0 <= k < l < i ensures compare(a[k], a[l]) <= 0 {
      assert InOrderAt(a[..i], k, l, compare);
      assert a[..i][k] == a[k] && a[..i][l] == a[l];
    }
    var front := b[..i + 1];
    forall k, l | 0 <= k < l <= i ensures InOrderAt(front, k, l, compare) {
      assert front[k] == b[k] && front[l] == b[l];
      if l == j && k < j - 1 {
        AtMostTrans(compare, a[k], a[j - 1], a[i]);
      }
    }
  }

  /** Each of the first `i` positions holds an element at most everything after it. */
  ghost predicate SelectedUpTo<T>(s: seq<T>, i: int, cmp: (T, T) -> int) {
    forall k, l :: 0 <= k < i && k < l < |s| ==> InOrderAt(s, k, l, cmp)
  }

  /**
   * Swapping a least element of `s[i..]` into position `i` extends the
   * selected prefix by one and keeps the multiset.
   */
  lemma SelectionStep<T>(s: seq<T>, i: int, m: int, cmp: (T, T) -> int)
    requires 0 <= i <= m < |s|
    requires SelectedUpTo(s, i, cmp)
    requires forall k :: i <= k < |s| ==> cmp(s[m], s[k]) <= 0
    ensures multiset(s[i := s[m]][m := s[i]]) == multiset(s)
    ensures SelectedUpTo(s[i := s[m]][m := s[i]], i + 1, cmp)
  {
    SwapPermutes(s, i, m);
    var r := s[i := s[m]][m := s[i]];
    forall k, l | 0 <= k < i + 1 && k < l < |r| ensures InOrderAt(r, k, l, cmp) {
      if k < i {
        assert InOrderAt(s, k, l, cmp);
        if l == i || l == m {
          assert InOrderAt(s, k, i, cmp) && InOrderAt(s, k, m, cmp);
        }
        assert r[k] == s[k];
      } else if l != m {
        assert r[l] == s[l];
      }
    }
  }

  /** A selected prefix that reaches the last position is a sorted sequence. */
  lemma SelectedSorted<T>(s: seq<T>, cmp: (T, T) -> int)
    requires SelectedUpTo(s, |s| - 1, cmp)
    ensures Sorted(s, cmp)
  {
    forall k, l | 0 <= k < l < |s| ensures cmp(s[k], s[l]) <= 0 {
      assert InOrderAt(s, k, l, cmp);
    }
  }

  /** The comparisons `selectionSort` makes in its first `i` passes over `n` elements. */
  function SelectionComparisons(n: int, i: nat): int {
    if i == 0 then 0 else SelectionComparisons(n, i - 1) + (n - i)
  }

  /** The first `i` passes make i(2n - i - 1)/2 comparisons. */
  lemma {:induction false} SelectionComparisonsSum(n: int, i: nat)
    ensures 2 * SelectionComparisons(n, i) == i * (2 * n - i - 1)
  {
    if i > 0 {
      SelectionComparisonsSum(n, i - 1);
    }
  }

  /** All passes together make one comparison for each of the n(n - 1)/2 pairs. */
  lemma SelectionComparisonsPairs(n: nat)
    ensures 2 * SelectionComparisons(n, if n == 0 then 0 else n - 1) == n * (n - 1)
  {
    SelectionComparisonsSum(n, if n == 0 then 0 else n - 1);
  }

  class ArraySort<E(!new)> {
    var numberOfComparisons: int
    var numberOfSwaps: int

    constructor()
      ensures numberOfComparisons == 0 && numberOfSwaps == 0
    {
      numberOfComparisons := 0;
      numberOfSwaps := 0;
    }

    /** `compare(compare, obj1, obj2)`: the comparator's answer, counted once. */
    method Compare(compare: (E, E) -> int, obj1: E, obj2: E) returns (r: int)
      modifies this`numberOfComparisons
      ensures r == compare(obj1, obj2)
      ensures numberOfComparisons == old(numberOfComparisons) + 1
    {
      numberOfComparisons := numberOfComparisons + 1;
      r := compare(obj1, obj2);
    }

    /** `swap(data, first, second)`: exchanges two slots, counted once; nothing else changes. */
    method Swap(data: array<E>, first: int, second: int)
      requires 0 <= first < data.Length && 0 <= second < data.Length
      modifies this`numberOfSwaps, data
      ensures data[..] == old(data[..])[first := old(data[second])][second := old(data[first])]
      ensures multiset(data[..]) == multiset(old(data[..]))
      ensures numberOfSwaps == old(numberOfSwaps) + 1
    {
      SwapPermutes(data[..], first, second);
      numberOfSwaps := numberOfSwaps + 1;
      var temp := data[first];
      data[first] := data[second];
      data[second] := temp;
    }

    /**
     * `insertionSort`: each element is shifted left past the larger ones before
     * it; every shift and every final placement counts as a swap. On sorted
     * input every element stays where it is after one comparison.
     */
    method InsertionSort(data: array<E>, compare: (E, E) -> int)
      requires IsComparator(compare)
      modifies this, data
      ensures Sorted(data[..], compare)
      ensures multiset(data[..]) == multiset(old(data[..]))
      ensures Sorted(old(data[..]), compare) && data.Length >= 1 ==>
        numberOfComparisons == data.Length - 1 && numberOfSwaps == data.Length - 1
    {
      numberOfComparisons := 0;
      numberOfSwaps := 0;
      var i := 1;
      while i < data.Length
        invariant data.Length == 0 || 1 <= i <= data.Length
        invariant data.Length > 0 ==> Sorted(data[..i], compare)
        invariant multiset(data[..]) == multiset(old(data[..]))
        invariant Sorted(old(data[..]), compare) ==>
          data[..] == old(data[..]) && numberOfComparisons == i - 1 && numberOfSwaps == i - 1
      {
        if Sorted(old(data[..]), compare) {
          assert InOrderAt(old(data[..]), i - 1, i, compare);
        }
        InsertNext(data, i, compare);
        i := i + 1;
      }
      assert data.Length > 0 ==> data[..] == data[..i];
    }

    /**
     * The inner loop of `insertionSort`: the elements of `data[..i]` that
     * compare above `held`, scanning down from `i - 1`, each move one place
     * right (a swap each), and the hole left behind is returned.
     */
    method ShiftRight(data: array<E>, i: int, held: E, compare: (E, E) -> int) returns (j: int)
      requires IsComparator(compare)
      requires 0 <= i < data.Length
      modifies this`numberOfComparisons, this`numberOfSwaps, data
      ensures 0 <= j <= i
      ensures forall k :: 0 <= k < j ==> data[k] == old(data[k])
      ensures forall k :: j < k <= i ==> data[k] == old(data[k - 1])
      ensures forall k :: i < k < data.Length ==> data[k] == old(data[k])
      ensures forall l :: j <= l < i ==> compare(held, old(data[l])) < 0
      ensures j == 0 || compare(old(data[j - 1]), held) <= 0
      ensures i > 0 && compare(old(data[i - 1]), held) <= 0 ==> j == i
      ensures numberOfSwaps == old(numberOfSwaps) + (i - j)
      ensures numberOfComparisons == old(numberOfComparisons) + (i - j) + (if j == 0 then 0 else 1)
    {
      ghost var a := data[..];
      j := i;
      while j > 0
        invariant 0 <= j <= i
        invariant forall k :: 0 <= k < j ==> data[k] == a[k]
        invariant forall k :: j < k <= i ==> data[k] == a[k - 1]
        invariant forall k :: i < k < data.Length ==> data[k] == a[k]
        invariant forall l :: j <= l < i ==> compare(held, a[l]) < 0
        invariant numberOfSwaps == old(numberOfSwaps) + (i - j)
        invariant numberOfComparisons == old(numberOfComparisons) + (i - j)
      {
        var c := Compare(compare, data[j - 1], held);
        if c <= 0 {
          break;
        }
        Flip(compare, data[j - 1], held);
        data[j] := data[j - 1];
        numberOfSwaps := numberOfSwaps + 1;
        j := j - 1;
      }
      if i > 0 && j < i {
        Flip(compare, held, a[i - 1]);
      }
    }

    /**
     * One round of `insertionSort`: `data[i]` is held, the larger elements of
     * the sorted `data[..i]` move one place right, and the held element fills
     * the hole, so that `data[..i + 1]` is sorted.
     */
    method InsertNext(data: array<E>, i: int, compare: (E, E) -> int)
      requires IsComparator(compare)
      requires 1 <= i < data.Length
      requires Sorted(data[..i], compare)
      modifies this`numberOfComparisons, this`numberOfSwaps, data
      ensures Sorted(data[..i + 1], compare)
      ensures multiset(data[..]) == multiset(old(data[..]))
      ensures compare(old(data[i - 1]), old(data[i])) <= 0 ==>
        data[..] == old(data[..]) && numberOfComparisons == old(numberOfComparisons) + 1 &&
        numberOfSwaps == old(numberOfSwaps) + 1
    {
      ghost var a := data[..];
      var held := data[i];
      var j := ShiftRight(data, i, held, compare);
      data[j] := held;
      numberOfSwaps := numberOfSwaps + 1;
      if j == i {
        assert data[..] == a;
      }
      InsertionPlaced(a, data[..], i, j, compare);
    }

    /** One pass of `bubbleSort` over `data[..last + 1]`, returning the number of exchanges. */
    method BubblePass(data: array<E>, last: int, compare: (E, E) -> int) returns (exchanges: int)
      requires 0 <= last < data.Length
      modifies this`numberOfComparisons, this`numberOfSwaps, data
      ensures data[..] == BubbleSteps(old(data[..]), last, compare)
      ensures exchanges == BubbleExchanges(old(data[..]), last, compare)
      ensures numberOfComparisons == old(numberOfComparisons) + last
      ensures numberOfSwaps == old(numberOfSwaps) + exchanges
    {
      ghost var a := data[..];
      exchanges := 0;
      var j := 0;
      while j < last
        invariant 0 <= j <= last
        invariant data[..] == BubbleSteps(a, j, compare)
        invariant exchanges == BubbleExchanges(a, j, compare)
        invariant numberOfComparisons == old(numberOfComparisons) + j
        invariant numberOfSwaps == old(numberOfSwaps) + exchanges
      {
        var c := Compare(compare, data[j], data[j + 1]);
        if c > 0 {
          Swap(data, j, j + 1);
          exchanges := exchanges + 1;
        }
        j := j + 1;
      }
    }

    /**
     * A pass of `bubbleSort` seen from the outer loop: with everything after
     * `last` settled it settles `last` as well; it exchanges nothing on sorted
     * input, and a pass without exchanges finds the array sorted.
     */
    method SettlingPass(data: array<E>, last: int, compare: (E, E) -> int) returns (exchanges: int)
      requires IsComparator(compare)
      requires 0 <= last < data.Length && SettledFrom(data[..], last + 1, compare)
      modifies this`numberOfComparisons, this`numberOfSwaps, data
      ensures multiset(data[..]) == multiset(old(data[..]))
      ensures SettledFrom(data[..], last, compare)
      ensures Sorted(old(data[..]), compare) ==> exchanges == 0
      ensures exchanges <= 0 ==> Sorted(data[..], compare)
      ensures numberOfComparisons == old(numberOfComparisons) + last
      ensures numberOfSwaps == old(numberOfSwaps) + exchanges
    {
      ghost var s := data[..];
      BubblePassSettles(s, last, compare);
      BubblePassQuiet(s, last, compare);
      exchanges := BubblePass(data, last, compare);
    }

    /**
     * `bubbleSort`: passes of neighbour exchanges that stop after the first pass
     * without an exchange; on already sorted input of length n >= 2 that is one
     * pass of n - 1 comparisons and no swap.
     */
    method BubbleSort(data: array<E>, compare: (E, E) -> int)
      requires IsComparator(compare)
      modifies this, data
      ensures Sorted(data[..], compare)
      ensures multiset(data[..]) == multiset(old(data[..]))
      ensures Sorted(old(data[..]), compare) && data.Length >= 2 ==>
        numberOfComparisons == data.Length - 1 && numberOfSwaps == 0
    {
      numberOfComparisons := 0;
      numberOfSwaps := 0;
      var n := data.Length;
      if n < 2 {
        return;
      }
      var i := 0;
      while i < n - 1
        invariant 0 <= i < n
        invariant multiset(data[..]) == multiset(old(data[..]))
        invariant SettledFrom(data[..], n - i, compare)
        invariant Sorted(old(data[..]), compare) ==>
          i == 0 && Sorted(data[..], compare) && numberOfComparisons == 0 && numberOfSwaps == 0
      {
        var exchanges := SettlingPass(data, n - i - 1, compare);
        if exchanges <= 0 {
          return;
        }
        i := i + 1;
      }
      SettledSorted(data[..], compare);
    }

    /**
     * The inner loop of `selectionSort`: the index of the first least element
     * of `data[i..]`, found with one comparison per later element.
     */
    method SmallestFrom(data: array<E>, i: int, compare: (E, E) -> int) returns (smallest: int)
      requires IsComparator(compare)
      requires 0 <= i < data.Length
      modifies this`numberOfComparisons
      ensures i <= smallest < data.Length
      ensures forall k :: i <= k < data.Length ==> compare(data[smallest], data[k]) <= 0
      ensures forall k :: i <= k < smallest ==> compare(data[smallest], data[k]) < 0
      ensures numberOfComparisons == old(numberOfComparisons) + (data.Length - i - 1)
    {
      smallest := i;
      Reflexive(compare, data[i]);
      var j := i + 1;
      while j < data.Length
        invariant i + 1 <= j <= data.Length && i <= smallest < j
        invariant forall k :: i <= k < j ==> compare(data[smallest], data[k]) <= 0
        invariant forall k :: i <= k < smallest ==> compare(data[smallest], data[k]) < 0
        invariant numberOfComparisons == old(numberOfComparisons) + (j - i - 1)
      {
        var c := Compare(compare, data[j], data[smallest]);
        Flip(compare, data[j], data[smallest]);
        if c < 0 {
          forall k | i <= k < j ensures compare(data[j], data[k]) < 0 {
            LessTrans(compare, data[j], data[smallest], data[k]);
          }
          smallest := j;
        }
        Reflexive(compare, data[j]);
        j := j + 1;
      }
    }

    /** One pass of `selectionSort`: a least element of `data[i..]` is swapped into position `i`. */
    method SelectNext(data: array<E>, i: int, compare: (E, E) -> int)
      requires IsComparator(compare)
      requires 0 <= i < data.Length
      requires SelectedUpTo(data[..], i, compare)
      modifies this`numberOfComparisons, this`numberOfSwaps, data
      ensures SelectedUpTo(data[..], i + 1, compare)
      ensures multiset(data[..]) == multiset(old(data[..]))
      ensures numberOfComparisons == old(numberOfComparisons) + (data.Length - i - 1)
      ensures numberOfSwaps == old(numberOfSwaps) + 1
    {
      var smallest := SmallestFrom(data, i, compare);
      SelectionStep(data[..], i, smallest, compare);
      Swap(data, i, smallest);
    }

    /**
     * `selectionSort`: each pass selects the least remaining element and swaps it
     * into place, even when it is already there, so there are n - 1 swaps and
     * n(n - 1)/2 comparisons.
     */
    method SelectionSort(data: array<E>, compare: (E, E) -> int)
      requires IsComparator(compare)
      modifies this, data
      ensures Sorted(data[..], compare)
      ensures multiset(data[..]) == multiset(old(data[..]))
      ensures numberOfSwaps == if data.Length == 0 then 0 else data.Length - 1
      ensures 2 * numberOfComparisons == data.Length * (data.Length - 1)
    {
      numberOfComparisons := 0;
      numberOfSwaps := 0;
      var n := data.Length;
      var i := 0;
      while i < n - 1
        invariant 0 <= i && (i == 0 || i < n)
        invariant multiset(data[..]) == multiset(old(data[..]))
        invariant SelectedUpTo(data[..], i, compare)
        invariant numberOfSwaps == i
        invariant numberOfComparisons == SelectionComparisons(n, i)
      {
        SelectNext(data, i, compare);
        i := i + 1;
      }
      SelectedSorted(data[..], compare);
      SelectionComparisonsPairs(n);
    }

    /**
     * The inner loop of the first phase of `heapSort`: the new leaf at `n - 1`
     * moves up while its parent compares below it. Java's loop also tests
     * `parent >= 0`, which always holds because `(0 - 1) / 2` is 0; at the root
     * the element is compared with itself, and the loop stops there.
     */
    method SiftUp(data: array<E>, n: int, compare: (E, E) -> int)
      requires IsComparator(compare)
      requires 1 <= n <= data.Length && IsHeap(data[..], n - 1, compare)
      modifies this`numberOfComparisons, this`numberOfSwaps, data
      ensures IsHeap(data[..], n, compare)
      ensures multiset(data[..]) == multiset(old(data[..]))
      ensures data[n..] == old(data[n..])
    {
      SiftUpStart(data[..], n, compare);
      var child := n - 1;
      var parent := Parent(child);
      while true
        invariant 0 <= child < n && parent == Parent(child)
        invariant HeapExceptUp(data[..], n, child, compare)
        invariant multiset(data[..]) == multiset(old(data[..]))
        invariant data[n..] == old(data[n..])
        decreases child
      {
        Reflexive(compare, data[child]);
        var c := Compare(compare, data[parent], data[child]);
        if c >= 0 {
          SiftUpDone(data[..], n, child, compare);
          return;
        }
        SiftUpStep(data[..], n, child, compare);
        Swap(data, parent, child);
        child := parent;
        parent := Parent(child);
      }
    }

    /** The first phase of `heapSort`: the array becomes a max-heap, one leaf at a time. */
    method BuildHeap(data: array<E>, compare: (E, E) -> int)
      requires IsComparator(compare)
      modifies this`numberOfComparisons, this`numberOfSwaps, data
      ensures IsHeap(data[..], data.Length, compare)
      ensures multiset(data[..]) == multiset(old(data[..]))
    {
      var n := 1;
      while n < data.Length
        invariant 1 <= n && (data.Length == 0 || n <= data.Length)
        invariant IsHeap(data[..], n, compare)
        invariant multiset(data[..]) == multiset(old(data[..]))
      {
        n := n + 1;
        SiftUp(data, n, compare);
      }
    }

    /**
     * The inner loop of the second phase of `heapSort`: the element at the root
     * of `data[..n]` moves down, exchanged with its larger child (the left one
     * on ties), until it is at least both children or has none.
     */
    method SiftDown(data: array<E>, n: int, compare: (E, E) -> int)
      requires IsComparator(compare)
      requires 0 <= n <= data.Length && HeapExceptDown(data[..], n, 0, compare)
      modifies this`numberOfComparisons, this`numberOfSwaps, data
      ensures IsHeap(data[..], n, compare)
      ensures multiset(data[..]) == multiset(old(data[..]))
      ensures data[n..] == old(data[n..])
    {
      var parent := 0;
      while true
        invariant 0 <= parent && HeapExceptDown(data[..], n, parent, compare)
        invariant multiset(data[..]) == multiset(old(data[..]))
        invariant data[n..] == old(data[n..])
        decreases n - parent
      {
        var leftChild := 2 * parent + 1;
        if leftChild >= n {
          SiftDownLeaf(data[..], n, parent, compare);
          return;
        }
        var rightChild := 2 * parent + 2;
        var maxChild := leftChild;
        Reflexive(compare, data[leftChild]);
        if rightChild < n {
          var c := Compare(compare, data[leftChild], data[rightChild]);
          if c < 0 {
            maxChild := rightChild;
            Reflexive(compare, data[rightChild]);
          } else {
            Flip(compare, data[rightChild], data[leftChild]);
          }
        }
        assert MaxChild(data[..], n, parent, maxChild, compare);
        var c := Compare(compare, data[parent], data[maxChild]);
        if c < 0 {
          SiftDownStep(data[..], n, parent, maxChild, compare);
          Swap(data, parent, maxChild);
          parent := maxChild;
        } else {
          SiftDownDone(data[..], n, parent, maxChild, compare);
          return;
        }
      }
    }

    /**
     * `heapSort`: after the first phase the array is a max-heap; each step of
     * the second phase swaps the root, a largest element of the heap, to the
     * front of the finished back part and sifts the new root down.
     */
    method HeapSort(data: array<E>, compare: (E, E) -> int)
      requires IsComparator(compare)
      modifies this, data
      ensures Sorted(data[..], compare)
      ensures multiset(data[..]) == multiset(old(data[..]))
    {
      numberOfComparisons := 0;
      numberOfSwaps := 0;
      BuildHeap(data, compare);
      var n := data.Length;
      while n > 0
        invariant 0 <= n <= data.Length
        invariant IsHeap(data[..], n, compare)
        invariant SettledFrom(data[..], n, compare)
        invariant multiset(data[..]) == multiset(old(data[..]))
      {
        n := n - 1;
        ghost var s := data[..];
        Swap(data, 0, n);
        DrainStart(s, data[..], n, compare);
        DrainSettles(s, data[..], n, compare);
        ghost var t := data[..];
        SiftDown(data, n, compare);
        SettledKept(t, data[..], n, compare);
      }
      if data.Length > 0 {
        SettledSorted(data[..], compare);
      }
    }

    /**
     * One turn of the first loop of `merge`: the smaller of the two heads is
     * written to slot `i + j` (the right one on ties), one counted write.
     */
    method MergeNext(data: array<E>, left: array<E>, right: array<E>, i: int, j: int,
                     compare: (E, E) -> int, ghost l: seq<E>, ghost r: seq<E>)
      returns (i': int, j': int)
      requires data != left && data != right && left[..] == l && right[..] == r
      requires data.Length == left.Length + right.Length
      requires 0 <= i < left.Length && 0 <= j < right.Length
      requires data[..i + j] + MergeFrom(l, r, i, j, compare) == MergeFrom(l, r, 0, 0, compare)
      modifies this`numberOfComparisons, this`numberOfSwaps, data
      ensures (i' == i + 1 && j' == j) || (i' == i && j' == j + 1)
      ensures data[..i' + j'] + MergeFrom(l, r, i', j', compare) == MergeFrom(l, r, 0, 0, compare)
      ensures numberOfSwaps == old(numberOfSwaps) + 1
    {
      var k := i + j;
      ghost var done := data[..k];
      var c := Compare(compare, left[i], right[j]);
      if c < 0 {
        AppendStep(done, l[i], MergeFrom(l, r, i, j, compare), MergeFrom(l, r, i + 1, j, compare), MergeFrom(l, r, 0, 0, compare));
        data[k] := left[i];
        assert data[..k + 1] == done + [l[i]];
        i', j' := i + 1, j;
      } else {
        AppendStep(done, r[j], MergeFrom(l, r, i, j, compare), MergeFrom(l, r, i, j + 1, compare), MergeFrom(l, r, 0, 0, compare));
        data[k] := right[j];
        assert data[..k + 1] == done + [r[j]];
        i', j' := i, j + 1;
      }
      numberOfSwaps := numberOfSwaps + 1;
    }

    /**
     * The first loop of `merge`: while both halves have elements left, the
     * smaller head is written to `data`. It stops when either half is exhausted.
     */
    method MergeRuns(data: array<E>, left: array<E>, right: array<E>, compare: (E, E) -> int,
                     ghost l: seq<E>, ghost r: seq<E>)
      returns (i: int, j: int)
      requires data != left && data != right && left[..] == l && right[..] == r
      requires data.Length == left.Length + right.Length
      modifies this`numberOfComparisons, this`numberOfSwaps, data
      ensures 0 <= i <= |l| && 0 <= j <= |r| && (i == |l| || j == |r|)
      ensures data[..i + j] + MergeFrom(l, r, i, j, compare) == MergeFrom(l, r, 0, 0, compare)
      ensures numberOfSwaps == old(numberOfSwaps) + i + j
    {
      i, j := 0, 0;
      while i < left.Length && j < right.Length
        invariant 0 <= i <= left.Length && 0 <= j <= right.Length
        invariant data[..i + j] + MergeFrom(l, r, i, j, compare) == MergeFrom(l, r, 0, 0, compare)
        invariant numberOfSwaps == old(numberOfSwaps) + i + j
        invariant left[..] == l && right[..] == r
      {
        i, j := MergeNext(data, left, right, i, j, compare, l, r);
      }
    }

    /**
     * The second and third loops of `merge`: what is left of either half is
     * copied after the `k` slots already written, one counted write each.
     */
    method CopyRest(data: array<E>, k: int, src: array<E>, i: int)
      requires data != src
      requires 0 <= k && 0 <= i <= src.Length && k + (src.Length - i) == data.Length
      modifies this`numberOfSwaps, data
      ensures data[..] == old(data[..k]) + src[i..]
      ensures numberOfSwaps == old(numberOfSwaps) + (src.Length - i)
    {
      ghost var done := data[..k];
      var n, m := i, k;
      while n < src.Length
        invariant i <= n <= src.Length && m == k + (n - i)
        invariant data[..m] == done + src[i..n]
        invariant numberOfSwaps == old(numberOfSwaps) + (n - i)
      {
        data[m] := src[n];
        assert src[i..n + 1] == src[i..n] + [src[n]];
        n := n + 1;
        m := m + 1;
        numberOfSwaps := numberOfSwaps + 1;
      }
      assert data[..] == data[..m];
    }

    /** The three loops of `merge`: the sorted halves are merged back into `data`, one counted write per slot. */
    method MergeHalves(data: array<E>, left: array<E>, right: array<E>, compare: (E, E) -> int)
      requires data != left && data != right
      requires data.Length == left.Length + right.Length
      modifies this`numberOfComparisons, this`numberOfSwaps, data
      ensures data[..] == MergeFrom(left[..], right[..], 0, 0, compare)
      ensures numberOfSwaps == old(numberOfSwaps) + data.Length
    {
      var i, j := MergeRuns(data, left, right, compare, left[..], right[..]);
      if i < left.Length {
        CopyRest(data, i + j, left, i);
        assert right[j..] == [];
      } else {
        CopyRest(data, i + j, right, j);
        assert left[i..] == [];
      }
    }

    /** A fresh array holding `s`: the new halves of `merge`, filled by `System.arraycopy`. */
    static method CopyOf(s: seq<E>) returns (a: array<E>)
      ensures fresh(a) && a[..] == s
    {
      a := new E[|s|](k requires 0 <= k < |s| => s[k]);
    }

    /** The merge step seen from `merge`: two sorted halves become one sorted array of their elements. */
    method MergeBack(data: array<E>, left: array<E>, right: array<E>, compare: (E, E) -> int)
      requires IsComparator(compare)
      requires data != left && data != right
      requires data.Length == left.Length + right.Length
      requires Sorted(left[..], compare) && Sorted(right[..], compare)
      modifies this`numberOfComparisons, this`numberOfSwaps, data
      ensures Sorted(data[..], compare)
      ensures multiset(data[..]) == multiset(left[..]) + multiset(right[..])
      ensures numberOfSwaps == old(numberOfSwaps) + data.Length
    {
      MergeHalves(data, left, right, compare);
      MergeSorted(left[..], right[..], 0, 0, compare);
      MergePermutes(left[..], right[..], 0, 0, compare);
      assert left[..][0..] == left[..] && right[..][0..] == right[..];
    }

    /**
     * `merge`: arrays of length 2 or more are copied into two fresh halves
     * (the left one of length `data.length / 2`), each half is sorted by a
     * recursive call, and the halves are merged back. Each call of length 2
     * or more writes every slot once.
     */
    method Merge(data: array<E>, compare: (E, E) -> int)
      requires IsComparator(compare)
      modifies this`numberOfComparisons, this`numberOfSwaps, data
      ensures Sorted(data[..], compare)
      ensures multiset(data[..]) == multiset(old(data[..]))
      ensures numberOfSwaps == old(numberOfSwaps) + MergeWrites(data.Length)
      decreases data.Length
    {
      if data.Length > 1 {
        var halfSize := data.Length / 2;
        ghost var s := data[..];
        assert s == s[..halfSize] + s[halfSize..];
        var left := CopyOf(data[..halfSize]);
        var right := CopyOf(data[halfSize..]);
        ghost var writes := numberOfSwaps + MergeWrites(left.Length) + MergeWrites(right.Length);
        assert MergeWrites(data.Length) == data.Length + MergeWrites(left.Length) + MergeWrites(right.Length);
        Merge(left, compare);
        Merge(right, compare);
        assert numberOfSwaps == writes;
        MergeBack(data, left, right, compare);
      }
    }

    /**
     * `mergeSort`: sorted, the same elements, and one counted write per slot
     * per recursive call of length 2 or more.
     */
    method MergeSort(data: array<E>, compare: (E, E) -> int)
      requires IsComparator(compare)
      modifies this, data
      ensures Sorted(data[..], compare)
      ensures multiset(data[..]) == multiset(old(data[..]))
      ensures numberOfSwaps == MergeWrites(data.Length)
    {
      numberOfComparisons := 0;
      numberOfSwaps := 0;
      Merge(data, compare);
    }

    /**
     * The first inner loop of `quickSort`: `up` moves right over elements at
     * most the pivot, but never past `last`. Java tests `up < last` first, so
     * the element at `last` is not compared when `up` reaches it.
     */
    method ScanUp(data: array<E>, compare: (E, E) -> int, pivot: E, up: int, last: int) returns (up': int)
      requires 0 <= up < last < data.Length && compare(pivot, data[up]) >= 0
      modifies this`numberOfComparisons
      ensures up < up' <= last
      ensures forall k :: up <= k < up' ==> compare(pivot, data[k]) >= 0
      ensures up' == last || compare(pivot, data[up']) < 0
      ensures numberOfComparisons == old(numberOfComparisons) + (up' - up) + if up' < last then 1 else 0
    {
      up' := up;
      while up' < last
        invariant up <= up' <= last
        invariant forall k :: up <= k < up' ==> compare(pivot, data[k]) >= 0
        invariant numberOfComparisons == old(numberOfComparisons) + (up' - up)
        decreases last - up'
      {
        var c := Compare(compare, pivot, data[up']);
        if c < 0 {
          break;
        }
        up' := up' + 1;
      }
    }

    /**
     * The second inner loop of `quickSort`: `down` moves left over elements
     * strictly above the pivot. It has no bound of its own; it stops at
     * `first` at the latest, where the pivot itself still sits.
     */
    method ScanDown(data: array<E>, compare: (E, E) -> int, pivot: E, first: int, down: int) returns (down': int)
      requires IsComparator(compare)
      requires 0 <= first <= down < data.Length && data[first] == pivot
      modifies this`numberOfComparisons
      ensures first <= down' <= down
      ensures forall k :: down' < k <= down ==> compare(pivot, data[k]) < 0
      ensures compare(pivot, data[down']) >= 0
      ensures numberOfComparisons == old(numberOfComparisons) + (down - down') + 1
    {
      Reflexive(compare, pivot);
      down' := down;
      while true
        invariant first <= down' <= down
        invariant forall k :: down' < k <= down ==> compare(pivot, data[k]) < 0
        invariant numberOfComparisons == old(numberOfComparisons) + (down - down')
        decreases down'
      {
        var c := Compare(compare, pivot, data[down']);
        if c >= 0 {
          break;
        }
        down' := down' - 1;
      }
    }

    /**
     * One round of the `do ... while (up < down)` loop of `quickSort`: both
     * scans, then the exchange of the two elements they stopped at when `up`
     * is still left of `down`. When it is not, the range is split at `down'`.
     */
    method PartitionRound(data: array<E>, compare: (E, E) -> int, pivot: E, first: int, last: int,
                          up: int, down: int) returns (up': int, down': int)
      requires IsComparator(compare) && last < data.Length
      requires Scanned(data[..], first, last, up, down, pivot, compare)
      modifies this`numberOfComparisons, this`numberOfSwaps, data
      ensures up < up'
      ensures up' < down' ==> Scanned(data[..], first, last, up', down', pivot, compare)
      ensures down' <= up' ==> SplitAt(data[..], first, last, down', pivot, compare)
      ensures multiset(data[..]) == multiset(old(data[..]))
      ensures SameOutside(old(data[..]), data[..], first, last + 1)
    {
      up' := ScanUp(data, compare, pivot, up, last);
      down' := ScanDown(data, compare, pivot, first, down);
      ScansMeet(data[..], first, last, up, down, up', down', pivot, compare);
      if up' < down' {
        Swap(data, up', down');
      }
    }

    /**
     * The partition step of `quickSort(data, compare, first, last)`: the pivot
     * `data[first]` ends at `p`, everything before it in the range compares at
     * most the pivot and everything after it strictly above; the elements are
     * only rearranged inside `[first, last]`.
     */
    method Partition(data: array<E>, compare: (E, E) -> int, first: int, last: int) returns (p: int)
      requires IsComparator(compare) && 0 <= first < last < data.Length
      modifies this`numberOfComparisons, this`numberOfSwaps, data
      ensures first <= p <= last && data[p] == old(data[first])
      ensures forall k :: first <= k < p ==> compare(data[k], data[p]) <= 0
      ensures forall k :: p < k <= last ==> compare(data[p], data[k]) < 0
      ensures multiset(data[..]) == multiset(old(data[..]))
      ensures SameOutside(old(data[..]), data[..], first, last + 1)
    {
      var pivot := data[first];
      Reflexive(compare, pivot);
      var up, down := first, last;
      while true
        invariant Scanned(data[..], first, last, up, down, pivot, compare)
        invariant multiset(data[..]) == multiset(old(data[..]))
        invariant SameOutside(old(data[..]), data[..], first, last + 1)
        decreases last - up
      {
        ghost var s := data[..];
        var up', down' := PartitionRound(data, compare, pivot, first, last, up, down);
        OutsideTrans(old(data[..]), s, data[..], first, last + 1);
        if down' <= up' {
          down := down';
          break;
        }
        up, down := up', down';
      }
      ghost var s := data[..];
      Swap(data, first, down);
      p := down;
      PivotPlaced(s, data[..], first, last, p, pivot, compare);
      OutsideTrans(old(data[..]), s, data[..], first, last + 1);
    }

    /**
     * `quickSort(data, compare, first, last)`: after partitioning, both sides
     * of the pivot are sorted by recursion. `last` may be `first - 1`, an
     * empty range.
     */
    method QuickSortRange(data: array<E>, compare: (E, E) -> int, first: int, last: int)
      requires IsComparator(compare) && 0 <= first <= last + 1 <= data.Length
      modifies this`numberOfComparisons, this`numberOfSwaps, data
      ensures SortedRange(data[..], first, last + 1, compare)
      ensures multiset(data[..]) == multiset(old(data[..]))
      ensures SameOutside(old(data[..]), data[..], first, last + 1)
      decreases last - first
    {
      if first < last {
        var p := Partition(data, compare, first, last);
        ghost var s := data[..];
        QuickSortRange(data, compare, first, p - 1);
        ghost var t := data[..];
        QuickSortRange(data, compare, p + 1, last);
        QuickJoin(s, t, data[..], first, p, last, compare);
        OutsideTrans(old(data[..]), s, data[..], first, last + 1);
      }
    }

    /** `quickSort`: the whole array sorted, a permutation of what it held. */
    method QuickSort(data: array<E>, compare: (E, E) -> int)
      requires IsComparator(compare)
      modifies this, data
      ensures Sorted(data[..], compare)
      ensures multiset(data[..]) == multiset(old(data[..]))
    {
      numberOfComparisons := 0;
      numberOfSwaps := 0;
      QuickSortRange(data, compare, 0, data.Length - 1);
      SortedWhole(data[..], compare);
    }
  }
}
