/**
 * What `merge` computes: the merge of two runs that takes from the left run
 * only when its head compares strictly below the right run's head.
 */
module Merging {
  import opened Comparators

  /**
   * The merge loops of `merge`, from position `i` of the left run and `j` of
   * the right run on: the left head goes first only when it compares strictly
   * below the right head, and once one run is exhausted the rest of the other
   * follows unchanged.
   */
  function MergeFrom<T>(l: seq<T>, r: seq<T>, i: int, j: int, cmp: (T, T) -> int): (m: seq<T>)
    requires 0 <= i <= |l| && 0 <= j <= |r|
    ensures |m| == (|l| - i) + (|r| - j)
    decreases |l| - i + |r| - j
  {
    if i == |l| then r[j..]
    else if j == |r| then l[i..]
    else if cmp(l[i], r[j]) < 0 then [l[i]] + MergeFrom(l, r, i + 1, j, cmp)
    else [r[j]] + MergeFrom(l, r, i, j + 1, cmp)
  }

  /** The number of slots `merge` writes over all its calls: every slot once per call of length > 1. */
  function MergeWrites(n: int): nat
    decreases n
  {
    if n <= 1 then 0 else n + MergeWrites(n / 2) + MergeWrites(n - n / 2)
  }

  /** 2 to the power `k`. */
  function Pow2(k: nat): (p: nat)
    ensures p >= 1
  {
    if k == 0 then 1 else 2 * Pow2(k - 1)
  }

  /** On `2^k` elements the merge sort writes `k * 2^k` slots: `n log n`. */
  lemma {:induction false} MergeWritesPowerOfTwo(k: nat)
    ensures MergeWrites(Pow2(k)) == k * Pow2(k)
  {
    if k > 0 {
      var p := Pow2(k - 1);
      MergeWritesPowerOfTwo(k - 1);
      HalvesOfDouble(p);
      Distribute(k, p);
    }
  }

  /** Splitting `2 * p` in halves gives `p` and `p`. */
  lemma HalvesOfDouble(p: nat)
    requires p >= 1
    ensures MergeWrites(2 * p) == 2 * p + 2 * MergeWrites(p)
  {
    assert (2 * p) / 2 == p;
  }

  /** `k * 2p` is `2p` more than twice `(k - 1) * p`. */
  lemma Distribute(k: int, p: int)
    ensures k * (2 * p) == 2 * p + 2 * ((k - 1) * p)
  {
    assert (k - 1) * p == k * p - p;
  }

  /** `x` compares at most every element of `s` from position `i` on. */
  ghost predicate AtMostFrom<T>(x: T, s: seq<T>, i: int, cmp: (T, T) -> int) {
    forall k :: 0 <= i <= k < |s| ==> cmp(x, s[k]) <= 0
  }

  /** Merging keeps exactly the elements of both runs. */
  lemma {:induction false} MergePermutes<T>(l: seq<T>, r: seq<T>, i: int, j: int, cmp: (T, T) -> int)
    requires 0 <= i <= |l| && 0 <= j <= |r|
    ensures multiset(MergeFrom(l, r, i, j, cmp)) == multiset(l[i..]) + multiset(r[j..])
    decreases |l| - i + |r| - j
  {
    if i < |l| && j < |r| {
      if cmp(l[i], r[j]) < 0 {
        var tail := MergeFrom(l, r, i + 1, j, cmp);
        MergePermutes(l, r, i + 1, j, cmp);
        assert MergeFrom(l, r, i, j, cmp) == [l[i]] + tail;
        HeadSplit(l, i);
      } else {
        var tail := MergeFrom(l, r, i, j + 1, cmp);
        MergePermutes(l, r, i, j + 1, cmp);
        assert MergeFrom(l, r, i, j, cmp) == [r[j]] + tail;
        HeadSplit(r, j);
      }
    } else if i == |l| {
      assert l[i..] == [];
    } else {
      assert r[j..] == [];
    }
  }

  /** The rest of `s` from `i` is its element at `i` followed by the rest from `i + 1`. */
  lemma HeadSplit<T>(s: seq<T>, i: int)
    requires 0 <= i < |s|
    ensures multiset(s[i..]) == multiset{s[i]} + multiset(s[i + 1..])
  {
    assert s[i..] == [s[i]] + s[i + 1..];
  }

  /** A lower bound of what is left of both runs bounds their merge. */
  lemma {:induction false} MergeBounded<T>(x: T, l: seq<T>, r: seq<T>, i: int, j: int, cmp: (T, T) -> int)
    requires 0 <= i <= |l| && 0 <= j <= |r|
    requires AtMostFrom(x, l, i, cmp) && AtMostFrom(x, r, j, cmp)
    ensures AtMostFrom(x, MergeFrom(l, r, i, j, cmp), 0, cmp)
    decreases |l| - i + |r| - j
  {
    var m := MergeFrom(l, r, i, j, cmp);
    if i < |l| && j < |r| {
      if cmp(l[i], r[j]) < 0 {
        MergeBounded(x, l, r, i + 1, j, cmp);
        forall k | 0 <= k < |m| ensures cmp(x, m[k]) <= 0 {
          if k > 0 {
            assert m[k] == MergeFrom(l, r, i + 1, j, cmp)[k - 1];
          }
        }
      } else {
        MergeBounded(x, l, r, i, j + 1, cmp);
        forall k | 0 <= k < |m| ensures cmp(x, m[k]) <= 0 {
          if k > 0 {
            assert m[k] == MergeFrom(l, r, i, j + 1, cmp)[k - 1];
          }
        }
      }
    } else if i == |l| {
      forall k | 0 <= k < |m| ensures cmp(x, m[k]) <= 0 {
        assert m[k] == r[j + k];
      }
    } else {
      forall k | 0 <= k < |m| ensures cmp(x, m[k]) <= 0 {
        assert m[k] == l[i + k];
      }
    }
  }

  /** A lower bound of a sorted sequence can go in front of it. */
  lemma ConsSorted<T>(x: T, m: seq<T>, cmp: (T, T) -> int)
    requires Sorted(m, cmp) && AtMostFrom(x, m, 0, cmp)
    ensures Sorted([x] + m, cmp)
  {
    var s := [x] + m;
    forall i, j | 0 <= i < j < |s| ensures InOrderAt(s, i, j, cmp) {
      assert s[j] == m[j - 1];
      if i > 0 {
        assert InOrderAt(m, i - 1, j - 1, cmp);
      }
    }
  }

  /** A bound at most position `i` of a sorted sequence bounds everything from `i` on. */
  lemma BelowFrom<T(!new)>(x: T, s: seq<T>, i: int, cmp: (T, T) -> int)
    requires IsComparator(cmp) && Sorted(s, cmp) && 0 <= i < |s| && cmp(x, s[i]) <= 0
    ensures AtMostFrom(x, s, i, cmp)
  {
    forall k | i <= k < |s| ensures cmp(x, s[k]) <= 0 {
      if k > i {
        assert InOrderAt(s, i, k, cmp);
        AtMostTrans(cmp, x, s[i], s[k]);
      }
    }
  }

  /** The rest of a sorted sequence is sorted. */
  lemma SortedFrom<T>(s: seq<T>, i: int, cmp: (T, T) -> int)
    requires Sorted(s, cmp) && 0 <= i <= |s|
    ensures Sorted(s[i..], cmp)
  {
    forall a, b | 0 <= a < b < |s| - i ensures InOrderAt(s[i..], a, b, cmp) {
      assert InOrderAt(s, i + a, i + b, cmp);
    }
  }

  /** Merging what is left of two sorted runs gives a sorted sequence. */
  lemma {:induction false} MergeSorted<T(!new)>(l: seq<T>, r: seq<T>, i: int, j: int, cmp: (T, T) -> int)
    requires IsComparator(cmp) && Sorted(l, cmp) && Sorted(r, cmp)
    requires 0 <= i <= |l| && 0 <= j <= |r|
    ensures Sorted(MergeFrom(l, r, i, j, cmp), cmp)
    decreases |l| - i + |r| - j
  {
    if i < |l| && j < |r| {
      Reflexive(cmp, l[i]);
      Reflexive(cmp, r[j]);
      if cmp(l[i], r[j]) < 0 {
        MergeSorted(l, r, i + 1, j, cmp);
        BelowFrom(l[i], l, i, cmp);
        BelowFrom(l[i], r, j, cmp);
        MergeBounded(l[i], l, r, i + 1, j, cmp);
        ConsSorted(l[i], MergeFrom(l, r, i + 1, j, cmp), cmp);
      } else {
        Flip(cmp, l[i], r[j]);
        MergeSorted(l, r, i, j + 1, cmp);
        BelowFrom(r[j], l, i, cmp);
        BelowFrom(r[j], r, j, cmp);
        MergeBounded(r[j], l, r, i, j + 1, cmp);
        ConsSorted(r[j], MergeFrom(l, r, i, j + 1, cmp), cmp);
      }
    } else if i == |l| {
      SortedFrom(r, j, cmp);
    } else {
      SortedFrom(l, i, cmp);
    }
  }

  /**
   * Merging is not stable: of two elements that compare equal, the one from
   * the right run comes first, so sorting `[a, b]` gives `[b, a]`.
   */
  lemma MergeSwapsTies<T>(a: T, b: T, cmp: (T, T) -> int)
    requires cmp(a, b) == 0
    ensures MergeFrom([a], [b], 0, 0, cmp) == [b, a]
  {
    assert MergeFrom([a], [b], 0, 0, cmp) == [b] + MergeFrom([a], [b], 0, 1, cmp);
  }

  /** Moving the head of what is still to come onto the end of what is done. */
  lemma AppendStep<T>(done: seq<T>, x: T, rest: seq<T>, tail: seq<T>, total: seq<T>)
    requires done + rest == total && rest == [x] + tail
    ensures (done + [x]) + tail == total
  {
    assert (done + [x]) + tail == done + ([x] + tail);
  }
}
