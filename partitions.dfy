/**
 * Sub-ranges of a sequence, as `quickSort(data, compare, first, last)` works
 * on them: what is sorted inside a range, what a rearrangement of a range
 * leaves alone, and how two sorted sides of a pivot join.
 */
module Partitions {
  import opened Comparators

  /** `s[lo..hi]` is non-decreasing under `cmp`. */
  ghost predicate SortedRange<T>(s: seq<T>, lo: int, hi: int, cmp: (T, T) -> int) {
    forall i, j :: lo <= i < j < hi ==> InOrderAt(s, i, j, cmp)
  }

  /** `r` is `s` except possibly inside `[lo, hi)`. */
  ghost predicate SameOutside<T>(s: seq<T>, r: seq<T>, lo: int, hi: int) {
    && |s| == |r|
    && forall k :: 0 <= k < |s| && !(lo <= k < hi) ==> r[k] == s[k]
  }

  /** A sequence sorted over its whole length is `Sorted`. */
  lemma SortedWhole<T>(s: seq<T>, cmp: (T, T) -> int)
    requires SortedRange(s, 0, |s|, cmp)
    ensures Sorted(s, cmp)
  {
  }

  /** Changes confined to `[lo, hi)` stay confined to any range around it. */
  lemma OutsideTrans<T>(a: seq<T>, b: seq<T>, c: seq<T>, lo: int, hi: int)
    requires SameOutside(a, b, lo, hi) && SameOutside(b, c, lo, hi)
    ensures SameOutside(a, c, lo, hi)
  {
  }

  /** The multiset of a sequence is that of its three parts around `[lo, hi)`. */
  lemma ThreeParts<T>(s: seq<T>, lo: int, hi: int)
    requires 0 <= lo <= hi <= |s|
    ensures multiset(s) == multiset(s[..lo]) + multiset(s[lo..hi]) + multiset(s[hi..])
  {
    assert s == s[..lo] + s[lo..hi] + s[hi..];
  }

  /** Sequences that agree outside `[lo, hi)` have the same parts there. */
  lemma SameParts<T>(s: seq<T>, r: seq<T>, lo: int, hi: int)
    requires 0 <= lo <= hi <= |s| && SameOutside(s, r, lo, hi)
    ensures r[..lo] == s[..lo] && r[hi..] == s[hi..]
  {
  }

  /** Equal multisets and equal outsides give equal multisets inside. */
  lemma RangeMultiset<T>(s: seq<T>, r: seq<T>, lo: int, hi: int)
    requires 0 <= lo <= hi <= |s| && SameOutside(s, r, lo, hi) && multiset(r) == multiset(s)
    ensures multiset(r[lo..hi]) == multiset(s[lo..hi])
  {
    ThreeParts(s, lo, hi);
    ThreeParts(r, lo, hi);
    SameParts(s, r, lo, hi);
    var a, b := multiset(s[..lo]), multiset(s[hi..]);
    var x, y := multiset(s[lo..hi]), multiset(r[lo..hi]);
    forall e ensures y[e] == x[e] {
      assert multiset(s)[e] == a[e] + x[e] + b[e];
      assert multiset(r)[e] == a[e] + y[e] + b[e];
    }
  }

  /**
   * Rearranging `[lo, hi)` among itself keeps any property that every element
   * of the range had.
   */
  lemma RangeKeeps<T>(s: seq<T>, r: seq<T>, lo: int, hi: int, P: T -> bool)
    requires 0 <= lo <= hi <= |s| && SameOutside(s, r, lo, hi) && multiset(r) == multiset(s)
    requires forall k :: lo <= k < hi ==> P(s[k])
    ensures forall k :: lo <= k < hi ==> P(r[k])
  {
    RangeMultiset(s, r, lo, hi);
    forall k | lo <= k < hi ensures P(r[k]) {
      assert r[k] == r[lo..hi][k - lo];
      assert r[k] in multiset(s[lo..hi]);
      var k' :| 0 <= k' < hi - lo && s[lo..hi][k'] == r[k];
      assert s[lo..hi][k'] == s[lo + k'];
    }
  }

  /**
   * A sorted range below a pivot at `p`, all at most the pivot, and a sorted
   * range above it, all strictly above the pivot, make one sorted range.
   */
  lemma JoinAroundPivot<T(!new)>(u: seq<T>, lo: int, p: int, hi: int, cmp: (T, T) -> int)
    requires IsComparator(cmp) && 0 <= lo <= p < hi <= |u|
    requires SortedRange(u, lo, p, cmp) && SortedRange(u, p + 1, hi, cmp)
    requires forall k :: lo <= k < p ==> cmp(u[k], u[p]) <= 0
    requires forall k :: p < k < hi ==> cmp(u[p], u[k]) < 0
    ensures SortedRange(u, lo, hi, cmp)
  {
    forall i, j | lo <= i < j < hi ensures InOrderAt(u, i, j, cmp) {
      if i < p && p < j {
        AtMostTrans(cmp, u[i], u[p], u[j]);
      } else if i == p && p < j {
      } else if i < p && j == p {
      } else if p < i {
        assert InOrderAt(u, i, j, cmp);
      } else {
        assert InOrderAt(u, i, j, cmp);
      }
    }
  }

  /**
   * The end of one `quickSort` call: `s` is partitioned around `s[p]`, `t`
   * sorts the part before `p` and `u` then sorts the part after it; `u` is
   * sorted over `[first, last]` and differs from `s` only there.
   */
  lemma QuickJoin<T(!new)>(s: seq<T>, t: seq<T>, u: seq<T>, first: int, p: int, last: int, cmp: (T, T) -> int)
    requires IsComparator(cmp) && 0 <= first <= p <= last < |s|
    requires forall k :: first <= k < p ==> cmp(s[k], s[p]) <= 0
    requires forall k :: p < k <= last ==> cmp(s[p], s[k]) < 0
    requires multiset(t) == multiset(s) && SameOutside(s, t, first, p) && SortedRange(t, first, p, cmp)
    requires multiset(u) == multiset(t) && SameOutside(t, u, p + 1, last + 1)
    requires SortedRange(u, p + 1, last + 1, cmp)
    ensures SortedRange(u, first, last + 1, cmp)
    ensures multiset(u) == multiset(s) && SameOutside(s, u, first, last + 1)
  {
    var pivot := s[p];
    assert t[p] == pivot && u[p] == pivot;
    RangeKeeps(s, t, first, p, x => cmp(x, pivot) <= 0);
    forall k | p < k <= last ensures cmp(pivot, t[k]) < 0 {
      assert t[k] == s[k];
    }
    RangeKeeps(t, u, p + 1, last + 1, x => cmp(pivot, x) < 0);
    forall i, j | first <= i < j < p ensures InOrderAt(u, i, j, cmp) {
      assert InOrderAt(t, i, j, cmp);
    }
    JoinAroundPivot(u, first, p, last + 1, cmp);
  }

  /**
   * The state of the partition loop of `quickSort` between rounds: the pivot
   * is still at `first`, everything from `first` to `up` compares at most the
   * pivot and everything after `down` up to `last` strictly above it.
   */
  ghost predicate Scanned<T>(s: seq<T>, first: int, last: int, up: int, down: int, pivot: T, cmp: (T, T) -> int) {
    && 0 <= first <= up < last < |s| && first <= down <= last
    && s[first] == pivot
    && (forall k :: first <= k <= up ==> cmp(pivot, s[k]) >= 0)
    && (forall k :: down < k <= last ==> cmp(pivot, s[k]) < 0)
  }

  /** The partition loop has ended: `[first, last]` splits after `d`, the pivot still at `first`. */
  ghost predicate SplitAt<T>(s: seq<T>, first: int, last: int, d: int, pivot: T, cmp: (T, T) -> int) {
    && 0 <= first <= d <= last < |s|
    && s[first] == pivot
    && (forall k :: first <= k <= d ==> cmp(pivot, s[k]) >= 0)
    && (forall k :: d < k <= last ==> cmp(pivot, s[k]) < 0)
  }

  /** Exchanging the pivot at `first` with the last small element puts it in its place. */
  lemma PivotPlaced<T(!new)>(s: seq<T>, r: seq<T>, first: int, last: int, p: int, pivot: T, cmp: (T, T) -> int)
    requires IsComparator(cmp) && SplitAt(s, first, last, p, pivot, cmp)
    requires r == s[first := s[p]][p := s[first]]
    ensures r[p] == pivot
    ensures forall k :: first <= k < p ==> cmp(r[k], r[p]) <= 0
    ensures forall k :: p < k <= last ==> cmp(r[p], r[k]) < 0
  {
    forall k | first <= k < p ensures cmp(r[k], r[p]) <= 0 {
      assert cmp(pivot, r[k]) >= 0;
      Flip(cmp, r[k], pivot);
    }
  }

  /**
   * What one round of the partition loop finds: `up'` and `down'` are where
   * the two scans stopped. If they have not crossed, exchanging the two
   * elements gives the next state; otherwise the range splits after `down'`.
   */
  lemma ScansMeet<T>(s: seq<T>, first: int, last: int, up: int, down: int, up': int, down': int,
                     pivot: T, cmp: (T, T) -> int)
    requires Scanned(s, first, last, up, down, pivot, cmp)
    requires up < up' <= last && (up' == last || cmp(pivot, s[up']) < 0)
    requires forall k :: up <= k < up' ==> cmp(pivot, s[k]) >= 0
    requires first <= down' <= down && cmp(pivot, s[down']) >= 0
    requires forall k :: down' < k <= down ==> cmp(pivot, s[k]) < 0
    ensures up' < down' ==> Scanned(s[up' := s[down']][down' := s[up']], first, last, up', down', pivot, cmp)
    ensures down' <= up' ==> SplitAt(s, first, last, down', pivot, cmp)
  {
    if up' < down' {
      var r := s[up' := s[down']][down' := s[up']];
      forall k | first <= k <= up' ensures cmp(pivot, r[k]) >= 0 {
        if k < up' {
          assert r[k] == s[k];
        }
      }
      forall k | down' < k <= last ensures cmp(pivot, r[k]) < 0 {
        assert r[k] == s[k];
      }
    }
  }
}
