/** Facts about comparator order and permutations that the in-place sorts share. */
module SortFacts {
  import opened Comparators

  /** Exchanging two positions of a sequence keeps its multiset of elements. */
  lemma SwapPermutes<T>(s: seq<T>, p: int, q: int)
    requires 0 <= p < |s| && 0 <= q < |s|
    ensures multiset(s[p := s[q]][q := s[p]]) == multiset(s)
  {
    if p != q {
      var t := s[p := s[q]];
      assert multiset(t) == multiset(s) - multiset{s[p]} + multiset{s[q]};
      assert multiset(t[q := s[p]]) == multiset(t) - multiset{t[q]} + multiset{s[p]};
    }
  }

  /** The neighbours `s[k]`, `s[k + 1]` are in order for every `k < hi`. */
  ghost predicate NeighboursOrdered<T>(s: seq<T>, hi: int, cmp: (T, T) -> int) {
    forall k :: 0 <= k < hi && k + 1 < |s| ==> cmp(s[k], s[k + 1]) <= 0
  }

  /** Every neighbour pair in order means every pair in order. */
  lemma {:induction false} AdjacentSorted<T(!new)>(s: seq<T>, cmp: (T, T) -> int)
    requires IsComparator(cmp)
    requires NeighboursOrdered(s, |s| - 1, cmp)
    ensures Sorted(s, cmp)
  {
    if |s| > 1 {
      Laws(cmp);
      AdjacentSorted(s[1..], cmp);
      forall i, j | 0 <= i < j < |s| ensures InOrderAt(s, i, j, cmp) {
        if i > 0 {
          assert InOrderAt(s[1..], i - 1, j - 1, cmp);
          assert s[1..][i - 1] == s[i] && s[1..][j - 1] == s[j];
        } else if j > 1 {
          assert InOrderAt(s[1..], 0, j - 1, cmp);
          assert s[1..][0] == s[1] && s[1..][j - 1] == s[j];
        }
      }
    }
  }

  /**
   * Taking `a[i]` out and putting it back at position `j <= i`, everything in
   * between moving up one place, keeps the multiset of elements.
   */
  lemma RotatePermutes<T>(a: seq<T>, b: seq<T>, j: int, i: int)
    requires 0 <= j <= i < |a| == |b|
    requires forall k :: 0 <= k < j ==> b[k] == a[k]
    requires b[j] == a[i]
    requires forall k :: j < k <= i ==> b[k] == a[k - 1]
    requires forall k :: i < k < |a| ==> b[k] == a[k]
    ensures multiset(b) == multiset(a)
  {
    assert b[..j] == a[..j];
    assert b[j + 1..i + 1] == a[j..i];
    assert b[i + 1..] == a[i + 1..];
    assert b == b[..j] + [b[j]] + b[j + 1..i + 1] + b[i + 1..];
    assert a == a[..j] + a[j..i] + [a[i]] + a[i + 1..];
  }

  /** Everything before position `m` compares at most everything from `m` on. */
  ghost predicate Partitioned<T>(s: seq<T>, m: int, cmp: (T, T) -> int) {
    forall k, l :: 0 <= k < m <= l < |s| ==> cmp(s[k], s[l]) <= 0
  }

  /** A sorted front and a sorted back, partitioned at `m`, make a sorted whole. */
  lemma SortedJoin<T>(s: seq<T>, m: int, cmp: (T, T) -> int)
    requires 0 <= m <= |s|
    requires Sorted(s[..m], cmp) && Sorted(s[m..], cmp) && Partitioned(s, m, cmp)
    ensures Sorted(s, cmp)
  {
    forall i, j | 0 <= i < j < |s| ensures InOrderAt(s, i, j, cmp) {
      if j < m {
        assert InOrderAt(s[..m], i, j, cmp);
      } else if m <= i {
        assert InOrderAt(s[m..], i - m, j - m, cmp);
        assert s[m..][i - m] == s[i] && s[m..][j - m] == s[j];
      }
    }
  }

  /** Two sequences with the same multiset and the same back have the same multiset in front. */
  lemma FrontMultiset<T>(r: seq<T>, s: seq<T>, m: int)
    requires 0 <= m <= |r| == |s|
    requires multiset(r) == multiset(s) && r[m..] == s[m..]
    ensures multiset(r[..m]) == multiset(s[..m])
  {
    assert r == r[..m] + r[m..];
    assert s == s[..m] + s[m..];
    assert multiset(r) == multiset(r[..m]) + multiset(r[m..]);
    assert multiset(s) == multiset(s[..m]) + multiset(s[m..]);
    forall x ensures multiset(r[..m])[x] == multiset(s[..m])[x] {
      assert multiset(r)[x] == multiset(r[..m])[x] + multiset(r[m..])[x];
    }
  }

  /**
   * Rearranging the front of a partitioned sequence among itself, the back left
   * alone, keeps it partitioned.
   */
  lemma PartitionKept<T>(s: seq<T>, r: seq<T>, m: int, cmp: (T, T) -> int)
    requires 0 <= m <= |s| == |r|
    requires multiset(r) == multiset(s) && r[m..] == s[m..]
    requires Partitioned(s, m, cmp)
    ensures Partitioned(r, m, cmp)
  {
    FrontMultiset(r, s, m);
    forall k, l | 0 <= k < m <= l < |r| ensures cmp(r[k], r[l]) <= 0 {
      assert r[..m][k] == r[k];
      assert r[k] in multiset(s[..m]);
      var k' :| 0 <= k' < m && s[..m][k'] == r[k];
      assert r[l] == r[m..][l - m] == s[m..][l - m] == s[l];
    }
  }
}
