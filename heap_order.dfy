/**
 * The implicit binary heap of `heapSort`: position k > 0 has its parent at
 * (k - 1) / 2, and a max-heap keeps every element at most its parent. The
 * sift-up and sift-down loops restore that order around one "hole".
 */
module HeapOrder {
  import opened Comparators

  /**
   * Java's `(child - 1) / 2`. Division truncates toward zero, so the root is
   * its own parent rather than having parent -1.
   */
  function Parent(k: int): (p: int)
    requires k >= 0
    ensures k == 0 ==> p == 0
    ensures k > 0 ==> 0 <= p < k && 2 * p + 1 <= k <= 2 * p + 2
  {
    JavaDiv(k - 1, 2)
  }

  /** Position `k` is not the root and holds at most what its parent holds. */
  ghost predicate HeapOrderAt<T>(s: seq<T>, k: int, cmp: (T, T) -> int) {
    0 < k < |s| && cmp(s[k], s[Parent(k)]) <= 0
  }

  /** `s[..n]` is a max-heap. */
  ghost predicate IsHeap<T>(s: seq<T>, n: int, cmp: (T, T) -> int) {
    forall k :: 0 < k < n ==> HeapOrderAt(s, k, cmp)
  }

  /**
   * `s[..n]` is a max-heap except that `c` may be above its parent; the
   * children of `c` are at most `c`'s parent, so that moving `c` up is safe.
   */
  ghost predicate HeapExceptUp<T>(s: seq<T>, n: int, c: int, cmp: (T, T) -> int) {
    && 0 <= c < n <= |s|
    && (forall k :: 0 < k < n && k != c ==> HeapOrderAt(s, k, cmp))
    && (c > 0 ==> forall k :: 0 < k < n && Parent(k) == c ==> InOrderAt(s, k, Parent(c), cmp))
  }

  /**
   * `s[..n]` is a max-heap except that the children of `p` may be above `p`;
   * they are at most `p`'s parent, so that moving `p` down is safe.
   */
  ghost predicate HeapExceptDown<T>(s: seq<T>, n: int, p: int, cmp: (T, T) -> int) {
    && 0 <= p && n <= |s|
    && (forall k :: 0 < k < n && Parent(k) != p ==> HeapOrderAt(s, k, cmp))
    && (p > 0 ==> forall k :: 0 < k < n && Parent(k) == p ==> InOrderAt(s, k, Parent(p), cmp))
  }

  /** `m` is a child of `p` inside `s[..n]` holding the larger of `p`'s children. */
  ghost predicate MaxChild<T>(s: seq<T>, n: int, p: int, m: int, cmp: (T, T) -> int) {
    && 0 <= p && (m == 2 * p + 1 || m == 2 * p + 2) && m < n <= |s|
    && InOrderAt(s, 2 * p + 1, m, cmp)
    && (2 * p + 2 < n ==> InOrderAt(s, 2 * p + 2, m, cmp))
  }

  /** Every element of a max-heap is at most its root. */
  lemma {:induction false} HeapBelowRoot<T(!new)>(s: seq<T>, n: int, k: int, cmp: (T, T) -> int)
    requires IsComparator(cmp) && IsHeap(s, n, cmp) && 0 <= k < n <= |s|
    ensures cmp(s[k], s[0]) <= 0
    decreases k
  {
    if k == 0 {
      Reflexive(cmp, s[0]);
    } else {
      HeapBelowRoot(s, n, Parent(k), cmp);
      assert HeapOrderAt(s, k, cmp);
      AtMostTrans(cmp, s[k], s[Parent(k)], s[0]);
    }
  }

  /** Appending a leaf to a heap leaves a heap except possibly at the new leaf. */
  lemma SiftUpStart<T>(s: seq<T>, n: int, cmp: (T, T) -> int)
    requires 1 <= n <= |s| && IsHeap(s, n - 1, cmp)
    ensures HeapExceptUp(s, n, n - 1, cmp)
  {
  }

  /**
   * One step of sift-up: when `c` is above its parent the two are exchanged,
   * and the hole moves to the parent.
   */
  lemma SiftUpStep<T(!new)>(s: seq<T>, n: int, c: int, cmp: (T, T) -> int)
    requires IsComparator(cmp) && HeapExceptUp(s, n, c, cmp) && c > 0
    requires cmp(s[Parent(c)], s[c]) < 0
    ensures HeapExceptUp(s[Parent(c) := s[c]][c := s[Parent(c)]], n, Parent(c), cmp)
  {
    var q := Parent(c);
    var r := s[q := s[c]][c := s[q]];
    forall k | 0 < k < n && k != q ensures HeapOrderAt(r, k, cmp) {
      if k == c {
        assert r[k] == s[q] && r[Parent(k)] == s[c];
      } else if Parent(k) == c {
        assert InOrderAt(s, k, q, cmp);
      } else if Parent(k) == q {
        assert HeapOrderAt(s, k, cmp);
        AtMostTrans(cmp, s[k], s[q], s[c]);
      } else {
        assert HeapOrderAt(s, k, cmp);
      }
    }
    if q > 0 {
      forall k | 0 < k < n && Parent(k) == q ensures InOrderAt(r, k, Parent(q), cmp) {
        assert HeapOrderAt(s, q, cmp);
        if k != c {
          assert HeapOrderAt(s, k, cmp);
          AtMostTrans(cmp, s[k], s[q], s[Parent(q)]);
        }
      }
    }
  }

  /** Sift-up stops at the root or below a parent that is at least the hole: a heap. */
  lemma SiftUpDone<T(!new)>(s: seq<T>, n: int, c: int, cmp: (T, T) -> int)
    requires IsComparator(cmp) && HeapExceptUp(s, n, c, cmp)
    requires c == 0 || cmp(s[Parent(c)], s[c]) >= 0
    ensures IsHeap(s, n, cmp)
  {
    if c > 0 {
      Flip(cmp, s[c], s[Parent(c)]);
      assert HeapOrderAt(s, c, cmp);
    }
  }

  /**
   * Exchanging the root of the heap `s[..n + 1]` with its last element moves a
   * largest element to `n`; what remains before `n` is a heap except at the root.
   */
  lemma DrainStart<T(!new)>(s: seq<T>, r: seq<T>, n: int, cmp: (T, T) -> int)
    requires IsComparator(cmp) && 0 <= n < |s| && IsHeap(s, n + 1, cmp)
    requires r == s[0 := s[n]][n := s[0]]
    ensures HeapExceptDown(r, n, 0, cmp)
    ensures forall k :: 0 <= k < n ==> InOrderAt(r, k, n, cmp)
  {
    forall k | 0 < k < n && Parent(k) != 0 ensures HeapOrderAt(r, k, cmp) {
      assert HeapOrderAt(s, k, cmp);
    }
    forall k | 0 <= k < n ensures InOrderAt(r, k, n, cmp) {
      if k == 0 {
        HeapBelowRoot(s, n + 1, n, cmp);
      } else {
        HeapBelowRoot(s, n + 1, k, cmp);
      }
    }
  }

  /** A parent without children inside `s[..n]` completes the heap. */
  lemma SiftDownLeaf<T>(s: seq<T>, n: int, p: int, cmp: (T, T) -> int)
    requires HeapExceptDown(s, n, p, cmp) && 2 * p + 1 >= n
    ensures IsHeap(s, n, cmp)
  {
  }

  /** A parent at least its larger child completes the heap. */
  lemma SiftDownDone<T(!new)>(s: seq<T>, n: int, p: int, m: int, cmp: (T, T) -> int)
    requires IsComparator(cmp) && HeapExceptDown(s, n, p, cmp) && MaxChild(s, n, p, m, cmp)
    requires cmp(s[p], s[m]) >= 0
    ensures IsHeap(s, n, cmp)
  {
    Flip(cmp, s[m], s[p]);
    forall k | 0 < k < n && Parent(k) == p ensures HeapOrderAt(s, k, cmp) {
      assert InOrderAt(s, k, m, cmp);
      AtMostTrans(cmp, s[k], s[m], s[p]);
    }
  }

  /**
   * One step of sift-down: a parent below its larger child is exchanged with
   * it, and the hole moves to that child.
   */
  lemma SiftDownStep<T(!new)>(s: seq<T>, n: int, p: int, m: int, cmp: (T, T) -> int)
    requires IsComparator(cmp) && HeapExceptDown(s, n, p, cmp) && MaxChild(s, n, p, m, cmp)
    requires cmp(s[p], s[m]) < 0
    ensures HeapExceptDown(s[p := s[m]][m := s[p]], n, m, cmp)
  {
    var r := s[p := s[m]][m := s[p]];
    forall k | 0 < k < n && Parent(k) != m ensures HeapOrderAt(r, k, cmp) {
      if k == m {
        assert r[k] == s[p] && r[Parent(k)] == s[m];
      } else if Parent(k) == p {
        assert InOrderAt(s, k, m, cmp);
      } else if k == p {
        assert InOrderAt(s, m, Parent(p), cmp);
      } else {
        assert HeapOrderAt(s, k, cmp);
      }
    }
    forall k | 0 < k < n && Parent(k) == m ensures InOrderAt(r, k, Parent(m), cmp) {
      assert HeapOrderAt(s, k, cmp);
    }
  }
}
