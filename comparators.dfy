/**
 * The contract of a `java.util.Comparator`, integer arithmetic as Java does it,
 * and what it means for a sequence to be in comparator order.
 */
module Comparators {

  /** `cmp(a, b)` and `cmp(b, a)` have opposite signs (or are both zero). */
  ghost predicate Antisymmetric<T>(cmp: (T, T) -> int, a: T, b: T) {
    cmp(a, b) < 0 <==> cmp(b, a) > 0
  }

  /** "Compares at most" (`cmp(x, y) <= 0`) carries over from `a` through `b` to `c`. */
  ghost predicate TransitiveAt<T>(cmp: (T, T) -> int, a: T, b: T, c: T) {
    cmp(a, b) <= 0 && cmp(b, c) <= 0 ==> cmp(a, c) <= 0
  }

  /**
   * `cmp` behaves as a Java comparator that imposes a total preorder. The two
   * laws are stated through the predicates above, so that a proof brings them
   * into play where it needs them (by `Laws` or the single-step lemmas below)
   * rather than everywhere a comparison appears.
   */
  ghost predicate IsComparator<T(!new)>(cmp: (T, T) -> int) {
    && (forall a, b :: Antisymmetric(cmp, a, b))
    && (forall a, b, c :: TransitiveAt(cmp, a, b, c))
  }

  /** Both laws, for every argument. */
  lemma Laws<T(!new)>(cmp: (T, T) -> int)
    requires IsComparator(cmp)
    ensures forall a, b :: cmp(a, b) < 0 <==> cmp(b, a) > 0
    ensures forall a, b, c {:trigger cmp(a, b), cmp(b, c), cmp(a, c)} ::
      cmp(a, b) <= 0 && cmp(b, c) <= 0 ==> cmp(a, c) <= 0
  {
    forall a, b ensures cmp(a, b) < 0 <==> cmp(b, a) > 0 {
      assert Antisymmetric(cmp, a, b);
    }
    forall a, b, c ensures cmp(a, b) <= 0 && cmp(b, c) <= 0 ==> cmp(a, c) <= 0 {
      assert TransitiveAt(cmp, a, b, c);
    }
  }

  lemma Reflexive<T(!new)>(cmp: (T, T) -> int, a: T)
    requires IsComparator(cmp)
    ensures cmp(a, a) == 0
  {
    assert Antisymmetric(cmp, a, a);
  }

  /** Swapping the arguments flips the sign. */
  lemma Flip<T(!new)>(cmp: (T, T) -> int, a: T, b: T)
    requires IsComparator(cmp)
    ensures cmp(a, b) < 0 <==> cmp(b, a) > 0
    ensures cmp(a, b) > 0 <==> cmp(b, a) < 0
  {
    assert Antisymmetric(cmp, a, b) && Antisymmetric(cmp, b, a);
  }

  /** "At most" is transitive. */
  lemma AtMostTrans<T(!new)>(cmp: (T, T) -> int, a: T, b: T, c: T)
    requires IsComparator(cmp)
    requires cmp(a, b) <= 0 && cmp(b, c) <= 0
    ensures cmp(a, c) <= 0
  {
    assert TransitiveAt(cmp, a, b, c);
  }

  /** Strict "less than" composes with "at most" on either side. */
  lemma LessTrans<T(!new)>(cmp: (T, T) -> int, a: T, b: T, c: T)
    requires IsComparator(cmp)
    requires (cmp(a, b) < 0 && cmp(b, c) <= 0) || (cmp(a, b) <= 0 && cmp(b, c) < 0)
    ensures cmp(a, c) < 0
  {
    Laws(cmp);
  }

  /** Positions `i` and `j` of `s` hold elements in comparator order. */
  ghost predicate InOrderAt<T>(s: seq<T>, i: int, j: int, cmp: (T, T) -> int) {
    0 <= i < |s| && 0 <= j < |s| && cmp(s[i], s[j]) <= 0
  }

  /**
   * `s` is non-decreasing under `cmp`, every pair of positions compared. The
   * pairs are stated through `InOrderAt`, so that a proof about an array
   * compares elements only where it asks for a pair.
   */
  ghost predicate Sorted<T>(s: seq<T>, cmp: (T, T) -> int) {
    forall i, j :: 0 <= i < j < |s| ==> InOrderAt(s, i, j, cmp)
  }

  /** Java's `/` on `int`: the quotient is truncated toward zero. */
  function JavaDiv(a: int, b: int): int
    requires b > 0
  {
    if a >= 0 then a / b else -((-a) / b)
  }

  /** Java's `%` on `int`: the remainder takes the sign of the dividend. */
  function JavaRem(a: int, b: int): (r: int)
    requires b > 0
    ensures a == JavaDiv(a, b) * b + r
    ensures a >= 0 ==> 0 <= r < b
    ensures a < 0 ==> -b < r <= 0
  {
    a - JavaDiv(a, b) * b
  }
}
