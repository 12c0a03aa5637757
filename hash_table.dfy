/**
 * `HashTable`: a map from keys to values in a fixed array of 1000 buckets,
 * each a list of key-value pairs (separate chaining). A key's bucket is its
 * `hashCode()` reduced into `[0, 1000)`, and keys are compared with
 * `equals`. Both are given to the table as functions, `hash` and `eq`, which
 * are expected to keep Java's `equals`/`hashCode` contract. Keys and values
 * are Java references: an `Option` argument stands for a reference that may
 * be null, and a stored pair never holds null.
 */
module HashTables {
  import opened Wrappers
  import opened ListOps
  import opened Comparators

  /** The number of buckets, `table.length`. */
  const Buckets := 1000

  // ---------------------------------------------------------------------------
  // keyIndex
  // ---------------------------------------------------------------------------

  /**
   * `keyIndex(key)` for a key whose `hashCode()` is `hashCode`: Java's
   * remainder by 1000, moved up by 1000 when it is negative. The result is a
   * bucket, and it is the (never negative) modulus of `hashCode`.
   */
  function KeyIndex(hashCode: int): (index: int)
    ensures 0 <= index < Buckets
    ensures index == hashCode % Buckets
  {
    var temp := JavaRem(hashCode, Buckets);
    RemainderFixed(hashCode);
    if temp < 0 then temp + Buckets else temp
  }

  /** Moving a negative Java remainder up by 1000 gives the modulus. */
  lemma RemainderFixed(a: int)
    ensures var temp := JavaRem(a, Buckets);
      (if temp < 0 then temp + Buckets else temp) == a % Buckets
  {
    if a < 0 {
      var q, r := (-a) / Buckets, (-a) % Buckets;
      assert -a == Buckets * q + r && 0 <= r < Buckets;
      if r > 0 {
        assert a == Buckets * (-q - 1) + (Buckets - r);
      } else {
        assert a == Buckets * (-q);
      }
    }
  }

  // ---------------------------------------------------------------------------
  // Buckets
  // ---------------------------------------------------------------------------

  /** A key-value pair, `keyPair`. */
  datatype Pair<E, K> = Pair(key: E, val: K)

  /** Java's contract for `equals` and `hashCode`: an equivalence that equal hash codes respect. */
  ghost predicate EqualsContract<E(!new)>(hash: E -> int, eq: (E, E) -> bool) {
    && (forall a :: eq(a, a))
    && (forall a, b :: eq(a, b) ==> eq(b, a))
    && (forall a, b, c {:trigger eq(a, b), eq(b, c)} :: eq(a, b) && eq(b, c) ==> eq(a, c))
    && (forall a, b :: eq(a, b) ==> hash(a) == hash(b))
  }

  /** No pair of a bucket has a key equal to that of a later pair. */
  ghost predicate Unique<E, K>(b: seq<Pair<E, K>>, eq: (E, E) -> bool) {
    forall m, n :: 0 <= m < n < |b| ==> !eq(b[m].key, b[n].key)
  }

  /** Every pair of a bucket belongs in bucket `index`. */
  ghost predicate Placed<E, K>(b: seq<Pair<E, K>>, index: int, hash: E -> int) {
    forall m :: 0 <= m < |b| ==> KeyIndex(hash(b[m].key)) == index
  }

  /**
   * The position of the first pair whose key `equals` the given key, as the
   * iteration over a bucket meets it, or the bucket's length when there is none.
   */
  function Find<E, K>(b: seq<Pair<E, K>>, key: E, eq: (E, E) -> bool): (m: int)
    ensures 0 <= m <= |b|
    ensures forall j :: 0 <= j < m ==> !eq(b[j].key, key)
    ensures m < |b| ==> eq(b[m].key, key)
  {
    if b == [] then 0
    else if eq(b[0].key, key) then 0
    else 1 + Find(b[1..], key, eq)
  }

  /** The value a bucket pairs with `key`, or null. */
  function Lookup<E, K>(b: seq<Pair<E, K>>, key: E, eq: (E, E) -> bool): Option<K> {
    var m := Find(b, key, eq);
    if m < |b| then Some(b[m].val) else None
  }

  /**
   * The bucket after `put(key, val)`: the first pair with an equal key keeps
   * its key and takes the new value, or else a new pair goes at the end.
   */
  function Stored<E, K>(b: seq<Pair<E, K>>, key: E, val: K, eq: (E, E) -> bool): seq<Pair<E, K>> {
    var m := Find(b, key, eq);
    if m < |b| then b[m := Pair(b[m].key, val)] else b + [Pair(key, val)]
  }

  /** The bucket after `remove(key)`: without the first pair with an equal key. */
  function Deleted<E, K>(b: seq<Pair<E, K>>, key: E, eq: (E, E) -> bool): seq<Pair<E, K>> {
    var m := Find(b, key, eq);
    if m < |b| then Removed(b, m) else b
  }

  /** Any index with the two properties of `Find` is `Find`'s. */
  lemma FindUnique<E, K>(b: seq<Pair<E, K>>, key: E, eq: (E, E) -> bool, m: int)
    requires 0 <= m <= |b|
    requires forall j :: 0 <= j < m ==> !eq(b[j].key, key)
    requires m < |b| ==> eq(b[m].key, key)
    ensures Find(b, key, eq) == m
  {
    var f := Find(b, key, eq);
    assert f < |b| ==> eq(b[f].key, key);
    assert m < |b| ==> eq(b[m].key, key);
  }

  /** After `put(key, val)` the bucket pairs `key` with `val`. */
  lemma LookupStored<E, K>(b: seq<Pair<E, K>>, key: E, val: K, eq: (E, E) -> bool)
    requires eq(key, key)
    ensures Lookup(Stored(b, key, val, eq), key, eq) == Some(val)
  {
    var m := Find(b, key, eq);
    var s := Stored(b, key, val, eq);
    if m < |b| {
      FindUnique(s, key, eq, m);
    } else {
      FindUnique(s, key, eq, |b|);
    }
  }

  /** `put(key, val)` leaves what the bucket pairs with every key not equal to `key`. */
  lemma LookupStoredOther<E(!new), K>(b: seq<Pair<E, K>>, key: E, val: K, other: E, hash: E -> int, eq: (E, E) -> bool)
    requires EqualsContract(hash, eq) && !eq(key, other)
    ensures Lookup(Stored(b, key, val, eq), other, eq) == Lookup(b, other, eq)
  {
    var m, f := Find(b, key, eq), Find(b, other, eq);
    var s := Stored(b, key, val, eq);
    if m < |b| {
      assert eq(b[m].key, key);
      assert f != m;
      FindUnique(s, other, eq, f);
    } else if f < |b| {
      FindUnique(s, other, eq, f);
    } else {
      FindUnique(s, other, eq, |s|);
    }
  }

  /** `put` keeps the keys of a bucket unique. */
  lemma StoredUnique<E, K>(b: seq<Pair<E, K>>, key: E, val: K, eq: (E, E) -> bool)
    requires Unique(b, eq)
    ensures Unique(Stored(b, key, val, eq), eq)
  {
    var s := Stored(b, key, val, eq);
    forall m, n | 0 <= m < n < |s|
      ensures !eq(s[m].key, s[n].key)
    {
      if n == |b| {
        assert !eq(b[m].key, key);
      } else {
        assert s[m].key == b[m].key && s[n].key == b[n].key;
      }
    }
  }

  /** `put` places its new pair in the bucket of its key. */
  lemma StoredPlaced<E, K>(b: seq<Pair<E, K>>, key: E, val: K, hash: E -> int, eq: (E, E) -> bool)
    requires Placed(b, KeyIndex(hash(key)), hash)
    ensures Placed(Stored(b, key, val, eq), KeyIndex(hash(key)), hash)
  {
    var s := Stored(b, key, val, eq);
    forall m | 0 <= m < |s|
      ensures KeyIndex(hash(s[m].key)) == KeyIndex(hash(key))
    {
      if m < |b| {
        assert s[m].key == b[m].key;
      }
    }
  }

  /** After `remove(key)` a bucket with unique keys pairs `key` with nothing. */
  lemma LookupDeleted<E(!new), K>(b: seq<Pair<E, K>>, key: E, hash: E -> int, eq: (E, E) -> bool)
    requires EqualsContract(hash, eq) && Unique(b, eq)
    ensures Lookup(Deleted(b, key, eq), key, eq) == None
  {
    var m := Find(b, key, eq);
    var d := Deleted(b, key, eq);
    if m < |b| {
      forall j | 0 <= j < |d|
        ensures !eq(d[j].key, key)
      {
        if j >= m {
          assert d[j] == b[j + 1] && !eq(b[m].key, b[j + 1].key);
        }
      }
      FindUnique(d, key, eq, |d|);
    }
  }

  /** `remove(key)` leaves what the bucket pairs with every key not equal to `key`. */
  lemma LookupDeletedOther<E(!new), K>(b: seq<Pair<E, K>>, key: E, other: E, hash: E -> int, eq: (E, E) -> bool)
    requires EqualsContract(hash, eq) && Unique(b, eq) && !eq(key, other)
    ensures Lookup(Deleted(b, key, eq), other, eq) == Lookup(b, other, eq)
  {
    var m, f := Find(b, key, eq), Find(b, other, eq);
    var d := Deleted(b, key, eq);
    if m < |b| {
      assert eq(b[m].key, key);
      assert f != m;
      if f < m {
        FindUnique(d, other, eq, f);
      } else {
        FindUnique(d, other, eq, f - 1);
      }
    }
  }

  /** `remove` keeps a bucket's keys unique and its pairs in place. */
  lemma DeletedKept<E, K>(b: seq<Pair<E, K>>, key: E, index: int, hash: E -> int, eq: (E, E) -> bool)
    requires Unique(b, eq) && Placed(b, index, hash)
    ensures Unique(Deleted(b, key, eq), eq) && Placed(Deleted(b, key, eq), index, hash)
  {
    var m := Find(b, key, eq);
    var d := Deleted(b, key, eq);
    if m < |b| {
      forall i, j | 0 <= i < j < |d|
        ensures !eq(d[i].key, d[j].key)
      {
        var i', j' := if i < m then i else i + 1, if j < m then j else j + 1;
        assert d[i] == b[i'] && d[j] == b[j'];
      }
    }
  }

  // ---------------------------------------------------------------------------
  // The table
  // ---------------------------------------------------------------------------

  /** The pairs of a bucket; a null bucket has none. */
  function Pairs<E, K>(bucket: Option<seq<Pair<E, K>>>): seq<Pair<E, K>> {
    match bucket
    case None => []
    case Some(b) => b
  }

  class HashTable<E(!new), K> {
    /** `key.hashCode()`. */
    const hash: E -> int
    /** `a.equals(b)`. */
    const eq: (E, E) -> bool
    /** The buckets; a null entry is a bucket never used. */
    const table: array<Option<seq<Pair<E, K>>>>


    /**
     * The table invariant: 1000 buckets, every pair in the bucket of its key,
     * and no two keys of a bucket equal.
     */
    ghost predicate Valid()
      reads this, table
    {
      && table.Length == Buckets
      && EqualsContract(hash, eq)
      && forall index :: 0 <= index < Buckets ==>
           Placed(Pairs(table[index]), index, hash) && Unique(Pairs(table[index]), eq)
    }

    /** The value the table maps `key` to, or null. */
    ghost function ValueOf(key: E): Option<K>
      reads this, table
      requires Valid()
    {
      Lookup(Pairs(table[KeyIndex(hash(key))]), key, eq)
    }

    /**
     * Each key occurs at most once in the whole table: no two pairs, in the
     * same bucket or not, have equal keys.
     */
    lemma KeyOnce(i: int, m: int, j: int, n: int)
      requires Valid() && 0 <= i < Buckets && 0 <= j < Buckets
      requires 0 <= m < |Pairs(table[i])| && 0 <= n < |Pairs(table[j])| && (i, m) != (j, n)
      ensures !eq(Pairs(table[i])[m].key, Pairs(table[j])[n].key)
    {
      var a, b := Pairs(table[i])[m].key, Pairs(table[j])[n].key;
      assert KeyIndex(hash(a)) == i && KeyIndex(hash(b)) == j;
      if i == j && n < m {
        assert !eq(b, a);
      }
    }

    /** `new HashTable()`: 1000 null buckets. */
    constructor(hash: E -> int, eq: (E, E) -> bool)
      requires EqualsContract(hash, eq)
      ensures Valid() && fresh(table)
      ensures forall key :: ValueOf(key) == None
    {
      this.hash := hash;
      this.eq := eq;
      table := new Option<seq<Pair<E, K>>>[Buckets](_ => None);
    }

    /**
     * `put(key, val)`: NullPointerException when either is null; otherwise the
     * value previously paired with `key`, or null, and afterwards `key` maps
     * to `val` while every other key keeps its value.
     */
    method Put(key: Option<E>, val: Option<K>) returns (r: Result<Option<K>>)
      requires Valid()
      modifies table
      ensures Valid()
      ensures key == None || val == None ==> r == Throws(NullPointer) && unchanged(table)
      ensures key != None && val != None ==>
        && r == Ok(old(ValueOf(key.value)))
        && ValueOf(key.value) == Some(val.value)
        && (forall other :: !eq(key.value, other) ==> ValueOf(other) == old(ValueOf(other)))
    {
      if key == None || val == None {
        return Throws(NullPointer);
      }
      var k, v := key.value, val.value;
      var index := KeyIndex(hash(k));
      ghost var before := Pairs(table[index]);
      match table[index]
      case None =>
        SetStored(index, k, v, [Pair(k, v)]);
        r := Ok(None);
      case Some(b) =>
        var j := 0;
        while j < |b|
          invariant 0 <= j <= |b|
          invariant forall l :: 0 <= l < j ==> !eq(b[l].key, k)
        {
          if eq(b[j].key, k) {
            var temp := b[j].val;
            FindUnique(b, k, eq, j);
            SetStored(index, k, v, b[j := Pair(b[j].key, v)]);
            return Ok(Some(temp));
          }
          j := j + 1;
        }
        FindUnique(b, k, eq, |b|);
        SetStored(index, k, v, b + [Pair(k, v)]);
        r := Ok(None);
    }

    /**
     * Makes `bucket`, the bucket `index` of `key` after storing `val` under
     * `key`, the table's: `key` maps to `val` and every other key keeps its
     * value.
     */
    method SetStored(index: int, key: E, val: K, bucket: seq<Pair<E, K>>)
      requires Valid() && index == KeyIndex(hash(key))
      requires bucket == Stored(Pairs(table[index]), key, val, eq)
      modifies table
      ensures Valid()
      ensures ValueOf(key) == Some(val)
      ensures forall other :: !eq(key, other) ==> ValueOf(other) == old(ValueOf(other))
    {
      ghost var before := Pairs(table[index]);
      table[index] := Some(bucket);
      StoredKept(index, before, key, val);
    }

    /** The table after its bucket `index` has become `Stored(before, key, val)`. */
    lemma StoredKept(index: int, before: seq<Pair<E, K>>, key: E, val: K)
      requires table.Length == Buckets && EqualsContract(hash, eq) && index == KeyIndex(hash(key))
      requires Placed(before, index, hash) && Unique(before, eq)
      requires Pairs(table[index]) == Stored(before, key, val, eq)
      ensures Placed(Pairs(table[index]), index, hash) && Unique(Pairs(table[index]), eq)
      ensures Lookup(Pairs(table[index]), key, eq) == Some(val)
      ensures forall other :: !eq(key, other) ==> Lookup(Pairs(table[index]), other, eq) == Lookup(before, other, eq)
    {
      StoredPlaced(before, key, val, hash, eq);
      StoredUnique(before, key, val, eq);
      LookupStored(before, key, val, eq);
      forall other | !eq(key, other)
        ensures Lookup(Pairs(table[index]), other, eq) == Lookup(before, other, eq)
      {
        LookupStoredOther(before, key, val, other, hash, eq);
      }
    }

    /**
     * `get(key)`: NullPointerException for a null key; otherwise the value
     * paired with a key equal to `key`, or null.
     */
    method Get(key: Option<E>) returns (r: Result<Option<K>>)
      requires Valid()
      ensures key == None ==> r == Throws(NullPointer)
      ensures key != None ==> r == Ok(ValueOf(key.value))
    {
      if key == None {
        return Throws(NullPointer);
      }
      var k := key.value;
      var index := KeyIndex(hash(k));
      match table[index]
      case None =>
        r := Ok(None);
      case Some(b) =>
        var j := 0;
        while j < |b|
          invariant 0 <= j <= |b|
          invariant forall l :: 0 <= l < j ==> !eq(b[l].key, k)
        {
          if eq(b[j].key, k) {
            FindUnique(b, k, eq, j);
            return Ok(Some(b[j].val));
          }
          j := j + 1;
        }
        FindUnique(b, k, eq, |b|);
        r := Ok(None);
    }

    /**
     * `remove(key)`: NullPointerException for a null key; otherwise the value
     * paired with `key`, or null, and afterwards `key` maps to nothing while
     * every other key keeps its value.
     */
    method Remove(key: Option<E>) returns (r: Result<Option<K>>)
      requires Valid()
      modifies table
      ensures Valid()
      ensures key == None ==> r == Throws(NullPointer) && unchanged(table)
      ensures key != None ==>
        && r == Ok(old(ValueOf(key.value)))
        && ValueOf(key.value) == None
        && (forall other :: !eq(key.value, other) ==> ValueOf(other) == old(ValueOf(other)))
    {
      if key == None {
        return Throws(NullPointer);
      }
      var k := key.value;
      var index := KeyIndex(hash(k));
      match table[index]
      case None =>
        r := Ok(None);
      case Some(b) =>
        var i := 0;
        while i < |b|
          invariant 0 <= i <= |b|
          invariant forall l :: 0 <= l < i ==> !eq(b[l].key, k)
        {
          if eq(b[i].key, k) {
            var removed := b[i];
            FindUnique(b, k, eq, i);
            SetDeleted(index, k, Removed(b, i));
            return Ok(Some(removed.val));
          }
          i := i + 1;
        }
        FindUnique(b, k, eq, |b|);
        r := Ok(None);
    }

    /**
     * Makes `bucket`, the bucket `index` of `key` after removing `key`, the
     * table's: `key` maps to nothing and every other key keeps its value.
     */
    method SetDeleted(index: int, key: E, bucket: seq<Pair<E, K>>)
      requires Valid() && index == KeyIndex(hash(key))
      requires bucket == Deleted(Pairs(table[index]), key, eq)
      modifies table
      ensures Valid()
      ensures ValueOf(key) == None
      ensures forall other :: !eq(key, other) ==> ValueOf(other) == old(ValueOf(other))
    {
      ghost var before := Pairs(table[index]);
      table[index] := Some(bucket);
      DeletedTable(index, before, key);
    }

    /** The table after its bucket `index` has become `Deleted(before, key)`. */
    lemma DeletedTable(index: int, before: seq<Pair<E, K>>, key: E)
      requires table.Length == Buckets && EqualsContract(hash, eq) && index == KeyIndex(hash(key))
      requires Placed(before, index, hash) && Unique(before, eq)
      requires Pairs(table[index]) == Deleted(before, key, eq)
      ensures Placed(Pairs(table[index]), index, hash) && Unique(Pairs(table[index]), eq)
      ensures Lookup(Pairs(table[index]), key, eq) == None
      ensures forall other :: !eq(key, other) ==> Lookup(Pairs(table[index]), other, eq) == Lookup(before, other, eq)
    {
      DeletedKept(before, key, index, hash, eq);
      LookupDeleted(before, key, hash, eq);
      forall other | !eq(key, other)
        ensures Lookup(Pairs(table[index]), other, eq) == Lookup(before, other, eq)
      {
        LookupDeletedOther(before, key, other, hash, eq);
      }
    }
  }
}
