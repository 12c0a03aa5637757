/**
 * An unbalanced binary search tree ordered by a comparator.
 *
 * Every node of the tree has exactly one owner (its parent's `left` or `right`
 * slot, or the tree's `root`), so the recursive helpers that rewire
 * `node.left`, `node.right` and `node.data` in place are modelled as functions
 * that rebuild the path from the node they are given: the tree they return is
 * the subtree that the rewired node heads afterwards.
 */
module Trees {
  import opened Wrappers
  import opened Comparators

  datatype Tree<E> = Nil | Node(left: Tree<E>, data: E, right: Tree<E>)

  /** `new BinaryNode(item)`: a node without children. */
  function Leaf<E>(item: E): Tree<E> {
    Node(Nil, item, Nil)
  }

  ghost function Elems<E>(t: Tree<E>): set<E> {
    match t
    case Nil => {}
    case Node(l, d, r) => Elems(l) + {d} + Elems(r)
  }

  /** The number of nodes. */
  ghost function Size<E>(t: Tree<E>): nat {
    match t
    case Nil => 0
    case Node(l, _, r) => Size(l) + 1 + Size(r)
  }

  /**
   * The ordering invariant: everything in a node's left subtree compares below
   * the node's element, everything in its right subtree compares above it.
   */
  ghost predicate Ordered<E(!new)>(t: Tree<E>, cmp: (E, E) -> int) {
    match t
    case Nil => true
    case Node(l, d, r) =>
      && Ordered(l, cmp) && Ordered(r, cmp)
      && (forall x :: x in Elems(l) ==> cmp(x, d) < 0)
      && (forall x :: x in Elems(r) ==> cmp(d, x) < 0)
  }

  /** Some stored element compares equal to `item`. */
  ghost predicate HasEqual<E>(t: Tree<E>, item: E, cmp: (E, E) -> int) {
    exists x :: x in Elems(t) && cmp(x, item) == 0
  }

  /** Strictly increasing under `cmp`. */
  ghost predicate StrictlySorted<E>(s: seq<E>, cmp: (E, E) -> int) {
    forall i, j :: 0 <= i < j < |s| ==> cmp(s[i], s[j]) < 0
  }

  // ---------------------------------------------------------------------------
  // The recursive helpers, as the source writes them
  // ---------------------------------------------------------------------------

  /** `inorderString(node)`, as the sequence of elements it renders. */
  function InOrder<E>(t: Tree<E>): seq<E> {
    match t
    case Nil => []
    case Node(l, d, r) => InOrder(l) + [d] + InOrder(r)
  }

  /** `add(node, item)`: the rewired subtree and whether a leaf was attached. */
  function AddAt<E>(node: Tree<E>, item: E, cmp: (E, E) -> int): (Tree<E>, bool)
    requires node.Node?
  {
    if cmp(node.data, item) == 0 then (node, false)
    else if cmp(node.data, item) > 0 then
      if node.left.Node? then
        var (l, added) := AddAt(node.left, item, cmp);
        (node.(left := l), added)
      else (node.(left := Leaf(item)), true)
    else
      if node.right.Node? then
        var (r, added) := AddAt(node.right, item, cmp);
        (node.(right := r), added)
      else (node.(right := Leaf(item)), true)
  }

  /** `contains(node, item)` for a tree that has a comparator. */
  function ContainsAt<E>(t: Tree<E>, item: E, cmp: (E, E) -> int): bool {
    match t
    case Nil => false
    case Node(l, d, r) =>
      if cmp(d, item) == 0 then true
      else if cmp(d, item) > 0 then ContainsAt(l, item, cmp)
      else ContainsAt(r, item, cmp)
  }

  /** `find(node, target)` for a tree that has a comparator: the stored element, not the query. */
  function FindAt<E>(t: Tree<E>, target: E, cmp: (E, E) -> int): Option<E> {
    match t
    case Nil => None
    case Node(l, d, r) =>
      if cmp(d, target) == 0 then Some(d)
      else if cmp(d, target) > 0 then FindAt(l, target, cmp)
      else FindAt(r, target, cmp)
  }

  /**
   * `delete(node, target)` for a tree that has a comparator: the subtree that
   * replaces `node`, and the value the call leaves in `delReturn`.
   */
  function DeleteAt<E>(t: Tree<E>, target: E, cmp: (E, E) -> int): (Tree<E>, Option<E>) {
    match t
    case Nil => (Nil, None)
    case Node(l, d, r) =>
      if cmp(d, target) == 0 then
        var (t', removed) := ShiftNode(t);
        (t', Some(removed))
      else if cmp(d, target) > 0 then
        var (l', res) := DeleteAt(l, target, cmp);
        (t.(left := l'), res)
      else
        var (r', res) := DeleteAt(r, target, cmp);
        (t.(right := r'), res)
  }

  /**
   * `shiftNode(node)`: the subtree that takes the place of a matched node, and
   * the element it held (stored into `delReturn`). With two children the
   * in-order successor's element is copied into the node.
   */
  function ShiftNode<E>(node: Tree<E>): (Tree<E>, E)
    requires node.Node?
  {
    if node.left.Nil? then (node.right, node.data)
    else if node.right.Nil? then (node.left, node.data)
    else if node.right.left.Nil? then
      (node.(data := node.right.data, right := node.right.right), node.data)
    else
      var (r', succ) := SmallestChild(node.right);
      (node.(data := succ, right := r'), node.data)
  }

  /**
   * `smallestChild(node)` as intended: unlink the leftmost node below `node`
   * by pointing its parent's LEFT link at the leftmost node's right subtree;
   * returns the rewired subtree and the leftmost element.
   */
  function SmallestChild<E>(node: Tree<E>): (Tree<E>, E)
    requires node.Node? && node.left.Node?
  {
    if node.left.left.Nil? then (node.(left := node.left.right), node.left.data)
    else
      var (l', succ) := SmallestChild(node.left);
      (node.(left := l'), succ)
  }

  /**
   * `smallestChild(node)` as written: the base case assigns the parent's RIGHT
   * link (`node.right = node.left.right`), so the leftmost node stays linked and
   * the parent's own right subtree is dropped.
   */
  function SmallestChildAsWritten<E>(node: Tree<E>): (Tree<E>, E)
    requires node.Node? && node.left.Node?
  {
    if node.left.left.Nil? then (node.(right := node.left.right), node.left.data)
    else
      var (l', succ) := SmallestChildAsWritten(node.left);
      (node.(left := l'), succ)
  }

  // ---------------------------------------------------------------------------
  // Facts about the ordering
  // ---------------------------------------------------------------------------

  /** In an ordered tree no two distinct elements compare equal. */
  lemma {:induction false} OrderedUnique<E(!new)>(t: Tree<E>, cmp: (E, E) -> int, x: E, y: E)
    requires IsComparator(cmp) && Ordered(t, cmp)
    requires x in Elems(t) && y in Elems(t) && cmp(x, y) == 0
    ensures x == y
  {
    Laws(cmp);
    match t
    case Node(l, d, r) =>
      Reflexive(cmp, d);
      if x in Elems(l) && y in Elems(l) {
        OrderedUnique(l, cmp, x, y);
      } else if x in Elems(r) && y in Elems(r) {
        OrderedUnique(r, cmp, x, y);
      } else if x in Elems(l) && y in Elems(r) {
        LessTrans(cmp, x, d, y);
      } else if x in Elems(r) && y in Elems(l) {
        LessTrans(cmp, y, d, x);
      }
  }

  /** The elements of the in-order sequence are the elements of the tree. */
  lemma {:induction false} InOrderElems<E>(t: Tree<E>)
    ensures |InOrder(t)| == Size(t)
    ensures forall x :: x in InOrder(t) <==> x in Elems(t)
  {
    match t
    case Nil =>
    case Node(l, d, r) =>
      InOrderElems(l);
      InOrderElems(r);
  }

  /**
   * `inorderString` visits left subtree, node, right subtree, so an ordered
   * tree yields its elements in strictly ascending order, each once.
   */
  lemma {:induction false} InOrderSorted<E(!new)>(t: Tree<E>, cmp: (E, E) -> int)
    requires IsComparator(cmp) && Ordered(t, cmp)
    ensures StrictlySorted(InOrder(t), cmp)
    ensures |InOrder(t)| == Size(t)
    ensures forall x :: x in InOrder(t) <==> x in Elems(t)
  {
    InOrderElems(t);
    match t
    case Nil =>
    case Node(l, d, r) =>
      InOrderSorted(l, cmp);
      InOrderSorted(r, cmp);
      InOrderElems(l);
      InOrderElems(r);
      var sl, sr := InOrder(l), InOrder(r);
      var s := InOrder(t);
      assert s == sl + [d] + sr;
      forall i, j | 0 <= i < j < |s|
        ensures cmp(s[i], s[j]) < 0
      {
        if j < |sl| {
        } else if i >= |sl| + 1 {
          assert s[i] == sr[i - |sl| - 1] && s[j] == sr[j - |sl| - 1];
        } else if i < |sl| && j == |sl| {
          assert s[i] in sl;
        } else if i == |sl| {
          assert s[j] == sr[j - |sl| - 1];
          assert s[j] in sr;
        } else {
          assert s[i] in sl;
          assert s[j] == sr[j - |sl| - 1];
          assert s[j] in sr;
          LessTrans(cmp, s[i], d, s[j]);
        }
      }
  }

  /**
   * Below a node that compares above `item`, nothing in the right subtree can
   * compare equal to `item`; symmetrically on the left.
   */
  lemma SideHasNoEqual<E(!new)>(t: Tree<E>, item: E, cmp: (E, E) -> int)
    requires IsComparator(cmp) && Ordered(t, cmp) && t.Node?
    ensures cmp(t.data, item) > 0 ==> !HasEqual(t.right, item, cmp)
    ensures cmp(t.data, item) < 0 ==> !HasEqual(t.left, item, cmp)
  {
    Laws(cmp);
    var d := t.data;
    if cmp(d, item) > 0 {
      forall x | x in Elems(t.right) ensures cmp(x, item) != 0 {
        LessTrans(cmp, item, d, x);
      }
    }
    if cmp(d, item) < 0 {
      forall x | x in Elems(t.left) ensures cmp(x, item) != 0 {
        LessTrans(cmp, x, d, item);
      }
    }
  }

  /**
   * When neither the node's element nor the other subtree holds an element
   * equal to `item`, an equal element is in the tree exactly when it is in `side`.
   */
  lemma EqualOnSide<E>(t: Tree<E>, side: Tree<E>, item: E, cmp: (E, E) -> int)
    requires t.Node? && (side == t.left || side == t.right) && cmp(t.data, item) != 0
    requires side == t.left ==> !HasEqual(t.right, item, cmp)
    requires side == t.right ==> !HasEqual(t.left, item, cmp)
    ensures HasEqual(t, item, cmp) <==> HasEqual(side, item, cmp)
  {
    if HasEqual(side, item, cmp) {
      var x :| x in Elems(side) && cmp(x, item) == 0;
      assert x in Elems(t);
    }
    if HasEqual(t, item, cmp) {
      var x :| x in Elems(t) && cmp(x, item) == 0;
      assert x in Elems(side);
    }
  }

  // ---------------------------------------------------------------------------
  // What each helper promises on an ordered tree
  // ---------------------------------------------------------------------------

  /**
   * `add(node, item)` refuses an item equal to a stored one and leaves the tree
   * alone; otherwise it attaches exactly one new leaf holding `item`, and the
   * tree stays ordered.
   */
  lemma {:induction false} AddAtCorrect<E(!new)>(node: Tree<E>, item: E, cmp: (E, E) -> int)
    requires IsComparator(cmp) && node.Node? && Ordered(node, cmp)
    ensures var (t, added) := AddAt(node, item, cmp);
      && (added <==> !HasEqual(node, item, cmp))
      && (!added ==> t == node)
      && (added ==> Elems(t) == Elems(node) + {item} && Size(t) == Size(node) + 1)
      && Ordered(t, cmp)
    decreases node, 1
  {
    var d := node.data;
    if cmp(d, item) == 0 {
      Reflexive(cmp, item);
      Flip(cmp, d, item);
    } else if cmp(d, item) > 0 {
      AddLeftCorrect(node, item, cmp);
    } else {
      AddRightCorrect(node, item, cmp);
    }
  }

  /** `AddAtCorrect` for an item that compares below the node's element. */
  lemma {:induction false} AddLeftCorrect<E(!new)>(node: Tree<E>, item: E, cmp: (E, E) -> int)
    requires IsComparator(cmp) && node.Node? && Ordered(node, cmp) && cmp(node.data, item) > 0
    ensures var (t, added) := AddAt(node, item, cmp);
      && (added <==> !HasEqual(node, item, cmp))
      && (!added ==> t == node)
      && (added ==> Elems(t) == Elems(node) + {item} && Size(t) == Size(node) + 1)
      && Ordered(t, cmp)
    decreases node, 0
  {
    Flip(cmp, node.data, item);
    SideHasNoEqual(node, item, cmp);
    EqualOnSide(node, node.left, item, cmp);
    if node.left.Node? {
      AddAtCorrect(node.left, item, cmp);
    }
    var (t, added) := AddAt(node, item, cmp);
    if added {
      assert forall x :: x in Elems(t.left) ==> x in Elems(node.left) || x == item;
    }
  }

  /** `AddAtCorrect` for an item that compares above the node's element. */
  lemma {:induction false} AddRightCorrect<E(!new)>(node: Tree<E>, item: E, cmp: (E, E) -> int)
    requires IsComparator(cmp) && node.Node? && Ordered(node, cmp) && cmp(node.data, item) < 0
    ensures var (t, added) := AddAt(node, item, cmp);
      && (added <==> !HasEqual(node, item, cmp))
      && (!added ==> t == node)
      && (added ==> Elems(t) == Elems(node) + {item} && Size(t) == Size(node) + 1)
      && Ordered(t, cmp)
    decreases node, 0
  {
    SideHasNoEqual(node, item, cmp);
    EqualOnSide(node, node.right, item, cmp);
    if node.right.Node? {
      AddAtCorrect(node.right, item, cmp);
    }
    var (t, added) := AddAt(node, item, cmp);
    if added {
      assert forall x :: x in Elems(t.right) ==> x in Elems(node.right) || x == item;
    }
  }

  /** `contains` answers whether some stored element compares equal to the item. */
  lemma {:induction false} ContainsAtCorrect<E(!new)>(t: Tree<E>, item: E, cmp: (E, E) -> int)
    requires IsComparator(cmp) && Ordered(t, cmp)
    ensures ContainsAt(t, item, cmp) <==> HasEqual(t, item, cmp)
  {
    match t
    case Nil =>
    case Node(l, d, r) =>
      SideHasNoEqual(t, item, cmp);
      ContainsAtCorrect(l, item, cmp);
      ContainsAtCorrect(r, item, cmp);
  }

  /**
   * `find` returns the stored element that compares equal to the target, or
   * null when there is none.
   */
  lemma {:induction false} FindAtCorrect<E(!new)>(t: Tree<E>, target: E, cmp: (E, E) -> int)
    requires IsComparator(cmp) && Ordered(t, cmp)
    ensures FindAt(t, target, cmp).None? <==> !HasEqual(t, target, cmp)
    ensures FindAt(t, target, cmp).Some? ==>
      FindAt(t, target, cmp).value in Elems(t) && cmp(FindAt(t, target, cmp).value, target) == 0
  {
    match t
    case Nil =>
    case Node(l, d, r) =>
      SideHasNoEqual(t, target, cmp);
      FindAtCorrect(l, target, cmp);
      FindAtCorrect(r, target, cmp);
  }

  /**
   * The intended `smallestChild` unlinks exactly the leftmost element of the
   * subtree, which compares below everything that remains.
   */
  lemma {:induction false} SmallestChildCorrect<E(!new)>(node: Tree<E>, cmp: (E, E) -> int)
    requires IsComparator(cmp) && node.Node? && node.left.Node? && Ordered(node, cmp)
    ensures var (t, succ) := SmallestChild(node);
      && succ in Elems(node)
      && Elems(t) == Elems(node) - {succ}
      && Size(t) == Size(node) - 1
      && (forall y :: y in Elems(t) ==> cmp(succ, y) < 0)
      && Ordered(t, cmp)
  {
    var d, lt := node.data, node.left;
    var (t, succ) := SmallestChild(node);
    if lt.left.Nil? {
      assert succ == lt.data;
      assert Size(lt) == 1 + Size(lt.right);
      Reflexive(cmp, succ);
      forall y | y in Elems(t) ensures cmp(succ, y) < 0 {
        if y in Elems(node.right) {
          LessTrans(cmp, succ, d, y);
        }
      }
      assert Elems(t) == Elems(node) - {succ};
    } else {
      SmallestChildCorrect(lt, cmp);
      var (l', s') := SmallestChild(lt);
      assert t == node.(left := l') && succ == s';
      Reflexive(cmp, succ);
      forall y | y in Elems(t) ensures cmp(succ, y) < 0 {
        if y in Elems(node.right) {
          LessTrans(cmp, succ, d, y);
        }
      }
      assert Elems(t) == Elems(node) - {succ};
    }
  }

  /**
   * `shiftNode` removes exactly the matched node's element, in each of its three
   * cases, and keeps the tree ordered.
   */
  lemma ShiftNodeCorrect<E(!new)>(node: Tree<E>, cmp: (E, E) -> int)
    requires IsComparator(cmp) && node.Node? && Ordered(node, cmp)
    ensures var (t, removed) := ShiftNode(node);
      && removed == node.data
      && Elems(t) == Elems(node) - {node.data}
      && Size(t) == Size(node) - 1
      && Ordered(t, cmp)
  {
    var l, d, r := node.left, node.data, node.right;
    Reflexive(cmp, d);
    assert d !in Elems(l) && d !in Elems(r);
    if l.Nil? || r.Nil? {
    } else if r.left.Nil? {
      ShiftNodeDirectSuccessor(node, cmp);
    } else {
      ShiftNodeDeepSuccessor(node, cmp);
    }
  }

  /** `shiftNode` when the right child itself is the successor (lines 225-228). */
  lemma ShiftNodeDirectSuccessor<E(!new)>(node: Tree<E>, cmp: (E, E) -> int)
    requires IsComparator(cmp) && node.Node? && Ordered(node, cmp)
    requires node.left.Node? && node.right.Node? && node.right.left.Nil?
    ensures var t := ShiftNode(node).0;
      && Elems(t) == Elems(node) - {node.data}
      && Size(t) == Size(node) - 1
      && Ordered(t, cmp)
  {
    Laws(cmp);
    var l, d, r := node.left, node.data, node.right;
    var t := ShiftNode(node).0;
    assert t == Node(l, r.data, r.right);
    Reflexive(cmp, d);
    assert d !in Elems(l) && d !in Elems(r);
    assert Elems(r) == {r.data} + Elems(r.right);
    forall x | x in Elems(l) ensures cmp(x, r.data) < 0 {
      LessTrans(cmp, x, d, r.data);
    }
  }

  /** `shiftNode` when the successor lies deeper in the right subtree (lines 230-232). */
  lemma ShiftNodeDeepSuccessor<E(!new)>(node: Tree<E>, cmp: (E, E) -> int)
    requires IsComparator(cmp) && node.Node? && Ordered(node, cmp)
    requires node.left.Node? && node.right.Node? && node.right.left.Node?
    ensures var t := ShiftNode(node).0;
      && Elems(t) == Elems(node) - {node.data}
      && Size(t) == Size(node) - 1
      && Ordered(t, cmp)
  {
    var l, d, r := node.left, node.data, node.right;
    SmallestChildCorrect(r, cmp);
    var (r', succ) := SmallestChild(r);
    var t := ShiftNode(node).0;
    assert t == Node(l, succ, r');
    Reflexive(cmp, d);
    assert d !in Elems(l) && d !in Elems(r);
    assert Elems(t) == Elems(l) + Elems(r);
    forall x | x in Elems(l) ensures cmp(x, succ) < 0 {
      LessTrans(cmp, x, d, succ);
    }
  }

  /** What `delete(node, target)` promises on an ordered tree. */
  ghost predicate DeleteSpec<E>(t: Tree<E>, target: E, cmp: (E, E) -> int, t': Tree<E>, removed: Option<E>) {
    && (removed.None? <==> !HasEqual(t, target, cmp))
    && (removed.None? ==> t' == t)
    && (removed.Some? ==>
          && removed.value in Elems(t) && cmp(removed.value, target) == 0
          && Elems(t') == Elems(t) - {removed.value}
          && Size(t') == Size(t) - 1)
  }

  /**
   * `delete(node, target)` with a comparator: an absent target leaves the tree
   * unchanged and reports null; otherwise exactly the stored element equal to
   * the target is removed and reported, and the tree stays ordered.
   */
  lemma {:induction false} DeleteAtCorrect<E(!new)>(t: Tree<E>, target: E, cmp: (E, E) -> int)
    requires IsComparator(cmp) && Ordered(t, cmp)
    ensures var (t', removed) := DeleteAt(t, target, cmp);
      Ordered(t', cmp) && DeleteSpec(t, target, cmp, t', removed)
    decreases t, 1
  {
    match t
    case Nil =>
    case Node(l, d, r) =>
      if cmp(d, target) == 0 {
        ShiftNodeCorrect(t, cmp);
        assert HasEqual(t, target, cmp) by { Reflexive(cmp, d); assert d in Elems(t); }
      } else if cmp(d, target) > 0 {
        DeleteLeftCorrect(t, target, cmp);
      } else {
        DeleteRightCorrect(t, target, cmp);
      }
  }

  /** The descent to the left (lines 201-203) keeps what `DeleteAtCorrect` promises. */
  lemma {:induction false} DeleteLeftCorrect<E(!new)>(t: Tree<E>, target: E, cmp: (E, E) -> int)
    requires IsComparator(cmp) && Ordered(t, cmp) && t.Node? && cmp(t.data, target) > 0
    ensures var (t', removed) := DeleteAt(t, target, cmp);
      Ordered(t', cmp) && DeleteSpec(t, target, cmp, t', removed)
    decreases t, 0
  {
    var l, d, r := t.left, t.data, t.right;
    SideHasNoEqual(t, target, cmp);
    DeleteAtCorrect(l, target, cmp);
    var (l', res) := DeleteAt(l, target, cmp);
    assert DeleteAt(t, target, cmp) == (Node(l', d, r), res);
    assert HasEqual(t, target, cmp) ==> HasEqual(l, target, cmp);
    if res.Some? {
      Reflexive(cmp, d);
      assert d != res.value;
      assert Elems(l') <= Elems(l);
    }
  }

  /** The descent to the right (lines 205-207) keeps what `DeleteAtCorrect` promises. */
  lemma {:induction false} DeleteRightCorrect<E(!new)>(t: Tree<E>, target: E, cmp: (E, E) -> int)
    requires IsComparator(cmp) && Ordered(t, cmp) && t.Node? && cmp(t.data, target) < 0
    ensures var (t', removed) := DeleteAt(t, target, cmp);
      Ordered(t', cmp) && DeleteSpec(t, target, cmp, t', removed)
    decreases t, 0
  {
    var l, d, r := t.left, t.data, t.right;
    SideHasNoEqual(t, target, cmp);
    DeleteAtCorrect(r, target, cmp);
    var (r', res) := DeleteAt(r, target, cmp);
    assert DeleteAt(t, target, cmp) == (Node(l, d, r'), res);
    assert HasEqual(t, target, cmp) ==> HasEqual(r, target, cmp);
    if res.Some? {
      Reflexive(cmp, d);
      assert d != res.value;
      assert Elems(r') <= Elems(r);
    }
  }

  /** After a delete, nothing equal to the target is left in the tree. */
  lemma DeleteThenAbsent<E(!new)>(t: Tree<E>, target: E, cmp: (E, E) -> int)
    requires IsComparator(cmp) && Ordered(t, cmp)
    ensures !HasEqual(DeleteAt(t, target, cmp).0, target, cmp)
    ensures !ContainsAt(DeleteAt(t, target, cmp).0, target, cmp)
  {
    Laws(cmp);
    DeleteAtCorrect(t, target, cmp);
    var (t', removed) := DeleteAt(t, target, cmp);
    if removed.Some? {
      forall x | x in Elems(t') ensures cmp(x, target) != 0 {
        if cmp(x, target) == 0 {
          assert cmp(target, removed.value) <= 0 && cmp(removed.value, target) <= 0;
          assert cmp(x, removed.value) <= 0 && cmp(removed.value, x) <= 0;
          assert cmp(x, removed.value) == 0;
          OrderedUnique(t, cmp, x, removed.value);
        }
      }
    }
    ContainsAtCorrect(t', target, cmp);
  }

  // ---------------------------------------------------------------------------
  // The successor defect of `smallestChild`
  // ---------------------------------------------------------------------------

  /**
   * As written, the leftmost node is never unlinked: the element `smallestChild`
   * returns is still in the subtree it leaves behind.
   */
  lemma {:induction false} SmallestChildAsWrittenKeepsSuccessor<E>(node: Tree<E>)
    requires node.Node? && node.left.Node?
    ensures var (t, succ) := SmallestChildAsWritten(node); succ in Elems(t)
  {
    if node.left.left.Node? {
      SmallestChildAsWrittenKeepsSuccessor(node.left);
    }
  }

  /**
   * Hence every as-written deletion of a node whose successor lies below its
   * right child (line 231) copies the successor into the node while the
   * successor stays in the right subtree: the result is never ordered.
   */
  lemma AsWrittenDeepDeleteBreaksOrder<E(!new)>(node: Tree<E>, cmp: (E, E) -> int)
    requires IsComparator(cmp)
    requires node.Node? && node.right.Node? && node.right.left.Node?
    ensures var (r', succ) := SmallestChildAsWritten(node.right);
      !Ordered(node.(data := succ, right := r'), cmp)
  {
    var (r', succ) := SmallestChildAsWritten(node.right);
    SmallestChildAsWrittenKeepsSuccessor(node.right);
    Reflexive(cmp, succ);
  }

  /** Java's natural order on `Integer`. */
  function IntCompare(a: int, b: int): int {
    if a < b then -1 else if a > b then 1 else 0
  }

  lemma IntCompareIsComparator()
    ensures IsComparator(IntCompare)
  {
  }

  /**
   * Insert 5, 3, 8, 7, 9 and delete 5: the successor 7 is the left child of the
   * right child 8. As written the result reads 3, 7, 7, 8 (7 twice, 9 lost); as
   * intended it reads 3, 7, 8, 9.
   */
  lemma DeepSuccessorExample()
    ensures var t := Node(Leaf(3), 5, Node(Leaf(7), 8, Leaf(9)));
      && t == AddAt(AddAt(AddAt(AddAt(Leaf(5), 3, IntCompare).0, 8, IntCompare).0, 7, IntCompare).0, 9, IntCompare).0
      && InOrder(t.(data := SmallestChildAsWritten(t.right).1, right := SmallestChildAsWritten(t.right).0)) == [3, 7, 7, 8]
      && InOrder(DeleteAt(t, 5, IntCompare).0) == [3, 7, 8, 9]
  {
    var t := Node(Leaf(3), 5, Node(Leaf(7), 8, Leaf(9)));
    assert SmallestChildAsWritten(t.right) == (Node(Leaf(7), 8, Nil), 7);
    assert SmallestChild(t.right) == (Node(Nil, 8, Leaf(9)), 7);
    assert DeleteAt(t, 5, IntCompare).0 == Node(Leaf(3), 7, Node(Nil, 8, Leaf(9)));
  }

  /**
   * Insert 5, 3, 8, 1, 4; the in-order sequence is 1, 3, 4, 5, 8. Deleting 3 (two
   * children, the successor 4 is the right child) gives 1, 4, 5, 8; deleting 5
   * then gives 1, 4, 8.
   */
  lemma InsertDeleteExample()
    ensures var t := Node(Node(Leaf(1), 3, Leaf(4)), 5, Leaf(8));
      && t == AddAt(AddAt(AddAt(AddAt(Leaf(5), 3, IntCompare).0, 8, IntCompare).0, 1, IntCompare).0, 4, IntCompare).0
      && InOrder(t) == [1, 3, 4, 5, 8]
      && InOrder(DeleteAt(t, 3, IntCompare).0) == [1, 4, 5, 8]
      && InOrder(DeleteAt(DeleteAt(t, 3, IntCompare).0, 5, IntCompare).0) == [1, 4, 8]
  {
    var t := Node(Node(Leaf(1), 3, Leaf(4)), 5, Leaf(8));
    var t1 := Node(Node(Leaf(1), 4, Nil), 5, Leaf(8));
    assert DeleteAt(t, 3, IntCompare).0 == t1;
    assert DeleteAt(t1, 5, IntCompare).0 == Node(Node(Leaf(1), 4, Nil), 8, Nil);
  }

  // ---------------------------------------------------------------------------
  // The tree object
  // ---------------------------------------------------------------------------

  class BinarySearchTree<E(!new)> {
    /** The comparator given at construction; `None` when it was null. */
    const comp: Option<(E, E) -> int>
    var root: Tree<E>
    /** What the last `delete` reports. */
    var delReturn: Option<E>

    ghost predicate Valid()
      reads this
    {
      comp.Some? ==> IsComparator(comp.value) && Ordered(root, comp.value)
    }

    constructor(c: Option<(E, E) -> int>)
      requires c.Some? ==> IsComparator(c.value)
      ensures Valid() && comp == c && root == Nil && delReturn == None
    {
      comp := c;
      root := Nil;
      delReturn := None;
    }

    /** `inorderString()`, as the sequence of elements in ascending order. */
    function InorderString(): (s: seq<E>)
      requires Valid()
      reads this
      ensures comp.Some? ==> StrictlySorted(s, comp.value)
      ensures forall x :: x in s <==> x in Elems(root)
    {
      if comp.Some? then InOrderSorted(root, comp.value); InOrder(root)
      else InOrderElems(root); InOrder(root)
    }

    /**
     * `add(item)`: refused (false) for a null item, without a comparator, or when
     * an equal element is stored; otherwise the item is stored and the tree stays
     * ordered.
     */
    method Add(item: Option<E>) returns (added: bool)
      requires Valid()
      modifies this`root
      ensures Valid()
      ensures item.None? || comp.None? ==> !added
      ensures item.Some? && comp.Some? ==> (added <==> !HasEqual(old(root), item.value, comp.value))
      ensures !added ==> root == old(root)
      ensures added ==> Elems(root) == Elems(old(root)) + {item.value} && Size(root) == Size(old(root)) + 1
    {
      if item.None? || comp.None? {
        return false;
      }
      if root.Nil? {
        root := Leaf(item.value);
        return true;
      }
      AddAtCorrect(root, item.value, comp.value);
      var (t, ok) := AddAt(root, item.value, comp.value);
      root := t;
      added := ok;
    }

    /** `contains(item)`: false without a comparator. */
    function Contains(item: E): (found: bool)
      requires Valid()
      reads this
      ensures found <==> comp.Some? && HasEqual(root, item, comp.value)
    {
      if comp.None? then false
      else ContainsAtCorrect(root, item, comp.value); ContainsAt(root, item, comp.value)
    }

    /** `find(target)`: the stored element equal to the target; null without a comparator. */
    function Find(target: E): (r: Option<E>)
      requires Valid()
      reads this
      ensures r.None? <==> comp.None? || !HasEqual(root, target, comp.value)
      ensures r.Some? ==> comp.Some? && r.value in Elems(root) && comp.value(r.value, target) == 0
    {
      if comp.None? then None
      else FindAtCorrect(root, target, comp.value); FindAt(root, target, comp.value)
    }

    /**
     * `delete(target)`: removes and returns the stored element equal to the target;
     * null, with the tree unchanged, when there is none or no comparator.
     */
    method Delete(target: E) returns (removed: Option<E>)
      requires Valid()
      modifies this`root, this`delReturn
      ensures Valid()
      ensures removed == delReturn
      ensures removed.None? <==> comp.None? || !HasEqual(old(root), target, comp.value)
      ensures removed.None? ==> root == old(root)
      ensures removed.Some? ==>
        && removed.value in Elems(old(root)) && comp.value(removed.value, target) == 0
        && Elems(root) == Elems(old(root)) - {removed.value}
        && Size(root) == Size(old(root)) - 1
      ensures comp.Some? ==> !HasEqual(root, target, comp.value)
    {
      if comp.None? {
        delReturn := None;
      } else {
        DeleteAtCorrect(root, target, comp.value);
        DeleteThenAbsent(root, target, comp.value);
        var (t, res) := DeleteAt(root, target, comp.value);
        root := t;
        delReturn := res;
      }
      removed := delReturn;
    }

    /**
     * `remove(target)`: whether `delete` reported an element; the element it
     * reports is the one taken out, and every other element stays.
     */
    method Remove(target: E) returns (removed: bool)
      requires Valid()
      modifies this`root, this`delReturn
      ensures Valid()
      ensures removed <==> comp.Some? && HasEqual(old(root), target, comp.value)
      ensures !removed ==> root == old(root) && delReturn == None
      ensures removed ==>
        && delReturn.Some? && delReturn.value in Elems(old(root)) && comp.value(delReturn.value, target) == 0
        && Elems(root) == Elems(old(root)) - {delReturn.value}
        && Size(root) == Size(old(root)) - 1
      ensures comp.Some? ==> !HasEqual(root, target, comp.value)
    {
      var r := Delete(target);
      removed := r.Some?;
    }
  }
}
