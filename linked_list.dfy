/**
 * `LinkedList`: a doubly linked list of `DLinkedNode`s with `head`, `tail`
 * and `size` fields, index-based access through `getNode`, and three sorts
 * that rewrite the elements along the `next` chain. The nodes of the chain,
 * in order, are kept in the ghost field `nodes`.
 */
module LinkedLists {
  import opened Wrappers
  import opened Comparators
  import opened SortFacts
  import opened ArraySorts
  import opened ListOps

  /** `DLinkedNode`: one element and the links to its two neighbours. */
  class Node<E> {
    var data: E
    var next: Node?<E>
    var prev: Node?<E>

    /** `new DLinkedNode(entry, nextRef, prevRef)`. */
    constructor (entry: E, nextRef: Node?<E>, prevRef: Node?<E>)
      ensures data == entry && next == nextRef && prev == prevRef
    {
      data := entry;
      next := nextRef;
      prev := prevRef;
    }
  }

  /** Each node's `next` is the node after it in `ns`, and the last one's is null. */
  ghost predicate NextChain<E>(ns: seq<Node<E>>)
    reads ns
  {
    && (forall i {:trigger ns[i].next} :: 0 <= i < |ns| - 1 ==> ns[i].next == ns[i + 1])
    && (ns != [] ==> ns[|ns| - 1].next == null)
  }

  /** Each node's `prev` is the node before it in `ns`, and the first one's is null. */
  ghost predicate PrevChain<E>(ns: seq<Node<E>>)
    reads ns
  {
    && (forall i {:trigger ns[i].prev} :: 0 < i < |ns| ==> ns[i].prev == ns[i - 1])
    && (ns != [] ==> ns[0].prev == null)
  }

  /** The nodes `ns` hold the elements `xs`, in order. */
  ghost predicate Holding<E>(ns: seq<Node<E>>, xs: seq<E>)
    reads ns
  {
    |ns| == |xs| && forall i :: 0 <= i < |ns| ==> ns[i].data == xs[i]
  }

  /**
   * Splicing a node `x` into the chain `ns` at position `p`: the node before
   * `p` points to `x`, `x` points to the node that was at `p`, and every other
   * `next` link is still that of `ns`.
   */
  lemma SplicedNext<E>(ns: seq<Node<E>>, p: int, x: Node<E>)
    requires 0 <= p <= |ns|
    requires forall i :: 0 <= i < |ns| - 1 && i != p - 1 ==> ns[i].next == ns[i + 1]
    requires ns != [] && p < |ns| ==> ns[|ns| - 1].next == null
    requires 0 < p ==> ns[p - 1].next == x
    requires x.next == if p < |ns| then ns[p] else null
    ensures NextChain(Inserted(ns, p, x))
  {
    var r := Inserted(ns, p, x);
    forall i | 0 <= i < |r| - 1 ensures r[i].next == r[i + 1] {
      if i < p - 1 {
        assert r[i] == ns[i] && r[i + 1] == ns[i + 1];
      } else if p < i {
        assert r[i] == ns[i - 1] && r[i + 1] == ns[i];
      }
    }
  }

  /**
   * The `prev` links around a node `x` spliced in at `p`: `x` points back to
   * the node before `p`, the node that was at `p` points back to `x`, and
   * every other `prev` link is still that of `ns`.
   */
  lemma SplicedPrev<E>(ns: seq<Node<E>>, p: int, x: Node<E>)
    requires 0 <= p <= |ns|
    requires forall i :: 0 < i < |ns| && i != p ==> ns[i].prev == ns[i - 1]
    requires ns != [] && 0 < p ==> ns[0].prev == null
    requires p < |ns| ==> ns[p].prev == x
    requires x.prev == if p == 0 then null else ns[p - 1]
    ensures PrevChain(Inserted(ns, p, x))
  {
    var r := Inserted(ns, p, x);
    forall i | 0 < i < |r| ensures r[i].prev == r[i - 1] {
      if i < p {
        assert r[i] == ns[i] && r[i - 1] == ns[i - 1];
      } else if p + 1 < i {
        assert r[i] == ns[i - 1] && r[i - 1] == ns[i - 2];
      }
    }
  }

  /** A node holding `e` spliced in at `p` puts `e` into the elements at `p`. */
  lemma SplicedHolding<E>(ns: seq<Node<E>>, xs: seq<E>, p: int, x: Node<E>, e: E)
    requires 0 <= p <= |ns| && Holding(ns, xs) && x.data == e
    ensures Holding(Inserted(ns, p, x), Inserted(xs, p, e))
  {
    var r, ys := Inserted(ns, p, x), Inserted(xs, p, e);
    forall i | 0 <= i < |r| ensures r[i].data == ys[i] {
      if i < p {
        assert r[i] == ns[i];
      } else if p < i {
        assert r[i] == ns[i - 1];
      }
    }
  }

  /**
   * Unlinking the node at `k`: the node before it points to the one after it,
   * and every other `next` link is still that of `ns`.
   */
  lemma UnlinkedNext<E>(ns: seq<Node<E>>, k: int)
    requires 0 <= k < |ns|
    requires forall i :: 0 <= i < |ns| - 1 && i != k - 1 ==> ns[i].next == ns[i + 1]
    requires k < |ns| - 1 ==> ns[|ns| - 1].next == null
    requires 0 < k ==> ns[k - 1].next == if k + 1 < |ns| then ns[k + 1] else null
    ensures NextChain(Removed(ns, k))
  {
    var r := Removed(ns, k);
    forall i | 0 <= i < |r| - 1 ensures r[i].next == r[i + 1] {
      if i < k - 1 {
        assert r[i] == ns[i] && r[i + 1] == ns[i + 1];
      } else if k <= i {
        assert r[i] == ns[i + 1] && r[i + 1] == ns[i + 2];
      }
    }
  }

  /**
   * Unlinking the node at `k`: the node after it points back to the one
   * before it, and every other `prev` link is still that of `ns`.
   */
  lemma UnlinkedPrev<E>(ns: seq<Node<E>>, k: int)
    requires 0 <= k < |ns|
    requires forall i :: 0 < i < |ns| && i != k + 1 ==> ns[i].prev == ns[i - 1]
    requires 0 < k ==> ns[0].prev == null
    requires k + 1 < |ns| ==> ns[k + 1].prev == if k == 0 then null else ns[k - 1]
    ensures PrevChain(Removed(ns, k))
  {
    var r := Removed(ns, k);
    forall i | 0 < i < |r| ensures r[i].prev == r[i - 1] {
      if i < k {
        assert r[i] == ns[i] && r[i - 1] == ns[i - 1];
      } else if k < i {
        assert r[i] == ns[i + 1] && r[i - 1] == ns[i];
      }
    }
  }

  /** Unlinking the node at `k` takes its element out of the elements. */
  lemma UnlinkedHolding<E>(ns: seq<Node<E>>, xs: seq<E>, k: int)
    requires 0 <= k < |ns| && Holding(ns, xs)
    ensures Holding(Removed(ns, k), Removed(xs, k))
  {
    var r := Removed(ns, k);
    forall i | 0 <= i < |r| ensures r[i].data == Removed(xs, k)[i] {
      if k <= i {
        assert r[i] == ns[i + 1];
      }
    }
  }

  /**
   * A `next` chain that ends in null visits no node twice: were the nodes at
   * `i` and `j` the same, so would be those after them, up to the last.
   */
  lemma {:induction false} ChainApart<E>(ns: seq<Node<E>>, i: int, j: int)
    requires NextChain(ns) && 0 <= i < j < |ns|
    ensures ns[i] != ns[j]
    decreases |ns| - j
  {
    if j < |ns| - 1 {
      ChainApart(ns, i + 1, j + 1);
      assert ns[i].next == ns[i + 1] && ns[j].next == ns[j + 1];
    } else {
      assert ns[i].next == ns[i + 1] && ns[j].next == null;
    }
  }

  /** No node of a `next` chain ending in null but the one at `k` is that node. */
  lemma Unshared<E>(ns: seq<Node<E>>, k: int)
    requires NextChain(ns) && 0 <= k < |ns|
    ensures forall i :: 0 <= i < |ns| && i != k ==> ns[i] != ns[k]
  {
    forall i | 0 <= i < |ns| && i != k ensures ns[i] != ns[k] {
      if i < k {
        ChainApart(ns, i, k);
      } else {
        ChainApart(ns, k, i);
      }
    }
  }

  /**
   * The `next` chain from `first` visits the nodes `ns` in order and
   * ends in null, and those nodes hold `xs`.
   */
  ghost predicate ChainFrom<E>(first: Node?<E>, ns: seq<Node<E>>, xs: seq<E>)
    reads ns
  {
    && first == (if ns == [] then null else ns[0])
    && NextChain(ns)
    && Holding(ns, xs)
  }

  /**
   * Makes a new first node holding `entry` in front of the chain `ns`
   * starting at `first`.
   */
  method NewFirst<E>(first: Node?<E>, entry: E, ghost ns: seq<Node<E>>, ghost xs: seq<E>)
    returns (added: Node<E>)
    requires ChainFrom(first, ns, xs) && PrevChain(ns)
    modifies ns
    ensures ChainFrom(added, Inserted(ns, 0, added), Inserted(xs, 0, entry))
    ensures PrevChain(Inserted(ns, 0, added))
  {
    added := new Node(entry, first, null);
    SpliceFirst(first, added, ns, xs);
  }

  /**
   * `addAfter`'s linking as written: a new node holding `entry` goes after
   * `node` at `k` in the `next` chain, and no `prev` link of `ns` changes.
   */
  method NewAfterAsWritten<E>(node: Node<E>, entry: E, ghost ns: seq<Node<E>>, ghost xs: seq<E>, ghost k: int)
    returns (added: Node<E>)
    requires 0 <= k < |ns| && ns[k] == node
    requires ChainFrom(ns[0], ns, xs)
    modifies node
    ensures ChainFrom(ns[0], Inserted(ns, k + 1, added), Inserted(xs, k + 1, entry))
    ensures fresh(added) && added.prev == node
    ensures forall i :: 0 <= i < |ns| ==> ns[i].prev == old(ns[i].prev)
  {
    assert node.next == if k + 1 < |ns| then ns[k + 1] else null;
    Unshared(ns, k);
    added := new Node(entry, node.next, node);
    node.next := added;
    SplicedNext(ns, k + 1, added);
    SplicedHolding(ns, xs, k + 1, added, entry);
  }

  /**
   * Splices the new node `added`, which already points forward to `first`
   * and back to null, in front of the chain `ns` starting at `first`.
   */
  method SpliceFirst<E>(first: Node?<E>, added: Node<E>, ghost ns: seq<Node<E>>, ghost xs: seq<E>)
    requires ChainFrom(first, ns, xs) && PrevChain(ns) && added !in ns
    requires added.next == first && added.prev == null
    modifies ns
    ensures ChainFrom(added, Inserted(ns, 0, added), Inserted(xs, 0, added.data))
    ensures PrevChain(Inserted(ns, 0, added))
  {
    LinkFirst(first, added, ns, xs);
    SplicedNext(ns, 0, added);
    SplicedPrev(ns, 0, added);
    SplicedHolding(ns, xs, 0, added, added.data);
  }

  /**
   * Splices a new node `added` holding `entry`, pointing forward to the
   * successor of `node` and back to `node`, in after `node` at `k`.
   */
  method NewAfter<E>(node: Node<E>, entry: E, ghost ns: seq<Node<E>>, ghost xs: seq<E>, ghost k: int)
    returns (added: Node<E>)
    requires 0 <= k < |ns| && ns[k] == node
    requires ChainFrom(ns[0], ns, xs) && PrevChain(ns)
    modifies ns
    ensures ChainFrom(ns[0], Inserted(ns, k + 1, added), Inserted(xs, k + 1, entry))
    ensures PrevChain(Inserted(ns, k + 1, added))
    ensures k + 1 < |ns| ==> Inserted(ns, k + 1, added)[|ns|] == ns[|ns| - 1]
  {
    assert node.next == if k + 1 < |ns| then ns[k + 1] else null;
    added := new Node(entry, node.next, node);
    SpliceAfter(node, added, ns, xs, k);
  }

  /**
   * Splices the new node `added`, which already points forward to the
   * successor of `node` and back to `node`, in after `node` at `k`.
   */
  method SpliceAfter<E>(node: Node<E>, added: Node<E>, ghost ns: seq<Node<E>>, ghost xs: seq<E>, ghost k: int)
    requires 0 <= k < |ns| && ns[k] == node && added !in ns
    requires ChainFrom(ns[0], ns, xs) && PrevChain(ns)
    requires added.next == (if k + 1 < |ns| then ns[k + 1] else null) && added.prev == node
    modifies ns
    ensures ChainFrom(ns[0], Inserted(ns, k + 1, added), Inserted(xs, k + 1, added.data))
    ensures PrevChain(Inserted(ns, k + 1, added))
    ensures k + 1 < |ns| ==> Inserted(ns, k + 1, added)[|ns|] == ns[|ns| - 1]
  {
    LinkAfter(node, added, ns, xs, k);
    SplicedNext(ns, k + 1, added);
    SplicedPrev(ns, k + 1, added);
    SplicedHolding(ns, xs, k + 1, added, added.data);
  }

  /**
   * Unlinks the node `node` at `k` from the chain `ns`: its neighbours point
   * to each other; its own links stay as they were.
   */
  method Unlink<E>(node: Node<E>, ghost ns: seq<Node<E>>, ghost xs: seq<E>, ghost k: int)
    requires 0 <= k < |ns| && ns[k] == node
    requires ChainFrom(ns[0], ns, xs) && PrevChain(ns)
    modifies ns
    ensures var rest := Removed(ns, k);
      ChainFrom(if rest == [] then null else rest[0], rest, Removed(xs, k)) && PrevChain(rest)
  {
    Bypass(node, ns, xs, k);
    UnlinkedNext(ns, k);
    UnlinkedPrev(ns, k);
    UnlinkedHolding(ns, xs, k);
  }

  /**
   * Points `first`, the old first node of the chain `ns`, back to `added`;
   * every other link stays as it was.
   */
  method LinkFirst<E>(first: Node?<E>, added: Node<E>, ghost ns: seq<Node<E>>, ghost xs: seq<E>)
    requires ChainFrom(first, ns, xs) && PrevChain(ns) && added !in ns
    modifies ns
    ensures ns != [] ==> ns[0].prev == added
    ensures NextChain(ns)
    ensures forall i :: 0 < i < |ns| ==> ns[i].prev == ns[i - 1]
    ensures Holding(ns, xs)
  {
    if ns != [] {
      Unshared(ns, 0);
    }
    if first != null {
      first.prev := added;
    }
  }

  /**
   * Points the node `node` at `k` and its successor to `added`; every other
   * link of the chain `ns` stays as it was.
   */
  method LinkAfter<E>(node: Node<E>, added: Node<E>, ghost ns: seq<Node<E>>, ghost xs: seq<E>, ghost k: int)
    requires 0 <= k < |ns| && ns[k] == node && added !in ns
    requires ChainFrom(ns[0], ns, xs) && PrevChain(ns)
    modifies ns
    ensures node.next == added && (k + 1 < |ns| ==> ns[k + 1].prev == added)
    ensures forall i :: 0 <= i < |ns| - 1 && i != k ==> ns[i].next == ns[i + 1]
    ensures k + 1 < |ns| ==> ns[|ns| - 1].next == null
    ensures forall i :: 0 < i < |ns| && i != k + 1 ==> ns[i].prev == ns[i - 1]
    ensures ns[0].prev == null
    ensures Holding(ns, xs)
  {
    assert node.next == if k + 1 < |ns| then ns[k + 1] else null;
    Unshared(ns, k);
    if k + 1 < |ns| {
      Unshared(ns, k + 1);
    }
    if node.next != null {
      node.next.prev := added;
    }
    node.next := added;
  }

  /**
   * Points the neighbours of the node `node` at `k` to each other; every
   * other link of the chain `ns` stays as it was.
   */
  method Bypass<E>(node: Node<E>, ghost ns: seq<Node<E>>, ghost xs: seq<E>, ghost k: int)
    requires 0 <= k < |ns| && ns[k] == node
    requires ChainFrom(ns[0], ns, xs) && PrevChain(ns)
    modifies ns
    ensures node.prev == (if k == 0 then null else ns[k - 1])
    ensures node.next == (if k + 1 < |ns| then ns[k + 1] else null)
    ensures 0 < k ==> ns[k - 1].next == node.next
    ensures k + 1 < |ns| ==> ns[k + 1].prev == node.prev
    ensures forall i :: 0 <= i < |ns| - 1 && i != k - 1 ==> ns[i].next == ns[i + 1]
    ensures k < |ns| - 1 ==> ns[|ns| - 1].next == null
    ensures forall i :: 0 < i < |ns| && i != k + 1 ==> ns[i].prev == ns[i - 1]
    ensures 0 < k ==> ns[0].prev == null
    ensures Holding(ns, xs)
  {
    assert node.prev == if k == 0 then null else ns[k - 1];
    assert node.next == if k + 1 < |ns| then ns[k + 1] else null;
    if 0 < k {
      Unshared(ns, k - 1);
    }
    if k + 1 < |ns| {
      Unshared(ns, k + 1);
    }
    if node.prev != null {
      node.prev.next := node.next;
    }
    if node.next != null {
      node.next.prev := node.prev;
    }

  }

  /** Writes `e` into the node `node` at `k`; no link changes. */
  method Store<E>(node: Node<E>, e: E, ghost ns: seq<Node<E>>, ghost xs: seq<E>, ghost k: int)
    requires 0 <= k < |ns| && ns[k] == node
    requires ChainFrom(ns[0], ns, xs) && PrevChain(ns)
    modifies node
    ensures ChainFrom(ns[0], ns, xs[k := e]) && PrevChain(ns)
  {
    Unshared(ns, k);
    node.data := e;
  }

  /**
   * `c` is `a` part way through the shifting loop of `insertionSort`: the
   * elements `a[j..i]` have moved one place right and the rest are in place.
   */
  ghost predicate Shifted<E>(c: seq<E>, a: seq<E>, j: int, i: int) {
    && 0 <= j <= i < |c| == |a|
    && (forall k :: 0 <= k < j ==> c[k] == a[k])
    && (forall k :: j < k <= i ==> c[k] == a[k - 1])
    && (forall k :: i < k < |c| ==> c[k] == a[k])
  }

  /** Copying the element before the hole at `j` into it moves the hole one place left. */
  lemma ShiftedOnce<E>(c: seq<E>, a: seq<E>, j: int, i: int)
    requires Shifted(c, a, j, i) && 0 < j
    ensures Shifted(c[j := c[j - 1]], a, j - 1, i)
  {
  }

  class LinkedList<E(!new)> {
    var head: Node?<E>
    var tail: Node?<E>
    var size: int
    /** The nodes on the `next` chain from `head`, in order. */
    ghost var nodes: seq<Node<E>>
    /** The elements of the list, in chain order. */
    ghost var contents: seq<E>

    /**
     * The `next` chain from `head` visits the distinct `nodes` in order and
     * ends in null, `size` is its length and its nodes hold `contents`.
     */
    ghost predicate Chained()
      reads this`size, this`head, this`nodes, this`contents, nodes
    {
      size == |nodes| && ChainFrom(head, nodes, contents)
    }

    /** Every `prev` link points to the node before. */
    ghost predicate BackLinked()
      reads this`nodes, nodes
    {
      PrevChain(nodes)
    }

    /** `tail` is the last node of the chain, or null when it is empty. */
    ghost predicate TailKept()
      reads this`tail, this`nodes
    {
      tail == if nodes == [] then null else nodes[|nodes| - 1]
    }

    /** The invariant of a doubly linked list. */
    ghost predicate Valid()
      reads this, nodes
    {
      Chained() && BackLinked() && TailKept()
    }

    /** `new LinkedList()`: the empty list. */
    constructor()
      ensures Valid() && contents == []
    {
      head := null;
      tail := null;
      size := 0;
      nodes := [];
      contents := [];
    }

    /**
     * `getNode(index)`: follows `index` links from `head`, stopping at null,
     * so an index at or past the end gives null and a negative one `head`.
     */
    method GetNode(index: int) returns (node: Node?<E>)
      requires Chained()
      ensures index <= 0 ==> node == head
      ensures 0 <= index < size ==> node == nodes[index]
      ensures size <= index ==> node == null
    {
      node := head;
      var i := 0;
      while i < index && node != null
        invariant 0 <= i <= |nodes| && (i == 0 || i <= index)
        invariant node == if i < |nodes| then nodes[i] else null
      {
        node := node.next;
        i := i + 1;
      }
    }

    /**
     * `addFirst(entry)`: a new node before `head`. The old head's `prev` is
     * pointed at it, which LinkedList.java:168 leaves out; `tail` is not
     * touched, so an insertion into the empty list leaves it to `add`.
     */
    method AddFirst(entry: E)
      requires Valid()
      modifies this, nodes
      ensures Chained() && BackLinked() && tail == old(tail) && size == old(size) + 1
      ensures old(size) > 0 ==> TailKept()
      ensures contents == Inserted(old(contents), 0, entry)
    {
      head := NewFirst(head, entry, nodes, contents);
      size := size + 1;
      nodes := Inserted(nodes, 0, head);
      contents := Inserted(contents, 0, entry);
    }

    /**
     * `addAfter(node, entry)` for the node at `k`: a new node between it and
     * its successor. The successor's `prev` is pointed at the new node, which
     * LinkedList.java:178 leaves out.
     */
    method AddAfter(node: Node<E>, entry: E, ghost k: int)
      requires Valid() && 0 <= k < |nodes| && nodes[k] == node
      modifies this, nodes
      ensures Chained() && BackLinked() && tail == old(tail) && size == old(size) + 1
      ensures k + 1 < old(size) ==> TailKept()
      ensures contents == Inserted(old(contents), k + 1, entry)
    {
      var added := NewAfter(node, entry, nodes, contents, k);
      size := size + 1;
      nodes := Inserted(nodes, k + 1, added);
      contents := Inserted(contents, k + 1, entry);
    }

    /**
     * `addFirst(entry)` as written: the new node becomes `head` and the
     * `next` chain is right, but the old head keeps its null `prev`, so a
     * non-empty list loses its back links.
     */
    method AddFirstAsWritten(entry: E)
      requires Valid()
      modifies this
      ensures Chained() && nodes == Inserted(old(nodes), 0, head) && contents == Inserted(old(contents), 0, entry)
      ensures head.next == old(head) && size == old(size) + 1
      ensures old(size) > 0 ==> old(head).prev == null && !BackLinked()
    {
      ghost var ns, xs := nodes, contents;
      head := new Node(entry, head, null);
      size := size + 1;
      nodes := Inserted(nodes, 0, head);
      contents := Inserted(contents, 0, entry);
      SplicedNext(ns, 0, head);
      SplicedHolding(ns, xs, 0, head, entry);
      if ns != [] {
        assert nodes[1] == ns[0] && ns[0].prev == null;
      }
    }

    /**
     * `addAfter(node, entry)` as written for the node at `k`: `node.next` is
     * the new node and the `next` chain is right, but the old successor's
     * `prev` still points at `node`, so the back links break unless `node`
     * was last.
     */
    method AddAfterAsWritten(node: Node<E>, entry: E, ghost k: int)
      requires Valid() && 0 <= k < |nodes| && nodes[k] == node
      modifies this, node
      ensures Chained() && nodes == Inserted(old(nodes), k + 1, node.next)
      ensures contents == Inserted(old(contents), k + 1, entry)
      ensures node.next.prev == node && head == old(head) && size == old(size) + 1
      ensures k + 1 < old(size) ==> old(node.next).prev == node && !BackLinked()
    {
      ghost var ns, xs := nodes, contents;
      var added := NewAfterAsWritten(node, entry, nodes, contents, k);
      size := size + 1;
      nodes := Inserted(nodes, k + 1, added);
      contents := Inserted(contents, k + 1, entry);
      if k + 1 < |ns| {
        assert nodes[k + 2] == ns[k + 1] && ns[k + 1].prev == node && nodes[k + 1] == added;
      }
    }

    /**
     * `remove(node)` as written, for any node: a null `prev` is taken to mean
     * that `node` is the head and a null `next` that it is the tail; otherwise
     * the neighbour on that side is pointed past `node`.
     */
    method RemoveNodeAsWritten(node: Node<E>) returns (e: E)
      modifies this, node.prev, node.next
      ensures e == old(node.data) && size == old(size) - 1
      ensures old(node.prev) == null ==> head == old(node.next)
      ensures old(node.prev) != null ==> head == old(head) && old(node.prev).next == old(node.next)
      ensures old(node.next) == null ==> tail == old(node.prev)
      ensures old(node.next) != null ==> tail == old(tail) && old(node.next).prev == old(node.prev)
    {
      if node.prev == null {
        head := node.next;
      } else {
        node.prev.next := node.next;
      }
      if node.next == null {
        tail := node.prev;
      } else {
        node.next.prev := node.prev;
      }
      size := size - 1;
      e := node.data;
    }

    /**
     * `add(0, x)` and then `remove(1)` on a one-element list, with
     * `addFirst` and `remove(node)` as written: the old head still has a null
     * `prev`, so `remove` takes it for the head, and the list is left with no
     * node although its size is one; `x` is lost.
     */
    method AddFirstThenRemoveAsWritten(x: E) returns (e: E)
      requires Valid() && size == 1
      modifies this, nodes
      ensures e == old(contents)[0]
      ensures head == null && tail == null && size == 1
    {
      AddFirstAsWritten(x);
      var node := GetNode(1);
      e := RemoveNodeAsWritten(node);
    }

    /**
     * `add(1, x)` and then `remove(2)` on a two-element list, with `addAfter`
     * and `remove(node)` as written: the last node still points back at the
     * first, so `remove` unlinks the first node's successor, the new node,
     * together with it; the list is left with one node although its size is
     * two, and `x` is lost.
     */
    method AddAfterThenRemoveAsWritten(x: E) returns (e: E)
      requires Valid() && size == 2
      modifies this, nodes
      ensures e == old(contents)[1]
      ensures head == old(head) && head.next == null && tail == head && size == 2
    {
      var first := GetNode(0);
      AddAfterAsWritten(first, x, 0);
      var node := GetNode(2);
      e := RemoveNodeAsWritten(node);
    }

    /**
     * `remove(node)` for the node at `k`: its neighbours are linked to each
     * other, `head` or `tail` moves when it was first or last, and its element
     * is returned.
     */
    method RemoveNode(node: Node<E>, ghost k: int) returns (e: E)
      requires Valid() && 0 <= k < |nodes| && nodes[k] == node
      modifies this, nodes
      ensures Valid()
      ensures e == old(contents)[k]
      ensures nodes == Removed(old(nodes), k)
      ensures contents == Removed(old(contents), k)
    {
      ghost var ns, xs := nodes, contents;
      assert node.prev == if k == 0 then null else nodes[k - 1];
      assert node.next == if k + 1 < |nodes| then nodes[k + 1] else null;
      if node.prev == null {
        head := node.next;
      }
      if node.next == null {
        tail := node.prev;
      }
      size := size - 1;
      nodes := Removed(nodes, k);
      contents := Removed(contents, k);
      e := node.data;
      Unlink(node, ns, xs, k);
    }

    /**
     * `add(index, element)`: inserts so that `element` ends up at `index`,
     * for any index from 0 to `size`; an insertion at the end moves `tail`.
     */
    method Add(index: int, element: E) returns (outcome: Outcome)
      requires Valid()
      modifies this, nodes
      ensures Valid()
      ensures !(0 <= index <= old(size)) ==>
        outcome == Raised(IndexOutOfBounds) && nodes == old(nodes) && contents == old(contents)
      ensures 0 <= index <= old(size) ==>
        outcome == Done && contents == Inserted(old(contents), index, element)
    {
      if index < 0 || index > size {
        return Raised(IndexOutOfBounds);
      }
      if index == 0 {
        AddFirst(element);
      } else {
        var node := GetNode(index - 1);
        AddAfter(node, element, index - 1);
      }
      MoveTail(index);
      outcome := Done;
    }

    /**
     * The last step of `add(index, element)`: when the element went in at the
     * end, `tail` moves to its node.
     */
    method MoveTail(index: int)
      requires Chained() && BackLinked() && 0 <= index < size
      requires index < size - 1 ==> TailKept()
      modifies this`tail
      ensures Valid()
    {
      if index == size - 1 {
        tail := GetNode(index);
      }
    }

    /** `add(entry)`: appends `entry`; always true. */
    method Append(entry: E) returns (added: bool)
      requires Valid()
      modifies this, nodes
      ensures Valid() && added
      ensures contents == old(contents) + [entry]
    {
      var _ := Add(size, entry);
      InsertedAtEnd(old(contents), entry);
      added := true;
    }

    /** `get(index)`: the element at `index`, or the bound exception. */
    method Get(index: int) returns (r: Result<E>)
      requires Valid()
      ensures !(0 <= index < size) ==> r == Throws(IndexOutOfBounds)
      ensures 0 <= index < size ==> r == Ok(contents[index])
    {
      if index < 0 || index >= size {
        return Throws(IndexOutOfBounds);
      }
      var node := GetNode(index);
      r := Ok(node.data);
    }

    /** `remove(index)`: unlinks the node at `index` and returns its element. */
    method Remove(index: int) returns (r: Result<E>)
      requires Valid()
      modifies this, nodes
      ensures Valid()
      ensures !(0 <= index < old(size)) ==>
        r == Throws(IndexOutOfBounds) && nodes == old(nodes) && contents == old(contents)
      ensures 0 <= index < old(size) ==>
        r == Ok(old(contents)[index]) && contents == Removed(old(contents), index)
    {
      if index < 0 || index >= size {
        return Throws(IndexOutOfBounds);
      }
      var node := GetNode(index);
      var e := RemoveNode(node, index);
      r := Ok(e);
    }

    /**
     * `set(index, element)`: replaces the element of the node at `index` and
     * returns the one it held; no link changes.
     */
    method Set(index: int, element: E) returns (r: Result<E>)
      requires Valid()
      modifies this`contents, nodes
      ensures Valid()
      ensures !(0 <= index < size) ==> r == Throws(IndexOutOfBounds) && contents == old(contents)
      ensures 0 <= index < size ==>
        r == Ok(old(contents)[index]) && contents == old(contents)[index := element]
    {
      if index < 0 || index >= size {
        return Throws(IndexOutOfBounds);
      }
      ghost var xs := contents;
      var node := GetNode(index);
      var replaced := node.data;
      contents := contents[index := element];
      Store(node, element, nodes, xs, index);
      r := Ok(replaced);
    }

    /** `size()`: the number of elements in the list. */
    method Size() returns (n: int)
      requires Valid()
      ensures n == |contents|
    {
      n := size;
    }

    /** `getNode(index).data` for an index inside the list. */
    method Load(index: int) returns (e: E)
      requires Valid() && 0 <= index < size
      ensures e == contents[index]
    {
      var node := GetNode(index);
      e := node.data;
    }

    /**
     * `getNode(index).data = e` for an index inside the list: one element
     * changes, no link does.
     */
    method StoreAt(index: int, e: E)
      requires Valid() && 0 <= index < size
      modifies this`contents, nodes
      ensures Valid() && contents == old(contents)[index := e]
    {
      ghost var xs := contents;
      var node := GetNode(index);
      contents := contents[index := e];
      Store(node, e, nodes, xs, index);
    }

    /** The exchange of two elements that `bubbleSort` and `selectionSort` make through a temporary. */
    method Exchange(p: int, q: int)
      requires Valid() && 0 <= p < size && 0 <= q < size
      modifies this`contents, nodes
      ensures Valid()
      ensures contents == old(contents)[p := old(contents)[q]][q := old(contents)[p]]
      ensures multiset(contents) == multiset(old(contents))
    {
      SwapPermutes(contents, p, q);
      var temp := Load(p);
      var other := Load(q);
      StoreAt(p, other);
      StoreAt(q, temp);
    }

    /**
     * The inner loop of `insertionSort`: the elements of `contents[..i]`
     * larger than `held` move one place right, leaving a hole at `j`.
     */
    method ShiftRight(i: int, held: E, compare: (E, E) -> int) returns (j: int)
      requires Valid() && IsComparator(compare) && 0 <= i < size
      modifies this`contents, nodes
      ensures Valid() && 0 <= j <= i && Shifted(contents, old(contents), j, i)
      ensures forall l :: j <= l < i ==> compare(held, old(contents[l])) < 0
      ensures j == 0 || compare(old(contents[j - 1]), held) <= 0
    {
      ghost var a := contents;
      j := i;
      while j > 0
        invariant Valid() && 0 <= j <= i && Shifted(contents, a, j, i)
        invariant forall l :: j <= l < i ==> compare(held, a[l]) < 0
      {
        var before := Load(j - 1);
        if compare(before, held) <= 0 {
          break;
        }
        Flip(compare, before, held);
        ghost var c := contents;
        StoreAt(j, before);
        ShiftedOnce(c, a, j, i);
        j := j - 1;
      }
    }

    /** One round of `insertionSort`: the element at `i` is dropped into its place in the sorted `contents[..i]`. */
    method InsertNext(i: int, compare: (E, E) -> int)
      requires Valid() && IsComparator(compare) && 1 <= i < size
      requires Sorted(contents[..i], compare)
      modifies this`contents, nodes
      ensures Valid()
      ensures Sorted(contents[..i + 1], compare)
      ensures multiset(contents) == multiset(old(contents))
    {
      ghost var a := contents;
      var held := Load(i);
      var j := ShiftRight(i, held, compare);
      StoreAt(j, held);
      InsertionPlaced(a, contents, i, j, compare);
    }

    /** `insertionSort`: the list ends sorted and a permutation of itself; no link changes. */
    method InsertionSort(compare: (E, E) -> int)
      requires Valid() && IsComparator(compare)
      modifies this`contents, nodes
      ensures Valid()
      ensures Sorted(contents, compare)
      ensures multiset(contents) == multiset(old(contents))
    {
      var i := 1;
      while i < size
        invariant Valid()
        invariant size == 0 || 1 <= i <= size
        invariant size > 0 ==> Sorted(contents[..i], compare)
        invariant multiset(contents) == multiset(old(contents))
      {
        InsertNext(i, compare);
        i := i + 1;
      }
      assert size > 0 ==> contents == contents[..i];
    }

    /** One pass of `bubbleSort` over `contents[..last + 1]`, returning the number of exchanges. */
    method BubblePass(last: int, compare: (E, E) -> int) returns (exchanges: int)
      requires Valid() && 0 <= last < size
      modifies this`contents, nodes
      ensures Valid()
      ensures contents == BubbleSteps(old(contents), last, compare)
      ensures exchanges == BubbleExchanges(old(contents), last, compare)
    {
      ghost var a := contents;
      exchanges := 0;
      var j := 0;
      while j < last
        invariant Valid()
        invariant 0 <= j <= last
        invariant contents == BubbleSteps(a, j, compare)
        invariant exchanges == BubbleExchanges(a, j, compare)
      {
        var left := Load(j);
        var right := Load(j + 1);
        if compare(left, right) > 0 {
          Exchange(j, j + 1);
          exchanges := exchanges + 1;
        }
        j := j + 1;
      }
    }

    /** A pass of `bubbleSort` seen from the outer loop: it settles position `last`. */
    method SettlingPass(last: int, compare: (E, E) -> int) returns (exchanges: int)
      requires Valid() && IsComparator(compare)
      requires 0 <= last < size && SettledFrom(contents, last + 1, compare)
      modifies this`contents, nodes
      ensures Valid()
      ensures multiset(contents) == multiset(old(contents))
      ensures SettledFrom(contents, last, compare)
      ensures exchanges <= 0 ==> Sorted(contents, compare)
    {
      BubblePassSettles(contents, last, compare);
      BubblePassQuiet(contents, last, compare);
      exchanges := BubblePass(last, compare);
    }

    /** `bubbleSort`: passes of neighbour exchanges, stopping after a pass without one. */
    method BubbleSort(compare: (E, E) -> int)
      requires Valid() && IsComparator(compare)
      modifies this`contents, nodes
      ensures Valid()
      ensures Sorted(contents, compare)
      ensures multiset(contents) == multiset(old(contents))
    {
      var n := size;
      if n < 2 {
        return;
      }
      var i := 0;
      while i < n - 1
        invariant Valid() && size == n && 0 <= i < n
        invariant multiset(contents) == multiset(old(contents))
        invariant SettledFrom(contents, n - i, compare)
      {
        var exchanges := SettlingPass(n - i - 1, compare);
        if exchanges <= 0 {
          return;
        }
        i := i + 1;
      }
      SettledSorted(contents, compare);
    }

    /** The inner loop of `selectionSort`: the first least element of `contents[i..]`. */
    method SmallestFrom(i: int, compare: (E, E) -> int) returns (smallest: int)
      requires Valid() && IsComparator(compare) && 0 <= i < size
      ensures i <= smallest < size
      ensures forall k :: i <= k < size ==> compare(contents[smallest], contents[k]) <= 0
      ensures forall k :: i <= k < smallest ==> compare(contents[smallest], contents[k]) < 0
    {
      smallest := i;
      var least := Load(i);
      Reflexive(compare, least);
      var j := i + 1;
      while j < size
        invariant i + 1 <= j <= size && i <= smallest < j
        invariant least == contents[smallest]
        invariant forall k :: i <= k < j ==> compare(least, contents[k]) <= 0
        invariant forall k :: i <= k < smallest ==> compare(least, contents[k]) < 0
      {
        var candidate := Load(j);
        Flip(compare, candidate, least);
        if compare(candidate, least) < 0 {
          forall k | i <= k < j ensures compare(candidate, contents[k]) < 0 {
            LessTrans(compare, candidate, least, contents[k]);
          }
          smallest, least := j, candidate;
        }
        Reflexive(compare, candidate);
        j := j + 1;
      }
    }

    /** One pass of `selectionSort`: a least remaining element is exchanged into position `i`. */
    method SelectNext(i: int, compare: (E, E) -> int)
      requires Valid() && IsComparator(compare) && 0 <= i < size
      requires SelectedUpTo(contents, i, compare)
      modifies this`contents, nodes
      ensures Valid()
      ensures SelectedUpTo(contents, i + 1, compare)
      ensures multiset(contents) == multiset(old(contents))
    {
      var smallest := SmallestFrom(i, compare);
      SelectionStep(contents, i, smallest, compare);
      Exchange(i, smallest);
    }

    /** `selectionSort`: the least remaining element is exchanged into each position in turn. */
    method SelectionSort(compare: (E, E) -> int)
      requires Valid() && IsComparator(compare)
      modifies this`contents, nodes
      ensures Valid()
      ensures Sorted(contents, compare)
      ensures multiset(contents) == multiset(old(contents))
    {
      var i := 0;
      while i < size - 1
        invariant Valid() && 0 <= i && (i == 0 || i < size)
        invariant multiset(contents) == multiset(old(contents))
        invariant SelectedUpTo(contents, i, compare)
      {
        SelectNext(i, compare);
        i := i + 1;
      }
      SelectedSorted(contents, compare);
    }
  }
}
