/**
 * The double-ended queue of queues/Deque.java: a doubly linked list of nodes
 * with `head`, `tail` and a `size` counter, and a front-to-back iterator.
 * Each object carries ghost state that says what it stands for: the deque its
 * sequence of elements `contents` and the nodes that hold them, the iterator
 * the elements it has still to yield.
 */
module Queues {
  import opened Exceptions

  /** A list node: the item and the links to its two neighbours. */
  class Node<T> {
    var item: T
    var next: Node?<T>
    var prev: Node?<T>

    /** `new Node(i)`: both links null. */
    constructor (i: T)
      ensures item == i && next == null && prev == null
    {
      item := i;
      next := null;
      prev := null;
    }
  }

  /**
   * Following `next` from `first` passes exactly the nodes of `chain`, in
   * order, and stops at null; the nodes hold `items`.
   */
  ghost predicate Chained<T>(first: Node?<T>, chain: seq<Node<T>>, items: seq<T>)
    reads chain
  {
    && |chain| == |items|
    && (if chain == [] then first == null else first == chain[0] && chain[|chain| - 1].next == null)
    && (forall k :: 0 <= k < |chain| - 1 ==> chain[k].next == chain[k + 1])
    && (forall k :: 0 <= k < |chain| ==> chain[k].item == items[k])
  }

  class Deque<T> {
    var size: nat
    var head: Node?<T>
    var tail: Node?<T>
    /** The elements, front to back. */
    ghost var contents: seq<T>
    /** The nodes that hold them, front to back. */
    ghost var nodes: seq<Node<T>>
    /** This object and every node. */
    ghost var Repr: set<object>

    /**
     * The list is well formed: `size` counts the nodes, `next` runs from
     * `head` to `tail` through them, `prev` runs back, and the nodes are
     * pairwise distinct.
     */
    ghost predicate Valid()
      reads this, Repr
    {
      && this in Repr
      && (forall k :: 0 <= k < |nodes| ==> nodes[k] in Repr)
      && size == |nodes|
      && Chained(head, nodes, contents)
      && (forall k, l :: 0 <= k < l < |nodes| ==> nodes[k] != nodes[l])
      && (if nodes == [] then tail == null else tail == nodes[|nodes| - 1] && nodes[0].prev == null)
      && (forall k :: 0 <= k < |nodes| - 1 ==> nodes[k + 1].prev == nodes[k])
    }

    /** `new Deque()`: empty. */
    constructor ()
      ensures Valid() && contents == [] && fresh(Repr)
    {
      size := 0;
      head := null;
      tail := null;
      contents := [];
      nodes := [];
      Repr := {this};
    }

    /** `isEmpty()`: whether `size` is zero, that is, whether there are no elements. */
    function IsEmpty(): (r: bool)
      reads this, Repr
      requires Valid()
      ensures r <==> contents == []
    {
      size == 0
    }

    /** `size()`: the number of elements. */
    function Size(): (r: nat)
      reads this, Repr
      requires Valid()
      ensures r == |contents|
    {
      size
    }

    /**
     * `addFirst(item)`: a null item throws NullPointerException and changes
     * nothing; otherwise the item becomes the new front element.
     */
    method AddFirst(item: Option<T>) returns (r: Outcome)
      requires Valid()
      modifies Repr
      ensures Valid() && fresh(Repr - old(Repr))
      ensures item.None? ==> r == Fail(NullPointer) && unchanged(this) && unchanged(Repr)
      ensures item.Some? ==> r == Pass && contents == [item.value] + old(contents) && size == old(size) + 1
    {
      match item
      case None =>
        return Fail(NullPointer);
      case Some(x) =>
        var node := new Node(x);
        contents := [x] + contents;
        nodes := [node] + nodes;
        Repr := Repr + {node};
        node.next := head;
        if head != null {
          head.prev := node;
        }
        head := node;
        // the deque was empty: the new node is also the last one
        if size == 0 {
          tail := node;
        }
        size := size + 1;
        r := Pass;
    }

    /**
     * `addLast(item)`: a null item throws NullPointerException and changes
     * nothing; otherwise the item becomes the new back element.
     */
    method AddLast(item: Option<T>) returns (r: Outcome)
      requires Valid()
      modifies Repr
      ensures Valid() && fresh(Repr - old(Repr))
      ensures item.None? ==> r == Fail(NullPointer) && unchanged(this) && unchanged(Repr)
      ensures item.Some? ==> r == Pass && contents == old(contents) + [item.value] && size == old(size) + 1
    {
      match item
      case None =>
        return Fail(NullPointer);
      case Some(x) =>
        var node := new Node(x);
        if tail != null {
          tail.next := node;
        }
        node.prev := tail;
        tail := node;
        // the deque was empty: the new node is also the first one
        if size == 0 {
          head := node;
        }
        size := size + 1;
        contents := contents + [x];
        nodes := nodes + [node];
        Repr := Repr + {node};
        assert forall k :: 0 <= k < |nodes| - 1 ==> nodes[k + 1].prev == nodes[k];
        assert Chained(head, nodes, contents);
        r := Pass;
    }

    /**
     * `removeFirst()`: an empty deque throws NoSuchElementException and
     * changes nothing; otherwise the front element is removed and returned.
     * The new front node's `prev` is cleared, and `tail` is cleared when the
     * deque becomes empty.
     */
    method RemoveFirst() returns (r: Result<T>)
      requires Valid()
      modifies Repr
      ensures Valid() && Repr <= old(Repr)
      ensures old(contents) == [] ==> r == Failure(NoSuchElement) && unchanged(this) && unchanged(Repr)
      ensures old(contents) != [] ==> r == Success(old(contents)[0]) && contents == old(contents)[1..] && size == old(size) - 1
    {
      if size == 0 {
        return Failure(NoSuchElement);
      }
      assert |nodes| > 1 ==> head.next == nodes[1];
      var node := head;
      head := head.next;
      if head == null {
        tail := null;
      } else {
        head.prev := null;
      }
      size := size - 1;
      contents := contents[1..];
      nodes := nodes[1..];
      Repr := Repr - {node};
      r := Success(node.item);
    }

    /**
     * `removeLast()`: an empty deque throws NoSuchElementException and
     * changes nothing; otherwise the back element is removed and returned.
     * The new back node's `next` is cleared, and `head` is cleared when the
     * deque becomes empty.
     */
    method RemoveLast() returns (r: Result<T>)
      requires Valid()
      modifies Repr
      ensures Valid() && Repr <= old(Repr)
      ensures old(contents) == [] ==> r == Failure(NoSuchElement) && unchanged(this) && unchanged(Repr)
      ensures old(contents) != [] ==> r == Success(old(contents)[|old(contents)| - 1]) && contents == old(contents)[..|old(contents)| - 1] && size == old(size) - 1
    {
      if size == 0 {
        return Failure(NoSuchElement);
      }
      assert |nodes| > 1 ==> tail.prev == nodes[|nodes| - 2];
      var node := tail;
      tail := tail.prev;
      if tail == null {
        head := null;
      } else {
        tail.next := null;
      }
      size := size - 1;
      contents := contents[..|contents| - 1];
      nodes := nodes[..|nodes| - 1];
      Repr := Repr - {node};
      r := Success(node.item);
    }

    /**
     * `removeFirst()` as queues/Deque.java:67-75 writes it: only `head` and
     * `size` move. The new front node keeps its `prev` link to the removed
     * node, and `tail` keeps pointing at the removed node when the deque
     * becomes empty. The ghost state is left alone.
     */
    method RemoveFirstAsWritten() returns (r: Result<T>)
      requires size != 0 ==> head != null
      modifies this
      ensures old(size) == 0 ==> r == Failure(NoSuchElement) && unchanged(this)
      ensures old(size) != 0 ==> && r == Success(old(head.item)) && head == old(head.next) && size == old(size) - 1
                                 && tail == old(tail) && contents == old(contents) && nodes == old(nodes) && Repr == old(Repr)
    {
      if size == 0 {
        return Failure(NoSuchElement);
      }
      var node := head;
      head := head.next;
      size := size - 1;
      r := Success(node.item);
    }

    /**
     * `removeLast()` as queues/Deque.java:77-85 writes it: only `tail` and
     * `size` move. The new back node keeps its `next` link to the removed
     * node, and `head` keeps pointing at the removed node when the deque
     * becomes empty. The ghost state is left alone.
     */
    method RemoveLastAsWritten() returns (r: Result<T>)
      requires size != 0 ==> tail != null
      modifies this
      ensures old(size) == 0 ==> r == Failure(NoSuchElement) && unchanged(this)
      ensures old(size) != 0 ==> && r == Success(old(tail.item)) && tail == old(tail.prev) && size == old(size) - 1
                                 && head == old(head) && contents == old(contents) && nodes == old(nodes) && Repr == old(Repr)
    {
      if size == 0 {
        return Failure(NoSuchElement);
      }
      var node := tail;
      tail := tail.prev;
      size := size - 1;
      r := Success(node.item);
    }

    /**
     * `addFirst(item)` as queues/Deque.java:31-47 writes it, on whatever the
     * fields hold, including the stale ends the as-written removals leave: the
     * new node links forward to `head`, `head` (when non-null) links back to
     * it, and `tail` is set only when `size` is 0. The ghost state is left
     * alone.
     */
    method AddFirstAsWritten(item: Option<T>) returns (r: Outcome)
      modifies this, head
      ensures item.None? ==> r == Fail(NullPointer) && unchanged(this) && (old(head) != null ==> unchanged(old(head)))
      ensures item.Some? ==> && r == Pass && fresh(head) && head.item == item.value && head.next == old(head) && head.prev == null
                             && (old(head) != null ==> old(head).prev == head && old(head).next == old(head.next) && old(head).item == old(head.item))
                             && tail == (if old(size) == 0 then head else old(tail)) && size == old(size) + 1
                             && contents == old(contents) && nodes == old(nodes) && Repr == old(Repr)
    {
      match item
      case None =>
        return Fail(NullPointer);
      case Some(x) =>
        var node := new Node(x);
        node.next := head;
        if head != null {
          head.prev := node;
        }
        head := node;
        if size == 0 {
          tail := node;
        }
        size := size + 1;
        r := Pass;
    }

    /**
     * `addLast(item)` as queues/Deque.java:49-65 writes it, on whatever the
     * fields hold: `tail` (when non-null) links forward to the new node, the
     * new node links back to `tail`, and `head` is set only when `size` is 0.
     * The ghost state is left alone.
     */
    method AddLastAsWritten(item: Option<T>) returns (r: Outcome)
      modifies this, tail
      ensures item.None? ==> r == Fail(NullPointer) && unchanged(this) && (old(tail) != null ==> unchanged(old(tail)))
      ensures item.Some? ==> && r == Pass && fresh(tail) && tail.item == item.value && tail.prev == old(tail) && tail.next == null
                             && (old(tail) != null ==> old(tail).next == tail && old(tail).prev == old(tail.prev) && old(tail).item == old(tail.item))
                             && head == (if old(size) == 0 then tail else old(head)) && size == old(size) + 1
                             && contents == old(contents) && nodes == old(nodes) && Repr == old(Repr)
    {
      match item
      case None =>
        return Fail(NullPointer);
      case Some(x) =>
        var node := new Node(x);
        if tail != null {
          tail.next := node;
        }
        node.prev := tail;
        tail := node;
        if size == 0 {
          head := node;
        }
        size := size + 1;
        r := Pass;
    }

    /** `iterator()`: a fresh iterator that yields the elements front to back, starting at `head`. */
    method Iterator() returns (it: ListIterator<T>)
      requires Valid()
      ensures fresh(it) && it.Valid() && it.remaining == contents && it.rest == nodes
    {
      it := new ListIterator(head, nodes, contents);
    }
  }

  /** The deque's iterator: `current` is the node whose item comes next. */
  class ListIterator<T> {
    var current: Node?<T>
    /** The nodes still to be visited, from `current` on. */
    ghost var rest: seq<Node<T>>
    /** The items still to be yielded. */
    ghost var remaining: seq<T>

    ghost predicate Valid()
      reads this, rest
    {
      Chained(current, rest, remaining)
    }

    /** `new ListIterator(first)`: the chain from `first` holds the items to be yielded. */
    constructor (first: Node?<T>, ghost chain: seq<Node<T>>, ghost items: seq<T>)
      requires Chained(first, chain, items)
      ensures Valid() && rest == chain && remaining == items
    {
      current := first;
      rest := chain;
      remaining := items;
    }

    /** `hasNext()`: whether `current` is a node, that is, whether items remain. */
    function HasNext(): (b: bool)
      reads this, rest
      requires Valid()
      ensures b <==> remaining != []
    {
      current != null
    }

    /**
     * `next()`: throws NoSuchElementException when no item remains, and
     * otherwise yields the next item and moves to the following node.
     */
    method Next() returns (r: Result<T>)
      requires Valid()
      modifies this
      ensures Valid()
      ensures old(remaining) == [] ==> r == Failure(NoSuchElement) && unchanged(this)
      ensures old(remaining) != [] ==> r == Success(old(remaining)[0]) && remaining == old(remaining)[1..] && rest == old(rest)[1..]
    {
      if !HasNext() {
        return Failure(NoSuchElement);
      }
      var item := current.item;
      current := current.next;
      rest := rest[1..];
      remaining := remaining[1..];
      r := Success(item);
    }
  }

  // ---------------------------------------------------------------------------
  // Clients: the for-each loop and the unit tests of queues/Deque.java
  // ---------------------------------------------------------------------------

  /** A for-each loop over the iterator: collects every remaining item, in order. */
  method Drain<T>(it: ListIterator<T>) returns (s: seq<T>)
    requires it.Valid()
    modifies it
    ensures s == old(it.remaining) && it.remaining == []
  {
    s := [];
    while it.HasNext()
      invariant it.Valid()
      invariant s + it.remaining == old(it.remaining)
      decreases |it.remaining|
    {
      var r := it.Next();
      s := s + [r.value];
    }
  }

  /** `for (Item t : d)`: iteration yields exactly the contents, front to back. */
  method Elements<T>(d: Deque<T>) returns (s: seq<T>)
    requires d.Valid()
    ensures s == d.contents
  {
    var it := d.Iterator();
    s := Drain(it);
  }

  /** `testIterator`: after `addLast` of each element, iteration yields them in insertion order. */
  method InsertionOrderScenario<T>(xs: seq<T>) returns (ys: seq<T>)
    ensures ys == xs
  {
    var d := new Deque<T>();
    for i := 0 to |xs|
      invariant d.Valid() && fresh(d.Repr) && d.contents == xs[..i]
    {
      var added := d.AddLast(Some(xs[i]));
    }
    assert xs[..|xs|] == xs;
    ys := Elements(d);
  }

  /** `addFirst(x)` then `removeFirst()` gives back `x` and leaves the contents as they were. */
  method AddRemoveFront<T>(d: Deque<T>, x: T) returns (r: Result<T>)
    requires d.Valid()
    modifies d.Repr
    ensures d.Valid() && r == Success(x) && d.contents == old(d.contents)
  {
    var added := d.AddFirst(Some(x));
    r := d.RemoveFirst();
  }

  /** `addLast(x)` then `removeLast()` gives back `x` and leaves the contents as they were. */
  method AddRemoveBack<T>(d: Deque<T>, x: T) returns (r: Result<T>)
    requires d.Valid()
    modifies d.Repr
    ensures d.Valid() && r == Success(x) && d.contents == old(d.contents)
  {
    var added := d.AddLast(Some(x));
    r := d.RemoveLast();
  }

  /**
   * `testBasicDequeOperations`: a new deque is empty; `addFirst(a)` then
   * `removeLast()` gives back `a`, `addLast(z)` then `removeFirst()` gives
   * back `z`, and the size is 1 in between.
   */
  method BasicScenario<T>(a: T, z: T)
    returns (emptyAtStart: bool, sizeAtStart: nat, sizeWithA: nat, last: Result<T>, sizeWithZ: nat, first: Result<T>, emptyAtEnd: bool)
    ensures emptyAtStart && sizeAtStart == 0
    ensures sizeWithA == 1 && last == Success(a)
    ensures sizeWithZ == 1 && first == Success(z)
    ensures emptyAtEnd
  {
    var d := new Deque<T>();
    emptyAtStart, sizeAtStart := d.IsEmpty(), d.Size();
    var added := d.AddFirst(Some(a));
    sizeWithA := d.Size();
    last := d.RemoveLast();
    added := d.AddLast(Some(z));
    sizeWithZ := d.Size();
    first := d.RemoveFirst();
    emptyAtEnd := d.IsEmpty();
  }

  /**
   * With the corrected `removeLast`, removing the back of [a, b] leaves one
   * element, and iteration yields just that one.
   */
  method RemoveLastScenario<T>(a: T, b: T) returns (removed: Result<T>, count: nat, walked: seq<T>)
    ensures removed == Success(b) && count == 1 && walked == [a]
  {
    var d := new Deque<T>();
    var added := d.AddLast(Some(a));
    added := d.AddLast(Some(b));
    removed := d.RemoveLast();
    count := d.Size();
    walked := Elements(d);
  }

  /**
   * With `removeLast` as written, removing the back of [a, b] leaves a size
   * of 1, but the front node still links to the removed node, so iteration
   * yields both elements.
   */
  method RemoveLastAsWrittenScenario<T>(a: T, b: T) returns (removed: Result<T>, count: nat, walked: seq<T>)
    ensures removed == Success(b) && count == 1 && walked == [a, b]
  {
    var d := new Deque<T>();
    var added := d.AddLast(Some(a));
    added := d.AddLast(Some(b));
    removed := d.RemoveLastAsWritten();
    count := d.size;
    var it := new ListIterator(d.head, d.nodes, d.contents);
    walked := Drain(it);
  }

  /**
   * With the corrected `removeFirst`, emptying [a, b] from the front leaves
   * both ends null, and the front node of [b] has no `prev`.
   */
  method RemoveFirstScenario<T>(a: T, b: T) returns (first: Result<T>, frontHasPrev: bool, second: Result<T>, count: nat, endsCleared: bool)
    ensures first == Success(a) && !frontHasPrev && second == Success(b) && count == 0 && endsCleared
  {
    var d := new Deque<T>();
    var added := d.AddLast(Some(a));
    added := d.AddLast(Some(b));
    first := d.RemoveFirst();
    frontHasPrev := d.head.prev != null;
    second := d.RemoveFirst();
    count := d.Size();
    endsCleared := d.head == null && d.tail == null;
  }

  /**
   * With `removeFirst` as written, emptying [a, b] from the front leaves the
   * front node of [b] linked back to the removed node of a, and leaves `tail`
   * pointing at the removed node of b while the size is 0.
   */
  method RemoveFirstAsWrittenScenario<T>(a: T, b: T) returns (first: Result<T>, frontHasPrev: bool, second: Result<T>, count: nat, endsCleared: bool)
    ensures first == Success(a) && frontHasPrev && second == Success(b) && count == 0 && !endsCleared
  {
    var d := new Deque<T>();
    var added := d.AddLast(Some(a));
    added := d.AddLast(Some(b));
    first := d.RemoveFirstAsWritten();
    frontHasPrev := d.head.prev != null;
    second := d.RemoveFirstAsWritten();
    count := d.size;
    endsCleared := d.head == null && d.tail == null;
  }

  /**
   * As written, the `head` that `removeLast` leaves behind feeds the next
   * `addFirst`: after addLast(a), removeLast(), addFirst(c) the size is 1, but
   * the new front node links forward to the removed node of a, so iteration
   * yields c and then a.
   */
  method StaleHeadScenario<T>(a: T, c: T) returns (removed: Result<T>, count: nat, walked: seq<T>)
    ensures removed == Success(a) && count == 1 && walked == [c, a]
  {
    var d := new Deque<T>();
    var added := d.AddLast(Some(a));
    ghost var removedNode := d.head;
    removed := d.RemoveLastAsWritten();
    added := d.AddFirstAsWritten(Some(c));
    count := d.size;
    var it := new ListIterator(d.head, [d.head, removedNode], [c, a]);
    walked := Drain(it);
  }

  /**
   * As written, the `tail` that `removeFirst` leaves behind feeds the next
   * `addLast`: after addLast(a), removeFirst(), addLast(c) the size is 1 and
   * iteration yields c, but the new node links back to the removed node of a,
   * and that removed node links forward to it.
   */
  method StaleTailScenario<T>(a: T, c: T) returns (removed: Result<T>, count: nat, walked: seq<T>, frontHasPrev: bool)
    ensures removed == Success(a) && count == 1 && walked == [c] && frontHasPrev
  {
    var d := new Deque<T>();
    var added := d.AddLast(Some(a));
    ghost var removedNode := d.head;
    removed := d.RemoveFirstAsWritten();
    added := d.AddLastAsWritten(Some(c));
    count := d.size;
    frontHasPrev := d.head.prev != null;
    assert d.head.prev == removedNode && removedNode.next == d.head;
    var it := new ListIterator(d.head, [d.head], [c]);
    walked := Drain(it);
  }
}
