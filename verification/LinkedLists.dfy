/** The circular doubly linked list of list.h and its bottom-up merge sort. */
module LinkedLists {
  import opened Sequences

  class Node<T> {
    var next: Node?<T>
    var prev: Node?<T>
    const item: T   // the structure the node is embedded in

    /** INIT_LIST_HEAD */
    constructor (item: T)
      ensures this.item == item && Circle([this])
    {
      this.item := item;
      next := this;
      prev := this;
    }
  }

  // ---------- Circles ----------

  ghost function After<X>(C: seq<X>, i: int): X
    requires 0 <= i < |C|
  {
    if i + 1 < |C| then C[i + 1] else C[0]
  }

  ghost predicate Link<T>(C: seq<Node<T>>, i: int)
    requires 0 <= i < |C|
    reads C
  {
    C[i].next == After(C, i) && After(C, i).prev == C[i]
  }

  /** The nodes of C, each once, linked in a circle both ways.  A list is such a circle whose first
      node is its head. */
  ghost predicate Circle<T>(C: seq<Node<T>>)
    reads C
  {
    |C| > 0 && Distinct(C) && forall i {:trigger Link(C, i)} :: 0 <= i < |C| ==> Link(C, i)
  }

  /** C with x after its element k. */
  ghost function With<X>(C: seq<X>, k: int, x: X): seq<X>
    requires 0 <= k < |C|
  {
    C[..k + 1] + [x] + C[k + 1..]
  }

  /** __list_add */
  method AddBetween<T>(node: Node<T>, prev: Node<T>, next: Node<T>, ghost C: seq<Node<T>>, ghost k: int)
    requires Circle(C) && 0 <= k < |C| && prev == C[k] && next == After(C, k) && node !in C
    modifies node`next, node`prev, prev`next, next`prev
    ensures Circle(With(C, k, node))
  {
    next.prev := node;
    node.next := next;
    node.prev := prev;
    prev.next := node;
    ghost var D := With(C, k, node);
    forall i | 0 <= i < |D| ensures Link(D, i) {
      var j := if i <= k then i else i - 1;
      assert old(Link(C, j));
    }
  }

  /** list_add: after the head. */
  method Add<T>(node: Node<T>, head: Node<T>, ghost C: seq<Node<T>>)
    requires Circle(C) && head == C[0] && node !in C
    modifies C, node
    ensures Circle([head, node] + C[1..])
  {
    assert Link(C, 0);
    AddBetween(node, head, head.next, C, 0);
    assert With(C, 0, node) == [head, node] + C[1..];
  }

  /** list_add_tail: before the head. */
  method AddTail<T>(node: Node<T>, head: Node<T>, ghost C: seq<Node<T>>)
    requires Circle(C) && head == C[0] && node !in C
    modifies C, node
    ensures Circle(C + [node])
  {
    assert Link(C, |C| - 1);
    AddBetween(node, head.prev, head, C, |C| - 1);
    assert With(C, |C| - 1, node) == C + [node];
  }

  /** list_del; the two poison pointers are null here. */
  method Delete<T>(entry: Node<T>, ghost C: seq<Node<T>>, ghost k: int)
    requires Circle(C) && 0 <= k < |C| && entry == C[k]
    modifies C
    ensures |C| > 1 ==> Circle(Without(C, k))
    ensures entry.next == null && entry.prev == null
  {
    ghost var b := if k == 0 then |C| - 1 else k - 1;
    assert Link(C, k) && Link(C, b);
    var prev, next := entry.prev, entry.next;
    next.prev := prev;
    prev.next := next;
    entry.next := null;
    entry.prev := null;
    ghost var D := Without(C, k);
    forall i | 0 <= i < |D| ensures Link(D, i) {
      var j := if i < k then i else i + 1;
      assert old(Link(C, j)) && old(Link(C, k));
    }
  }
}
