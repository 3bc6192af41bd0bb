/** Walking one list and appending to another. */
module Queues {
  import opened LinkedLists

  ghost function Items<T>(S: seq<Node<T>>): (r: seq<T>)
    ensures |r| == |S|
  {
    seq(|S|, i requires 0 <= i < |S| => S[i].item)
  }

  /** The items on the list whose nodes, head first, are C. */
  ghost function Queue<T>(C: seq<Node<T>>): seq<T>
    requires C != []
  {
    Items(C[1..])
  }

  /** INIT_LIST_HEAD on a head already in use. */
  method InitHead<T>(head: Node<T>)
    modifies head
    ensures Circle([head])
  {
    head.next := head;
    head.prev := head;
  }

  /** A new node at the tail. */
  method Append<T>(item: T, rq: Node<T>, ghost C: seq<Node<T>>) returns (ghost D: seq<Node<T>>)
    requires Circle(C) && rq == C[0]
    modifies C
    ensures Circle(D) && D[0] == rq && Queue(D) == Queue(C) + [item]
    ensures |D| == |C| + 1 && D[..|C|] == C && fresh(D[|C|])
  {
    var node := new Node(item);
    AddTail(node, rq, C);
    D := C + [node];
  }

  lemma QueueParts<T>(S: seq<Node<T>>, i: int)
    requires 0 < i < |S|
    ensures Items(S[1..i + 1]) == Items(S[1..i]) + [S[i].item]
  {
  }

  lemma NextIs<T>(S: seq<Node<T>>, i: int)
    requires Circle(S) && 0 <= i < |S|
    ensures S[i].next == (if i + 1 < |S| then S[i + 1] else S[0])
    ensures i + 1 < |S| ==> S[i + 1] != S[0]
  {
    assert Link(S, i);
  }

  /** A list that a call does not touch. */
  twostate lemma KeepsCircle<T>(S: seq<Node<T>>)
    requires old(Circle(S)) && forall n {:trigger n in S} :: n in S ==> unchanged(n)
    ensures Circle(S)
  {
    forall i | 0 <= i < |S| ensures Link(S, i) {
      assert old(Link(S, i)) && S[i] in S && After(S, i) in S;
    }
  }

  /** list_for_each has come to node i of S, and C is the run queue so far. */
  ghost predicate Copying<T>(S: seq<Node<T>>, C: seq<Node<T>>, src: Node<T>, rq: Node<T>, ptr: Node?<T>, i: int)
    reads S, C
  {
    && 0 < i <= |S| && Circle(S) && src == S[0] && ptr == (if i < |S| then S[i] else S[0]) && (i < |S| ==> S[i] != src)
    && C != [] && Circle(C) && rq == C[0]
    && forall n {:trigger n in C} :: n in C ==> n !in S
  }

  lemma StartCopying<T>(S: seq<Node<T>>, C: seq<Node<T>>, src: Node<T>, rq: Node<T>)
    requires Circle(S) && src == S[0] && Circle(C) && rq == C[0]
    requires forall n {:trigger n in C} :: n in C ==> n !in S
    ensures Copying(S, C, src, rq, src.next, 1)
  {
    NextIs(S, 0);
  }

  /** The step of a copying loop, once it has filled in item. */
  method CopyNext<T>(item: T, rq: Node<T>, src: Node<T>, ptr: Node<T>, ghost S: seq<Node<T>>, ghost C: seq<Node<T>>,
                     ghost i: nat)
    returns (ptr': Node?<T>, ghost D: seq<Node<T>>)
    requires Copying(S, C, src, rq, ptr, i) && i < |S|
    modifies C
    ensures Copying(S, D, src, rq, ptr', i + 1)
    ensures C != [] && D != [] && Queue(D) == Queue(C) + [item]
    ensures |D| == |C| + 1 && D[..|C|] == C && fresh(D[|C|])
  {
    hide Circle, Link;
    NextIs(S, i);
    D := Append(item, rq, C);
    forall n | n in D ensures n !in S { assert n in C || n == D[|C|]; }
    KeepsCircle(S);
    NextIs(S, i);
    ptr' := ptr.next;
  }

  /** The step of a loop that leaves this node out. */
  lemma SkipNext<T>(S: seq<Node<T>>, C: seq<Node<T>>, src: Node<T>, rq: Node<T>, ptr: Node<T>, i: int)
    requires Copying(S, C, src, rq, ptr, i) && i < |S|
    ensures ptr == S[i] && Copying(S, C, src, rq, ptr.next, i + 1)
  {
    NextIs(S, i);
  }
}
