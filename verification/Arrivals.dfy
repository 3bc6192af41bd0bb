/** fcfs_tick of the process scheduler: processes are queued by the tick at which they arrive. */
module Arrivals {
  import opened StableSort
  import opened LinkedLists
  import opened Queues

  datatype Process = Process(pid: int, arr: int, burst: int, prio: int)

  ghost function ByArrival(): Order<Process> { (a: Process, b: Process) => a.arr <= b.arr }

  /** The processes that arrive at tick i, in list order. */
  function At(i: int, s: seq<Process>): seq<Process> {
    if s == [] then [] else (if s[0].arr == i then [s[0]] else []) + At(i, s[1..])
  }

  /** The processes that arrive at ticks 0 to n - 1, tick by tick. */
  function Upto(n: nat, s: seq<Process>): seq<Process> {
    if n == 0 then [] else Upto(n - 1, s) + At(n - 1, s)
  }

  /** The processes that arrive within the span, in list order. */
  function InSpan(span: int, s: seq<Process>): seq<Process> {
    if s == [] then [] else (if 0 <= s[0].arr < span then [s[0]] else []) + InSpan(span, s[1..])
  }

  ghost predicate Between(s: seq<Process>, lo: int, hi: int) {
    forall k {:trigger s[k]} :: 0 <= k < |s| ==> lo <= s[k].arr < hi
  }

  lemma {:induction false} AtArrives(i: int, s: seq<Process>)
    ensures Between(At(i, s), i, i + 1)
  {
    if s != [] { AtArrives(i, s[1..]); }
  }

  lemma {:induction false} UptoArrives(n: nat, s: seq<Process>)
    ensures Between(Upto(n, s), 0, n)
  {
    if n > 0 {
      UptoArrives(n - 1, s);
      AtArrives(n - 1, s);
      var a, b := Upto(n - 1, s), At(n - 1, s);
      assert Between(a + b, 0, n);
    }
  }

  lemma {:induction false} InsertBefore(x: Process, a: seq<Process>, b: seq<Process>)
    requires b != [] ==> x.arr <= b[0].arr
    ensures Insert(ByArrival(), x, a + b) == Insert(ByArrival(), x, a) + b
  {
    if a == [] {
      assert a + b == b;
    } else {
      assert (a + b)[1..] == a[1..] + b;
      InsertBefore(x, a[1..], b);
    }
  }

  lemma {:induction false} InsertLast(x: Process, a: seq<Process>)
    requires Between(a, 0, x.arr)
    ensures Insert(ByArrival(), x, a) == a + [x]
  {
    if a != [] {
      assert a[0].arr < x.arr;
      InsertLast(x, a[1..]);
    }
  }

  /** One process more at the head of the list. */
  lemma {:induction false} UptoCons(n: nat, x: Process, t: seq<Process>)
    ensures Upto(n, [x] + t) == if 0 <= x.arr < n then Insert(ByArrival(), x, Upto(n, t)) else Upto(n, t)
  {
    hide Insert, Between, At;
    if n > 0 {
      UptoCons(n - 1, x, t);
      TickCons(n - 1, x, t, Upto(n - 1, t));
      UptoArrives(n - 1, t);
      if x.arr == n - 1 { InsertLast(x, Upto(n - 1, t)); }
    }
  }

  lemma TickCons(i: nat, x: Process, t: seq<Process>, a: seq<Process>)
    ensures x.arr != i ==> At(i, [x] + t) == At(i, t)
    ensures x.arr == i ==> a + At(i, [x] + t) == (a + [x]) + At(i, t)
    ensures x.arr <= i ==> Insert(ByArrival(), x, a + At(i, t)) == Insert(ByArrival(), x, a) + At(i, t)
  {
    var b := At(i, t);
    assert ([x] + t)[1..] == t;
    AtArrives(i, t);
    if x.arr <= i { InsertBefore(x, a, b); }
  }

  /** Queueing tick by tick is the stable sort by arrival time. */
  lemma {:induction false} UptoSorts(n: nat, s: seq<Process>)
    ensures Upto(n, s) == Sort(ByArrival(), InSpan(n, s))
    ensures |Upto(n, s)| <= |s|
  {
    if s == [] {
      UptoNothing(n);
    } else {
      var x, t := s[0], s[1..];
      assert s == [x] + t;
      UptoCons(n, x, t);
      UptoSorts(n, t);
      if 0 <= x.arr < n {
        assert InSpan(n, s)[1..] == InSpan(n, t);
        SortLength(ByArrival(), InSpan(n, s));
        SortLength(ByArrival(), InSpan(n, t));
      } else {
        assert InSpan(n, s) == InSpan(n, t);
      }
    }
  }

  /** How often x stands in s. */
  lemma {:induction false} AtHolds(i: int, s: seq<Process>, x: Process)
    ensures multiset(At(i, s))[x] == if x.arr == i then multiset(s)[x] else 0
  {
    if s != [] {
      AtHolds(i, s[1..], x);
      assert s == [s[0]] + s[1..];
    }
  }

  lemma {:induction false} AtUpto(i: int, n: nat, s: seq<Process>)
    ensures At(i, Upto(n, s)) == if 0 <= i < n then At(i, s) else []
  {
    hide At, Upto;
    if n == 0 {
      UptoStep(0, s);
      AtNothing(i);
    } else {
      UptoStep(n - 1, s);
      AtUpto(i, n - 1, s);
      AtJoins(i, Upto(n - 1, s), At(n - 1, s));
      AtAt(i, n - 1, s);
    }
  }

  lemma AtNothing(i: int)
    ensures At(i, []) == []
  {
  }

  lemma {:induction false} AtJoins(i: int, s: seq<Process>, t: seq<Process>)
    ensures At(i, s + t) == At(i, s) + At(i, t)
  {
    if s == [] {
      assert s + t == t;
    } else {
      var p := if s[0].arr == i then [s[0]] else [];
      assert (s + t)[1..] == s[1..] + t && (s + t)[0] == s[0];
      AtJoins(i, s[1..], t);
      assert p + (At(i, s[1..]) + At(i, t)) == (p + At(i, s[1..])) + At(i, t);
    }
  }

  lemma {:induction false} AtAt(i: int, j: int, s: seq<Process>)
    ensures At(i, At(j, s)) == if i == j then At(i, s) else []
  {
    if s != [] {
      AtAt(i, j, s[1..]);
      if s[0].arr == j { assert At(j, s)[1..] == At(j, s[1..]); } else { assert At(j, s) == At(j, s[1..]); }
    }
  }

  /** The order of the run queue, tick by tick: later arrivals come later, and the arrivals of each tick
      within the span are those of the source list, in its order. */
  lemma ArrivalOrder(span: int, s: seq<Process>)
    ensures var q := Sort(ByArrival(), InSpan(span, s));
      && (forall j, k {:trigger q[j], q[k]} :: 0 <= j < k < |q| ==> q[j].arr <= q[k].arr)
      && (forall i :: At(i, q) == if 0 <= i < span then At(i, s) else [])
  {
    hide Sort;
    var n := if span < 0 then 0 else span;
    InSpanNone(span, s);
    UptoSorts(n, s);
    UptoAscends(n, s);
    forall i ensures At(i, Upto(n, s)) == if 0 <= i < span then At(i, s) else [] { AtUpto(i, n, s); }
  }

  ghost predicate Ascends(q: seq<Process>) {
    forall j, k {:trigger q[j], q[k]} :: 0 <= j < k < |q| ==> q[j].arr <= q[k].arr
  }

  lemma {:induction false} UptoAscends(n: nat, s: seq<Process>)
    ensures Ascends(Upto(n, s))
  {
    hide Ascends, Between, At, Upto;
    if n == 0 {
      UptoStep(0, s);
      AscendsNothing();
    } else {
      UptoStep(n - 1, s);
      UptoAscends(n - 1, s);
      UptoArrives(n - 1, s);
      AtArrives(n - 1, s);
      AscendsOn(Upto(n - 1, s), At(n - 1, s), n);
    }
  }

  lemma AscendsNothing()
    ensures Ascends([])
  {
  }

  lemma AscendsOn(a: seq<Process>, b: seq<Process>, n: nat)
    requires Ascends(a) && Between(a, 0, n - 1) && Between(b, n - 1, n)
    ensures Ascends(a + b)
  {
    var q := a + b;
    forall j, k {:trigger q[j], q[k]} | 0 <= j < k < |q| ensures q[j].arr <= q[k].arr {
      if j < |a| { assert q[j] == a[j]; } else { assert q[j] == b[j - |a|]; }
      if k < |a| { assert q[k] == a[k]; } else { assert q[k] == b[k - |a|]; }
    }
  }

  lemma {:induction false} UptoNothing(n: nat)
    ensures Upto(n, []) == []
  {
    if n > 0 { UptoNothing(n - 1); }
  }

  /** Once every process has been queued, later ticks add none: leaving the loop early is safe. */
  lemma {:induction false} AllArrived(i: nat, n: nat, s: seq<Process>)
    requires i <= n && |Upto(i, s)| == |s|
    ensures Upto(n, s) == Upto(i, s)
  {
    if i < n {
      AllArrived(i, n - 1, s);
      UptoSorts(n, s);
    }
  }

  lemma AtMore(i: int, s: seq<Process>, x: Process)
    ensures At(i, s + [x]) == At(i, s) + if x.arr == i then [x] else []
  {
    AtJoins(i, s, [x]);
    assert [x][1..] == [];
  }

  /** The inner loop of fcfs_tick: one tick. */
  method QueueArrivals(i: int, added0: nat, rq: Node<Process>, src: Node<Process>, ghost S: seq<Node<Process>>,
                       ghost C: seq<Node<Process>>)
    returns (processAdded: nat, ghost D: seq<Node<Process>>)
    requires Circle(S) && src == S[0] && Circle(C) && rq == C[0] && forall n {:trigger n in C} :: n in C ==> n !in S
    modifies C
    ensures Circle(S) && Circle(D) && C != [] && S != [] && D[0] == rq
    ensures forall n {:trigger n in D} :: n in D ==> n !in S
    ensures Queue(D) == Queue(C) + At(i, Queue(S)) && processAdded == added0 + |At(i, Queue(S))|
    ensures |C| <= |D| && D[..|C|] == C && forall k {:trigger D[k]} :: |C| <= k < |D| ==> fresh(D[k])
  {
    hide Circle, Link;
    StartCopying(S, C, src, rq);
    var ptr: Node?<Process> := src.next;
    processAdded := added0;
    D := C;
    ghost var k := 1;
    while ptr != src
      invariant Copying(S, D, src, rq, ptr, k)
      invariant Queue(D) == Queue(C) + At(i, Items(S[1..k])) && processAdded == added0 + |At(i, Items(S[1..k]))|
      invariant |C| <= |D| && D[..|C|] == C && forall k {:trigger D[k]} :: |C| <= k < |D| ==> fresh(D[k])
      decreases |S| - k
    {
      SkipNext(S, D, src, rq, ptr, k);
      QueueParts(S, k);
      AtMore(i, Items(S[1..k]), S[k].item);
      var entry := ptr.item;
      if entry.arr == i {
        ptr, D := CopyNext(Process(entry.pid, entry.arr, entry.burst, entry.prio), rq, src, ptr, S, D, k);
        processAdded := processAdded + 1;
      } else {
        ptr := ptr.next;
      }
      k := k + 1;
    }
    assert S[1..k] == S[1..];
  }

  /** fcfs_tick, with processes as read_config counts them: the processes that arrive within the span
      are appended to the run queue in stable order of arrival, each once. */
  method FcfsTick(span: int, processes: nat, rq: Node<Process>, src: Node<Process>, ghost S: seq<Node<Process>>,
                  ghost C: seq<Node<Process>>)
    returns (ghost D: seq<Node<Process>>)
    requires Circle(S) && src == S[0] && Circle(C) && rq == C[0] && forall n {:trigger n in C} :: n in C ==> n !in S
    requires processes == |Queue(S)|
    modifies C
    ensures Circle(D) && D[0] == rq
    ensures Queue(D) == Queue(C) + Sort(ByArrival(), InSpan(span, Queue(S)))
  {
    hide Circle, Link, Sort, InSpan, Upto, At, Copying;
    ListsStart(S, C, src, rq);
    ghost var s, n := Queue(S), if span < 0 then 0 else span;
    UptoSorts(n, s);
    InSpanNone(span, s);
    UptoStep(0, s);
    D := C;
    var processAdded := 0;
    var i := 0;
    while i < span
      invariant 0 <= i <= n && Circle(S) && Circle(D) && D != [] && D[0] == rq
      invariant (forall n {:trigger n in D} :: n in D ==> n !in S)
      invariant Queue(D) == Queue(C) + Upto(i, s) && processAdded == |Upto(i, s)|
      invariant |C| <= |D| && D[..|C|] == C && forall k {:trigger D[k]} :: |C| <= k < |D| ==> fresh(D[k])
      decreases span - i
    {
      if processAdded == processes {
        AllArrived(i, n, s);
        return;
      }
      UptoStep(i, s);
      processAdded, D := QueueArrivals(i, processAdded, rq, src, S, D);
      i := i + 1;
    }
  }

  lemma ListsStart(S: seq<Node<Process>>, C: seq<Node<Process>>, src: Node<Process>, rq: Node<Process>)
    requires Circle(S) && src == S[0] && Circle(C) && rq == C[0]
    ensures S != [] && C != []
  {
  }

  lemma UptoStep(i: nat, s: seq<Process>)
    ensures Upto(0, s) == [] && Upto(i + 1, s) == Upto(i, s) + At(i, s)
  {
  }

  lemma {:induction false} InSpanNone(span: int, s: seq<Process>)
    ensures InSpan(span, s) == InSpan(if span < 0 then 0 else span, s)
  {
    if s != [] { InSpanNone(span, s[1..]); }
  }
}
