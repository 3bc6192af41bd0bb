/** The disk-arm schedulers of disksim.c over circular lists of tasks. */
module DiskSims {
  import opened Sequences
  import opened StableSort
  import opened LinkedLists
  import opened ListSorts
  import opened DiskOrders
  import opened Queues

  /** A list head is embedded in no task; its item is never read. */
  type TaskNode = Node<Task>

  // ---------- Sorting nodes sorts tasks ----------

  lemma {:induction false} InsertItems(p: Policy, x: TaskNode, S: seq<TaskNode>)
    ensures Items(Insert(ByItem(Comparator(p)), x, S)) == Insert(Before(p), x.item, Items(S))
  {
    var le := ByItem(Comparator(p));
    if S != [] {
      assert Items(S)[1..] == Items(S[1..]);
      assert le(x, S[0]) == Before(p)(x.item, S[0].item);
      if !le(x, S[0]) {
        InsertItems(p, x, S[1..]);
      }
    }
  }

  lemma {:induction false} SortItems(p: Policy, S: seq<TaskNode>)
    ensures Items(Sort(ByItem(Comparator(p)), S)) == Served(p, Items(S))
  {
    if S != [] {
      assert Items(S)[1..] == Items(S[1..]);
      SortItems(p, S[1..]);
      InsertItems(p, S[0], Sort(ByItem(Comparator(p)), S[1..]));
    }
  }

  lemma NodesOrdered(p: Policy, S: seq<TaskNode>)
    ensures Consistent(Comparator(p), S)
  {
    var cmp, D := Comparator(p), set n | n in S :: n.item;
    ComparatorsOrder(p, D);
    forall x: TaskNode, y: TaskNode {:trigger x in S, y in S} | x in S && y in S
      ensures cmp(x.item, y.item) <= 0 || cmp(y.item, x.item) <= 0
    {
      assert Before(p)(x.item, y.item) || Before(p)(y.item, x.item);
    }
    forall x: TaskNode, y: TaskNode, z: TaskNode {:trigger x in S, y in S, z in S}
      | x in S && y in S && z in S && cmp(x.item, y.item) <= 0 && cmp(y.item, z.item) <= 0
      ensures cmp(x.item, z.item) <= 0
    {
      assert Before(p)(x.item, y.item) && Before(p)(y.item, z.item);
    }
  }

  // ---------- Tasks copied in part ----------

  /** s and t agree on cylinder and dist: the fields that SSTF copies. */
  ghost predicate SameKeys(s: seq<Task>, t: seq<Task>) {
    |s| == |t| && forall i {:trigger s[i]} {:trigger t[i]} :: 0 <= i < |s| ==>
      s[i].cylinder == t[i].cylinder && s[i].dist == t[i].dist
  }

  ghost predicate SameCylinders(s: seq<Task>, t: seq<Task>) {
    |s| == |t| && forall i {:trigger s[i]} {:trigger t[i]} :: 0 <= i < |s| ==> s[i].cylinder == t[i].cylinder
  }

  lemma {:induction false} SameKeysInserted(x: Task, y: Task, s: seq<Task>, t: seq<Task>)
    requires SameKeys(s, t) && x.cylinder == y.cylinder && x.dist == y.dist
    ensures SameKeys(Insert(Before(Sstf), x, s), Insert(Before(Sstf), y, t))
  {
    if s != [] { SameKeysInserted(x, y, s[1..], t[1..]); }
  }

  /** SSTF's order is not affected by the field it does not copy. */
  lemma {:induction false} SameKeysServed(s: seq<Task>, t: seq<Task>)
    requires SameKeys(s, t)
    ensures SameKeys(Served(Sstf, s), Served(Sstf, t))
  {
    if s != [] {
      SameKeysServed(s[1..], t[1..]);
      SameKeysInserted(s[0], t[0], Served(Sstf, s[1..]), Served(Sstf, t[1..]));
    }
  }

  lemma {:induction false} SameTravel(pos: int, s: seq<Task>, t: seq<Task>)
    requires SameCylinders(s, t)
    ensures Travel(pos, s) == Travel(pos, t)
    decreases |s|
  {
    if s != [] { SameTravel(s[0].cylinder, s[1..], t[1..]); }
  }

  // ---------- Building the run queue ----------

  /** The copying loop of the ticks that copy every field. */
  method CopyTasks(rq: TaskNode, src: TaskNode, ghost S: seq<TaskNode>, ghost C: seq<TaskNode>)
    returns (ghost D: seq<TaskNode>)
    requires Circle(S) && src == S[0] && Circle(C) && rq == C[0]
    requires forall n {:trigger n in C} :: n in C ==> n !in S
    modifies C
    ensures Circle(D) && D[0] == rq && Queue(D) == Queue(C) + Queue(S)
    ensures |C| <= |D| && D[..|C|] == C && forall k {:trigger D[k]} :: |C| <= k < |D| ==> fresh(D[k])
  {
    hide Circle, Link;
    StartCopying(S, C, src, rq);
    var ptr: Node?<Task> := src.next;
    D := C;
    ghost var i := 1;
    while ptr != src
      invariant Copying(S, D, src, rq, ptr, i) && Queue(D) == Queue(C) + Items(S[1..i])
      invariant |C| <= |D| && D[..|C|] == C && forall k {:trigger D[k]} :: |C| <= k < |D| ==> fresh(D[k])
      decreases |S| - i
    {
      var entry := ptr.item;
      QueueParts(S, i);
      ptr, D := CopyNext(Task(entry.cylinder, entry.dist, entry.up), rq, src, ptr, S, D, i);
      i := i + 1;
    }
  }

  /** list_sort with the comparator of policy p. */
  method SortQueue(p: Policy, rq: TaskNode, ghost C: seq<TaskNode>) returns (ghost D: seq<TaskNode>)
    requires Circle(C) && rq == C[0] && |C| > 1
    modifies C
    ensures Circle(D) && D[0] == rq && Queue(D) == Served(p, Queue(C)) && |D| == |C|
  {
    hide Circle, Sort, Consistent, Precedes;
    NodesOrdered(p, C[1..]);
    ghost var S, passes, compares := ListSort(rq, Comparator(p), C);
    SortItems(p, C[1..]);
    D := [rq] + S;
    assert D[1..] == S;
    SortLength(ByItem(Comparator(p)), C[1..]);
  }

  lemma TravelStep(pos: int, C: seq<TaskNode>, i: int)
    requires 0 < i < |C|
    ensures Items(C[i..]) != [] && Items(C[i..])[0] == C[i].item && Items(C[i..])[1..] == Items(C[i + 1..])
    ensures Travel(pos, Items(C[i..])) == Abs(pos - C[i].item.cylinder) + Travel(C[i].item.cylinder, Items(C[i + 1..]))
  {
    assert C[i..][1..] == C[i + 1..];
    assert Items(C[i..])[1..] == Items(C[i + 1..]);
  }

  /** The loop that adds up the distances, in SSTF, SCAN and LOOK. */
  method Distance(start: int, rq: TaskNode, ghost C: seq<TaskNode>) returns (totalDist: int)
    requires Circle(C) && rq == C[0]
    ensures totalDist == Travel(start, Queue(C))
  {
    hide Circle, Link, Travel;
    CircleParts(C);
    NextIs(C, 0);
    totalDist := 0;
    var prevDist := start;
    var ptr: Node?<Task> := rq.next;
    ghost var i := 1;
    while ptr != rq
      invariant 0 < i <= |C| && ptr == (if i < |C| then C[i] else rq) && (i < |C| ==> C[i] != rq)
      invariant totalDist + Travel(prevDist, Items(C[i..])) == Travel(start, Queue(C))
      decreases |C| - i
    {
      NextIs(C, i);
      TravelStep(prevDist, C, i);
      var entry := ptr.item;
      totalDist := totalDist + Abs(prevDist - entry.cylinder);
      prevDist := entry.cylinder;
      ptr := ptr.next;
      i := i + 1;
    }
    TravelNothing(prevDist);
    assert C[i..] == [];
  }

  lemma TravelNothing(pos: int)
    ensures Travel(pos, []) == 0 && Items<Task>([]) == []
  {
  }

  /** The loop of CSCAN (atTop: a request at the highest cylinder too sets directionChange) and of
      CLOOK.  directionChange is false whenever the loop's test reads it. */
  method CircularDistance(start: int, atTop: bool, rq: TaskNode, ghost C: seq<TaskNode>) returns (totalDist: int)
    requires Circle(C) && rq == C[0]
    ensures totalDist == Travel(start, Queue(C)) + (if atTop then 2 * HIGHEST_LEVEL * AtTop(Queue(C)) else 0)
  {
    hide Circle, Link, Travel, AtTop;
    CircleParts(C);
    NextIs(C, 0);
    totalDist := 0;
    var prevDist := start;
    var directionChange := false;
    var ptr: Node?<Task> := rq.next;
    ghost var i, n := 1, 0;
    while ptr != rq
      invariant 0 < i <= |C| && ptr == (if i < |C| then C[i] else rq) && (i < |C| ==> C[i] != rq)
      invariant !directionChange
      invariant totalDist + Travel(prevDist, Items(C[i..])) ==
        Travel(start, Queue(C)) + (if atTop then 2 * HIGHEST_LEVEL * n else 0)
      invariant n + AtTop(Items(C[i..])) == AtTop(Queue(C))
      decreases |C| - i
    {
      NextIs(C, i);
      TravelStep(prevDist, C, i);
      AtTopStep(C, i);
      var entry := ptr.item;
      if entry.cylinder != 0 && !directionChange {
        totalDist := totalDist + Abs(prevDist - entry.cylinder);
        prevDist := entry.cylinder;
      }
      if entry.cylinder == LOWEST_LEVEL || (atTop && entry.cylinder == HIGHEST_LEVEL) {
        directionChange := true;
      }
      if directionChange {
        totalDist := totalDist + Abs(prevDist + entry.cylinder);
        prevDist := entry.cylinder;
        directionChange := false;
      }
      ptr := ptr.next;
      n := n + if entry.cylinder == HIGHEST_LEVEL then 1 else 0;
      i := i + 1;
    }
    TravelNothing(prevDist);
    AtTopNothing();
    assert C[i..] == [];
  }

  lemma AtTopNothing()
    ensures AtTop([]) == 0
  {
  }

  lemma AtTopStep(C: seq<TaskNode>, i: int)
    requires 0 < i < |C|
    ensures AtTop(Items(C[i..])) == (if C[i].item.cylinder == HIGHEST_LEVEL then 1 else 0) + AtTop(Items(C[i + 1..]))
  {
    TravelStep(0, C, i);
  }

  // ---------- The ticks ----------

  /** fcfs_tick.  The copies' other fields are left as allocated. */
  method FcfsTick(start: int, rq: TaskNode, src: TaskNode, ghost S: seq<TaskNode>)
    returns (totalDist: int, ghost R: seq<TaskNode>)
    requires Circle(S) && src == S[0] && rq !in S
    modifies rq
    ensures Circle(R) && R[0] == rq && SameCylinders(Queue(R), Queue(S))
    ensures totalDist == Travel(start, Queue(S))
  {
    hide Circle, Link, Travel;
    InitHead(rq);
    KeepsCircle(S);
    R := [rq];
    StartCopying(S, R, src, rq);
    totalDist := 0;
    var prevDist := start;
    var ptr: Node?<Task> := src.next;
    ghost var i := 1;
    while ptr != src
      invariant Copying(S, R, src, rq, ptr, i) && SameCylinders(Queue(R), Items(S[1..i]))
      invariant forall k {:trigger R[k]} :: 0 < k < |R| ==> fresh(R[k])
      invariant totalDist + Travel(prevDist, Items(S[i..])) == Travel(start, Queue(S))
      decreases |S| - i
    {
      var entry := ptr.item;
      var dist: int := *;
      var up: bool := *;
      QueueParts(S, i);
      TravelStep(prevDist, S, i);
      totalDist := totalDist + Abs(prevDist - entry.cylinder);
      prevDist := entry.cylinder;
      ptr, R := CopyNext(Task(entry.cylinder, dist, up), rq, src, ptr, S, R, i);
      i := i + 1;
    }
    assert S[i..] == [];
    TravelNothing(prevDist);
  }

  /** sstf_tick.  The copies' up fields are left as allocated. */
  method SstfTick(start: int, rq: TaskNode, src: TaskNode, ghost S: seq<TaskNode>)
    returns (totalDist: int, ghost R: seq<TaskNode>)
    requires Circle(S) && src == S[0] && rq !in S && |S| > 1
    modifies rq
    ensures Circle(R) && R[0] == rq && SameCylinders(Queue(R), Served(Sstf, Queue(S)))
    ensures totalDist == Travel(start, Served(Sstf, Queue(S)))
  {
    hide Circle, Link, Travel, Served;
    InitHead(rq);
    KeepsCircle(S);
    R := [rq];
    StartCopying(S, R, src, rq);
    var ptr: Node?<Task> := src.next;
    ghost var i := 1;
    while ptr != src
      invariant Copying(S, R, src, rq, ptr, i) && SameKeys(Queue(R), Items(S[1..i]))
      invariant forall k {:trigger R[k]} :: 0 < k < |R| ==> fresh(R[k])
      decreases |S| - i
    {
      var entry := ptr.item;
      var up: bool := *;
      QueueParts(S, i);
      ptr, R := CopyNext(Task(entry.cylinder, entry.dist, up), rq, src, ptr, S, R, i);
      i := i + 1;
    }
    SameKeysServed(Queue(R), Queue(S));
    R := SortQueue(Sstf, rq, R);
    totalDist := Distance(start, rq, R);
    SameTravel(start, Queue(R), Served(Sstf, Queue(S)));
  }

  /** The requests, and the two ends of the disk around them, as SCAN and CSCAN queue them. */
  method QueueWithEnds(start: int, rq: TaskNode, src: TaskNode, ghost S: seq<TaskNode>) returns (ghost R: seq<TaskNode>)
    requires Circle(S) && src == S[0] && rq !in S
    modifies rq
    ensures Circle(R) && R[0] == rq && Queue(R) == WithEnds(start, Queue(S)) && |R| == |S| + 2
    ensures forall k {:trigger R[k]} :: 0 < k < |R| ==> fresh(R[k])
  {
    hide Circle, Link;
    InitHead(rq);
    R := Append(Task(LOWEST_LEVEL, start, false), rq, [rq]);
    KeepsCircle(S);
    forall n | n in R ensures n !in S { assert n == rq || n == R[1]; }
    R := CopyTasks(rq, src, S, R);
    R := Append(Task(HIGHEST_LEVEL, HIGHEST_LEVEL - start, true), rq, R);
  }

  /** The requests alone, as LOOK and CLOOK queue them. */
  method QueueAlone(rq: TaskNode, src: TaskNode, ghost S: seq<TaskNode>) returns (ghost R: seq<TaskNode>)
    requires Circle(S) && src == S[0] && rq !in S
    modifies rq
    ensures Circle(R) && R[0] == rq && Queue(R) == Queue(S) && |R| == |S|
    ensures forall k {:trigger R[k]} :: 0 < k < |R| ==> fresh(R[k])
  {
    hide Circle, Link;
    InitHead(rq);
    KeepsCircle(S);
    R := CopyTasks(rq, src, S, [rq]);
  }

  /** scan_tick, with the direction Up_or_Down drew. */
  method ScanTick(start: int, elevatorUp: bool, rq: TaskNode, src: TaskNode, ghost S: seq<TaskNode>)
    returns (totalDist: int, ghost R: seq<TaskNode>)
    requires Circle(S) && src == S[0] && rq !in S
    modifies rq
    ensures Circle(R) && R[0] == rq && Queue(R) == Served(Scan(elevatorUp), WithEnds(start, Queue(S)))
    ensures totalDist == Travel(start, Queue(R))
  {
    hide Circle, Link, Travel, Served;
    R := QueueWithEnds(start, rq, src, S);
    R := SortQueue(Scan(elevatorUp), rq, R);
    totalDist := Distance(start, rq, R);
  }

  /** look_tick */
  method LookTick(start: int, elevatorUp: bool, rq: TaskNode, src: TaskNode, ghost S: seq<TaskNode>)
    returns (totalDist: int, ghost R: seq<TaskNode>)
    requires Circle(S) && src == S[0] && rq !in S && |S| > 1
    modifies rq
    ensures Circle(R) && R[0] == rq && Queue(R) == Served(Scan(elevatorUp), Queue(S))
    ensures totalDist == Travel(start, Queue(R))
  {
    hide Circle, Link, Travel, Served;
    R := QueueAlone(rq, src, S);
    R := SortQueue(Scan(elevatorUp), rq, R);
    totalDist := Distance(start, rq, R);
  }

  /** cscan_tick: it reports 400 more than the arm travels for each entry at the highest cylinder,
      of which there is always one. */
  method CscanTick(start: int, elevatorUp: bool, rq: TaskNode, src: TaskNode, ghost S: seq<TaskNode>)
    returns (totalDist: int, ghost R: seq<TaskNode>)
    requires Circle(S) && src == S[0] && rq !in S
    modifies rq
    ensures Circle(R) && R[0] == rq && Queue(R) == Served(Cscan(elevatorUp), WithEnds(start, Queue(S)))
    ensures totalDist == Travel(start, Queue(R)) + 2 * HIGHEST_LEVEL * AtTop(Queue(R))
    ensures totalDist >= Travel(start, Queue(R)) + 2 * HIGHEST_LEVEL
  {
    hide Circle, Link, Travel, Served, AtTop;
    R := QueueWithEnds(start, rq, src, S);
    R := SortQueue(Cscan(elevatorUp), rq, R);
    totalDist := CircularDistance(start, true, rq, R);
    ServedElements(Cscan(elevatorUp), WithEnds(start, Queue(S)));
    WithEndsElements(start, Queue(S));
    AtTopCounts(Queue(R));
    assert Task(HIGHEST_LEVEL, HIGHEST_LEVEL - start, true) in WithEnds(start, Queue(S));
  }

  /** clook_tick: here the distance reported is the distance travelled. */
  method ClookTick(start: int, elevatorUp: bool, rq: TaskNode, src: TaskNode, ghost S: seq<TaskNode>)
    returns (totalDist: int, ghost R: seq<TaskNode>)
    requires Circle(S) && src == S[0] && rq !in S && |S| > 1
    modifies rq
    ensures Circle(R) && R[0] == rq && Queue(R) == Served(Cscan(elevatorUp), Queue(S))
    ensures totalDist == Travel(start, Queue(R))
  {
    hide Circle, Link, Travel, Served;
    R := QueueAlone(rq, src, S);
    R := SortQueue(Cscan(elevatorUp), rq, R);
    totalDist := CircularDistance(start, false, rq, R);
  }

  // ---------- A whole run ----------

  /** The tasks of a file that asks for these cylinders. */
  function Requests(start: int, cylinders: seq<int>): (r: seq<Task>)
    ensures |r| == |cylinders|
  {
    seq(|cylinders|, i requires 0 <= i < |cylinders| => MakeTask(start, cylinders[i]))
  }

  /** read_config, once the lines have been read as numbers. */
  method ReadConfig(start: int, cylinders: seq<int>, src: TaskNode) returns (ghost S: seq<TaskNode>)
    modifies src
    ensures Circle(S) && S[0] == src && |S| == |cylinders| + 1 && Queue(S) == Requests(start, cylinders)
    ensures forall i {:trigger cylinders[i]} :: 0 <= i < |cylinders| ==>
      var t, c := Queue(S)[i], cylinders[i];
      && t.cylinder == c && (t.up <==> c > start) && t.dist == (if c > start then c - start else start - c)
    ensures forall k {:trigger S[k]} :: 0 < k < |S| ==> fresh(S[k])
  {
    hide Circle, Link;
    InitHead(src);
    S := [src];
    for i := 0 to |cylinders|
      invariant S != [] && Circle(S) && S[0] == src && Queue(S) == Requests(start, cylinders[..i])
      invariant forall k {:trigger S[k]} :: 0 < k < |S| ==> fresh(S[k])
    {
      var cylinder := cylinders[i];
      var dist := cylinder - start;
      var up := dist > 0;
      S := Append(Task(cylinder, Abs(dist), up), src, S);
    }
    assert cylinders[..|cylinders|] == cylinders;
  }

  lemma RequestsPlaced(start: int, cylinders: seq<int>)
    ensures AllPlaced(start, Requests(start, cylinders))
  {
    forall t {:trigger t in Requests(start, cylinders)} | t in Requests(start, cylinders) ensures Placed(start, t) {
      var i :| 0 <= i < |cylinders| && Requests(start, cylinders)[i] == t;
      MakeTaskPlaces(start, cylinders[i]);
    }
  }

  lemma TopRequests(start: int, cylinders: seq<int>)
    ensures AtTop(Requests(start, cylinders)) == |set i | 0 <= i < |cylinders| && cylinders[i] == HIGHEST_LEVEL|
  {
    var s := Requests(start, cylinders);
    AtTopIs(s);
    assert TopPositions(s) == set i | 0 <= i < |cylinders| && cylinders[i] == HIGHEST_LEVEL;
  }

  /** All cylinders are on the disk. */
  predicate AllOnDisk(start: int, cylinders: seq<int>) {
    LOWEST_LEVEL <= start <= HIGHEST_LEVEL && forall i :: 0 <= i < |cylinders| ==>
      LOWEST_LEVEL <= cylinders[i] <= HIGHEST_LEVEL
  }

  lemma RequestsOnDisk(start: int, cylinders: seq<int>)
    requires AllOnDisk(start, cylinders)
    ensures OnDisk(start, Requests(start, cylinders))
  {
    forall t {:trigger t in Requests(start, cylinders)} | t in Requests(start, cylinders)
      ensures LOWEST_LEVEL <= t.cylinder <= HIGHEST_LEVEL
    {
      var i :| 0 <= i < |cylinders| && Requests(start, cylinders)[i] == t;
    }
  }

  datatype Report = Report(fcfs: int, sstf: int, scan: int, cscan: int, look: int, clook: int)

  /** The distances main reports for a file of one or more requests.  Every one of them is at least
      what LOOK in its better direction travels; SCAN's does not depend on the requests, and is at
      least LOOK's when both draw the same direction. */
  method Simulate(start: int, cylinders: seq<int>, scanUp: bool, cscanUp: bool, lookUp: bool, clookUp: bool)
    returns (r: Report)
    requires cylinders != []
    ensures var s := Requests(start, cylinders);
      && r.fcfs == Travel(start, s)
      && r.sstf == Travel(start, Served(Sstf, s))
      && r.scan == Travel(start, Served(Scan(scanUp), WithEnds(start, s)))
      && r.look == Travel(start, Served(Scan(lookUp), s))
      && r.clook == Travel(start, Served(Cscan(clookUp), s))
      && r.cscan == Travel(start, Served(Cscan(cscanUp), WithEnds(start, s)))
                    + 2 * HIGHEST_LEVEL * (1 + |set i | 0 <= i < |cylinders| && cylinders[i] == HIGHEST_LEVEL|)
    ensures var best := BestLook(start, Requests(start, cylinders));
      && best <= r.fcfs && best <= r.sstf && best <= r.scan && best <= r.look && best <= r.clook
      && best + 2 * HIGHEST_LEVEL <= r.cscan
    ensures AllOnDisk(start, cylinders) ==>
      r.scan == (if scanUp then 2 * HIGHEST_LEVEL - start else start + HIGHEST_LEVEL)
    ensures AllOnDisk(start, cylinders) && scanUp == lookUp ==> r.look <= r.scan
  {
    hide Circle, Link, Travel, Served, BestLook, OnDisk, AllPlaced, WithEnds, Requests, AllOnDisk, AtTop;
    var src := new Node(Task(0, 0, false));
    var rq := new Node(Task(0, 0, false));
    ghost var S := ReadConfig(start, cylinders, src);
    ghost var s := Queue(S);
    RequestsPlaced(start, cylinders);
    ghost var R;
    var fcfs, sstf, scan, cscan, look, clook;
    label FCFS:
    fcfs, R := FcfsTick(start, rq, src, S);
    KeepsCircle@FCFS(S);
    label SSTF:
    sstf, R := SstfTick(start, rq, src, S);
    KeepsCircle@SSTF(S);
    label SCAN:
    scan, R := ScanTick(start, scanUp, rq, src, S);
    KeepsCircle@SCAN(S);
    label CSCAN:
    cscan, R := CscanTick(start, cscanUp, rq, src, S);
    KeepsCircle@CSCAN(S);
    label LOOK:
    look, R := LookTick(start, lookUp, rq, src, S);
    KeepsCircle@LOOK(S);
    clook, R := ClookTick(start, clookUp, rq, src, S);
    EndsAtTop(Cscan(cscanUp), start, s);
    TopRequests(start, cylinders);
    LookBoundsAll(Sstf, start, s);
    LookBoundsAll(Scan(scanUp), start, s);
    LookBoundsAll(Scan(lookUp), start, s);
    LookBoundsAll(Cscan(cscanUp), start, s);
    LookBoundsAll(Cscan(clookUp), start, s);
    if AllOnDisk(start, cylinders) {
      RequestsOnDisk(start, cylinders);
      ScanTravels(scanUp, start, s);
    }
    r := Report(fcfs, sstf, scan, cscan, look, clook);
  }
}
