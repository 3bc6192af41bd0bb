/** The order in which each disk-arm scheduler serves its requests, and the distance it travels. */
module DiskOrders {
  import opened Sequences
  import opened StableSort

  /** task_struct: a request with its distance from the start, and whether it lies above it. */
  datatype Task = Task(cylinder: int, dist: int, up: bool)

  const LOWEST_LEVEL := 0
  const HIGHEST_LEVEL := 200

  function Abs(x: int): int { if x < 0 then -x else x }

  /** What read_config stores for a cylinder. */
  function MakeTask(start: int, cylinder: int): Task {
    Task(cylinder, Abs(cylinder - start), cylinder - start > 0)
  }

  // ---------- Comparators ----------

  function Bit(b: bool): int { if b then 1 else 0 }

  /** sstf_compare */
  function SstfCompare(a: Task, b: Task): int { Bit(a.dist > b.dist) }

  /** scan_compare */
  function ScanCompare(elevatorUp: bool, a: Task, b: Task): int {
    if a.up && b.up then Bit(a.dist > b.dist)
    else if !a.up && !b.up then Bit(a.dist > b.dist)
    else if !a.up && b.up then Bit(elevatorUp)
    else Bit(!elevatorUp)
  }

  /** cscan_compare */
  function CscanCompare(elevatorUp: bool, a: Task, b: Task): int {
    if !elevatorUp then
      if a.up && b.up then Bit(a.dist < b.dist)
      else if !a.up && !b.up then Bit(a.dist > b.dist)
      else if !a.up && b.up then Bit(elevatorUp)
      else Bit(!elevatorUp)
    else
      if a.up && b.up then Bit(a.dist > b.dist)
      else if !a.up && !b.up then Bit(a.dist < b.dist)
      else if !a.up && b.up then 1
      else 0
  }

  /** The schedulers that sort. */
  datatype Policy = Sstf | Scan(elevatorUp: bool) | Cscan(elevatorUp: bool)

  function Compared(p: Policy, a: Task, b: Task): int {
    match p
    case Sstf => SstfCompare(a, b)
    case Scan(e) => ScanCompare(e, a, b)
    case Cscan(e) => CscanCompare(e, a, b)
  }

  function Comparator(p: Policy): (Task, Task) -> int {
    (a: Task, b: Task) => Compared(p, a, b)
  }

  /** a may go before b: cmp(a, b) <= 0. */
  ghost function Before(p: Policy): Order<Task> {
    (a: Task, b: Task) => Compared(p, a, b) <= 0
  }

  /** All three comparators are total preorders, whatever the tasks. */
  lemma ComparatorsOrder(p: Policy, D: set<Task>)
    ensures PreorderOn(Before(p), D)
  {
    var le := Before(p);
    forall x, y {:trigger le(x, y)} | x in D && y in D ensures le(x, y) || le(y, x) {
      assert le(x, y) == (Compared(p, x, y) <= 0) && le(y, x) == (Compared(p, y, x) <= 0);
    }
    forall x, y, z {:trigger le(x, y), le(y, z)} | x in D && y in D && z in D && le(x, y) && le(y, z) ensures le(x, z) {
      assert le(x, z) == (Compared(p, x, z) <= 0);
    }
  }

  // ---------- Sorting two classes ----------

  ghost function Pick(up: bool, s: seq<Task>): seq<Task> {
    if s == [] then [] else (if s[0].up == up then [s[0]] else []) + Pick(up, s[1..])
  }

  /** Tasks on side first all go before those on the other side. */
  ghost predicate SideFirst(le: Order<Task>, first: bool) {
    forall a: Task, b: Task {:trigger le(a, b)} :: a.up == first && b.up != first ==> le(a, b) && !le(b, a)
  }

  lemma {:induction false} InsertFront(le: Order<Task>, x: Task, s: seq<Task>, t: seq<Task>, first: bool)
    requires SideFirst(le, first) && x.up == first && OneSide(t, !first)
    ensures Insert(le, x, s + t) == Insert(le, x, s) + t
  {
    if s == [] {
      assert s + t == t;
      if t != [] { assert le(x, t[0]); }
    } else {
      assert (s + t)[1..] == s[1..] + t;
      InsertFront(le, x, s[1..], t, first);
    }
  }

  lemma {:induction false} InsertBack(le: Order<Task>, x: Task, s: seq<Task>, t: seq<Task>, first: bool)
    requires SideFirst(le, first) && x.up != first && OneSide(s, first)
    ensures Insert(le, x, s + t) == s + Insert(le, x, t)
  {
    if s == [] {
      assert s + t == t;
    } else {
      assert (s + t)[1..] == s[1..] + t && le(s[0], x) && !le(x, s[0]);
      InsertBack(le, x, s[1..], t, first);
    }
  }

  ghost predicate OneSide(s: seq<Task>, up: bool) {
    forall i {:trigger s[i]} :: 0 <= i < |s| ==> s[i].up == up
  }

  lemma {:induction false} InsertSide(le: Order<Task>, x: Task, s: seq<Task>, up: bool)
    requires x.up == up && OneSide(s, up)
    ensures OneSide(Insert(le, x, s), up)
  {
    if s != [] { InsertSide(le, x, s[1..], up); }
  }

  lemma {:induction false} SortSide(le: Order<Task>, s: seq<Task>, up: bool)
    ensures OneSide(Sort(le, Pick(up, s)), up)
  {
    if s != [] {
      SortSide(le, s[1..], up);
      if s[0].up == up {
        assert Pick(up, s)[1..] == Pick(up, s[1..]);
        InsertSide(le, s[0], Sort(le, Pick(up, s[1..])), up);
      } else {
        assert Pick(up, s) == Pick(up, s[1..]);
      }
    }
  }

  /** The service order is one side's requests, sorted, followed by the other side's. */
  lemma {:induction false} TwoSides(le: Order<Task>, s: seq<Task>, first: bool)
    requires SideFirst(le, first)
    ensures Sort(le, s) == Sort(le, Pick(first, s)) + Sort(le, Pick(!first, s))
  {
    if s != [] {
      var a, b := Sort(le, Pick(first, s[1..])), Sort(le, Pick(!first, s[1..]));
      TwoSides(le, s[1..], first);
      SortSide(le, s[1..], first);
      SortSide(le, s[1..], !first);
      if s[0].up == first {
        assert Pick(first, s)[1..] == Pick(first, s[1..]) && Pick(!first, s) == Pick(!first, s[1..]);
        InsertFront(le, s[0], a, b, first);
      } else {
        assert Pick(!first, s)[1..] == Pick(!first, s[1..]) && Pick(first, s) == Pick(first, s[1..]);
        InsertBack(le, s[0], a, b, first);
      }
    }
  }

  // ---------- Sweeps ----------

  lemma {:induction false} PickedElements(up: bool, s: seq<Task>)
    ensures forall t {:trigger t in s} {:trigger t in Pick(up, s)} :: t in Pick(up, s) <==> t in s && t.up == up
  {
    if s != [] {
      PickedElements(up, s[1..]);
      assert forall t {:trigger t in s} {:trigger t in s[1..]} :: t in s <==> t == s[0] || t in s[1..];
    }
  }

  /** The cylinders never go back: upwards, or downwards. */
  ghost predicate Sweep(s: seq<Task>, up: bool) {
    forall i, j {:trigger s[i], s[j]} :: 0 <= i < j < |s| ==>
      if up then s[i].cylinder <= s[j].cylinder else s[j].cylinder <= s[i].cylinder
  }

  /** dist and up say where the cylinder lies from start. */
  predicate Placed(start: int, t: Task) {
    0 <= t.dist && t.cylinder == if t.up then start + t.dist else start - t.dist
  }

  ghost predicate AllPlaced(start: int, s: seq<Task>) {
    forall t {:trigger t in s} :: t in s ==> Placed(start, t)
  }

  lemma MakeTaskPlaces(start: int, cylinder: int)
    ensures var t := MakeTask(start, cylinder);
      && t.cylinder == cylinder && (t.up <==> cylinder > start)
      && t.dist == (if cylinder > start then cylinder - start else start - cylinder)
      && Placed(start, t)
  {
  }

  /** The order in which policy p serves the requests s. */
  ghost function Served(p: Policy, s: seq<Task>): seq<Task> { Sort(Before(p), s) }

  ghost function Side(p: Policy, s: seq<Task>, up: bool): seq<Task> { Sort(Before(p), Pick(up, s)) }

  lemma SideElements(p: Policy, s: seq<Task>, up: bool)
    ensures forall t {:trigger t in s} {:trigger t in Side(p, s, up)} :: t in Side(p, s, up) <==> t in s && t.up == up
    ensures OneSide(Side(p, s, up), up)
    ensures Sorted(Before(p), Side(p, s, up))
  {
    PickedElements(up, s);
    SortElements(Before(p), Pick(up, s));
    forall t ensures t in Side(p, s, up) <==> t in Pick(up, s) {
      assert t in Side(p, s, up) <==> t in multiset(Side(p, s, up));
    }
    SortSide(Before(p), s, up);
    var D := set t | t in s;
    ComparatorsOrder(p, D);
    SortSorted(Before(p), Pick(up, s), D);
  }

  lemma ServedElements(p: Policy, s: seq<Task>)
    ensures multiset(Served(p, s)) == multiset(s)
    ensures forall t {:trigger t in s} {:trigger t in Served(p, s)} :: t in Served(p, s) <==> t in s
  {
    SortElements(Before(p), s);
    forall t ensures t in Served(p, s) <==> t in s {
      assert t in Served(p, s) <==> t in multiset(Served(p, s));
    }
  }

  /** The direction in which policy p sweeps a side: SCAN moves away from the start on both sides;
      CSCAN keeps the direction in which it set out. */
  function Direction(p: Policy, up: bool): bool
    requires p != Sstf
  {
    match p
    case Scan(_) => up
    case Cscan(e) => e
  }

  lemma SideSweeps(p: Policy, start: int, s: seq<Task>, up: bool)
    requires p != Sstf && AllPlaced(start, s)
    ensures Sweep(Side(p, s, up), Direction(p, up))
  {
    var q := Side(p, s, up);
    SideElements(p, s, up);
    forall i, j {:trigger q[i], q[j]} | 0 <= i < j < |q|
      ensures if Direction(p, up) then q[i].cylinder <= q[j].cylinder else q[j].cylinder <= q[i].cylinder
    {
      var a, b := q[i], q[j];
      assert Before(p)(a, b) && a in q && b in q && a.up == b.up == up;
      assert Placed(start, a) && Placed(start, b);
    }
  }

  /** SCAN, LOOK: two opposite monotone sweeps.  CSCAN, CLOOK: two monotone sweeps in the same
      direction.  The first is over the side the arm moves to first. */
  lemma TwoSweeps(p: Policy, start: int, s: seq<Task>)
    requires p != Sstf && AllPlaced(start, s)
    ensures var a, b := Side(p, s, p.elevatorUp), Side(p, s, !p.elevatorUp);
      && Served(p, s) == a + b && OneSide(a, p.elevatorUp) && OneSide(b, !p.elevatorUp)
      && Sweep(a, p.elevatorUp) && Sweep(b, p.Scan? != p.elevatorUp)
  {
    var e := p.elevatorUp;
    assert SideFirst(Before(p), e);
    TwoSides(Before(p), s, e);
    SideElements(p, s, e);
    SideElements(p, s, !e);
    SideSweeps(p, start, s, e);
    SideSweeps(p, start, s, !e);
  }

  /** The tasks that read_config makes. */
  ghost predicate AllMade(start: int, s: seq<Task>) {
    forall t {:trigger t in s} :: t in s ==> t == MakeTask(start, t.cylinder)
  }

  lemma ServedInOrder(p: Policy, s: seq<Task>)
    ensures var T := Served(p, s); forall i, j {:trigger T[i], T[j]} :: 0 <= i < j < |T| ==>
      Compared(p, T[i], T[j]) <= 0 && (Compared(p, T[j], T[i]) <= 0 ==> Precedes(s, T[i], T[j]))
  {
    hide Sort, Precedes, Compared;
    var T, D := Served(p, s), set t | t in s;
    ComparatorsOrder(p, D);
    SortOrders(Before(p), s, D);
    forall i, j {:trigger T[i], T[j]} | 0 <= i < j < |T|
      ensures Compared(p, T[i], T[j]) <= 0 && (Compared(p, T[j], T[i]) <= 0 ==> Precedes(s, T[i], T[j]))
    {
      assert Before(p)(T[i], T[j]);
    }
  }

  /** A request at the start counts as one below it: going up it comes after every request above, and
      in CSCAN last of all; going down it comes first. */
  lemma StartServed(p: Policy, start: int, s: seq<Task>, i: nat, j: nat)
    requires p != Sstf && AllMade(start, s) && i < j < |Served(p, s)|
    ensures var a, b := Served(p, s)[i].cylinder, Served(p, s)[j].cylinder;
      && (p.elevatorUp && a == start ==> b <= start)
      && (p.elevatorUp && p.Cscan? && a == start ==> b == start)
      && (p.elevatorUp && p.Scan? && b == start ==> a >= start)
      && (!p.elevatorUp && b == start ==> a == start)
  {
    hide Sort, Precedes;
    ServedInOrder(p, s);
    ServedElements(p, s);
    var T := Served(p, s);
    assert T[i] in T && T[j] in T;
    assert Compared(p, T[i], T[j]) <= 0;
  }

  /** Requests that a policy does not tell apart are served as they came: for SSTF those at the same
      distance, for the others those at the same distance on the same side. */
  lemma ServedAsTheyCame(p: Policy, s: seq<Task>, i: nat, j: nat)
    requires i < j < |Served(p, s)|
    requires Served(p, s)[i].dist == Served(p, s)[j].dist
    requires p != Sstf ==> Served(p, s)[i].up == Served(p, s)[j].up
    ensures Precedes(s, Served(p, s)[i], Served(p, s)[j])
  {
    hide Sort, Precedes;
    ServedInOrder(p, s);
    var T := Served(p, s);
    assert Compared(p, T[j], T[i]) <= 0;
  }

  // ---------- Distance ----------

  /** The distance the arm travels from pos when it serves s. */
  function Travel(pos: int, s: seq<Task>): int
    decreases |s|
  {
    if s == [] then 0 else Abs(pos - s[0].cylinder) + Travel(s[0].cylinder, s[1..])
  }

  function EndOf(pos: int, s: seq<Task>): int {
    if s == [] then pos else s[|s| - 1].cylinder
  }

  lemma {:induction false} TravelJoins(pos: int, s: seq<Task>, t: seq<Task>)
    ensures Travel(pos, s + t) == Travel(pos, s) + Travel(EndOf(pos, s), t)
    decreases |s|
  {
    if s == [] {
      assert s + t == t;
    } else {
      assert (s + t)[1..] == s[1..] + t;
      TravelJoins(s[0].cylinder, s[1..], t);
    }
  }

  /** A sweep travels no further than its end. */
  lemma {:induction false} SweepTravels(pos: int, s: seq<Task>, up: bool)
    requires Sweep(s, up) && (s != [] ==> if up then pos <= s[0].cylinder else s[0].cylinder <= pos)
    ensures Travel(pos, s) == Abs(pos - EndOf(pos, s))
    ensures s != [] ==> if up then pos <= EndOf(pos, s) else EndOf(pos, s) <= pos
    decreases |s|
  {
    if s != [] { SweepTravels(s[0].cylinder, s[1..], up); }
  }

  /** How far from the start the requests on one side reach. */
  function Reach(up: bool, s: seq<Task>): int {
    if s == [] then 0
    else if s[0].up == up && s[0].dist > Reach(up, s[1..]) then s[0].dist
    else Reach(up, s[1..])
  }

  lemma {:induction false} ReachIsFarthest(up: bool, s: seq<Task>)
    ensures 0 <= Reach(up, s)
    ensures forall t {:trigger t in s} :: t in s && t.up == up ==> t.dist <= Reach(up, s)
    ensures Reach(up, s) == 0 || exists t {:trigger t in s} :: t in s && t.up == up && t.dist == Reach(up, s)
  {
    if s != [] {
      var r := s[1..];
      ReachIsFarthest(up, r);
      assert forall t {:trigger t in s} {:trigger t in s[1..]} :: t in s <==> t == s[0] || t in r;
      if Reach(up, s) != 0 {
        if Reach(up, s) == s[0].dist && s[0].up == up {
          assert s[0] in s;
        } else {
          var t :| t in r && t.up == up && t.dist == Reach(up, r);
          assert t in s;
        }
      }
    }
  }

  ghost predicate HasSide(s: seq<Task>, up: bool) {
    exists t {:trigger t in s} :: t in s && t.up == up
  }

  lemma SideServed(p: Policy, s: seq<Task>, up: bool)
    ensures Side(p, s, up) != [] <==> HasSide(s, up)
  {
    var q := Side(p, s, up);
    SideElements(p, s, up);
    if q != [] { assert q[0] in q; }
    if HasSide(s, up) {
      var t :| t in s && t.up == up;
      assert t in q;
    }
  }

  /** The last task on a side that SCAN or LOOK has served is its farthest. */
  lemma LastIsFarthest(e: bool, start: int, s: seq<Task>, up: bool)
    requires AllPlaced(start, s) && Side(Scan(e), s, up) != []
    ensures var q := Side(Scan(e), s, up); q[|q| - 1].dist == Reach(up, s)
  {
    hide Sort, Placed;
    var q := Side(Scan(e), s, up);
    SideElements(Scan(e), s, up);
    ReachIsFarthest(up, s);
    var l := q[|q| - 1];
    assert l in q && Placed(start, l);
    PlacedIsNear(start, l);
    if Reach(up, s) != 0 {
      var t :| t in s && t.up == up && t.dist == Reach(up, s);
      assert t in q;
      var i :| 0 <= i < |q| && q[i] == t;
      assert i == |q| - 1 || Before(Scan(e))(q[i], l);
    }
  }

  lemma PlacedIsNear(start: int, t: Task)
    requires Placed(start, t)
    ensures 0 <= t.dist && t.cylinder == (if t.up then start + t.dist else start - t.dist)
  {
  }

  /** A side that SCAN or LOOK has served leaves the arm at its farthest request. */
  lemma SideEnds(e: bool, start: int, s: seq<Task>, up: bool)
    requires AllPlaced(start, s)
    ensures var q := Side(Scan(e), s, up);
      && (q == [] ==> Reach(up, s) == 0)
      && EndOf(start, q) == (if up then start + Reach(up, s) else start - Reach(up, s))
      && (q != [] ==> Placed(start, q[0]) && q[0].up == up)
  {
    hide Sort;
    var q := Side(Scan(e), s, up);
    SideElements(Scan(e), s, up);
    SideServed(Scan(e), s, up);
    if q != [] {
      var l := q[|q| - 1];
      assert l in q && q[0] in q && Placed(start, l);
      LastIsFarthest(e, start, s, up);
    } else {
      ReachIsFarthest(up, s);
    }
  }

  /** LOOK's distance: out to the far end of the first side, and when there is anything on the other
      side, back past the start to its far end. */
  lemma LookTravels(e: bool, start: int, s: seq<Task>)
    requires AllPlaced(start, s)
    ensures Travel(start, Served(Scan(e), s)) ==
      Reach(e, s) + (if HasSide(s, !e) then Reach(e, s) + Reach(!e, s) else 0)
  {
    var a, b := Side(Scan(e), s, e), Side(Scan(e), s, !e);
    TwoSweeps(Scan(e), start, s);
    SideEnds(e, start, s, e);
    SideEnds(e, start, s, !e);
    SideServed(Scan(e), s, !e);
    ReachIsFarthest(e, s);
    ReachIsFarthest(!e, s);
    SweepTravels(start, a, e);
    SweepTravels(EndOf(start, a), b, !e);
    TravelJoins(start, a, b);
  }

  /** The requests SCAN and CSCAN sort: both ends of the disk are added. */
  function WithEnds(start: int, s: seq<Task>): seq<Task> {
    [Task(LOWEST_LEVEL, start, false)] + s + [Task(HIGHEST_LEVEL, HIGHEST_LEVEL - start, true)]
  }

  ghost predicate OnDisk(start: int, s: seq<Task>) {
    && LOWEST_LEVEL <= start <= HIGHEST_LEVEL
    && forall t {:trigger t in s} :: t in s ==> LOWEST_LEVEL <= t.cylinder <= HIGHEST_LEVEL
  }

  lemma WithEndsElements(start: int, s: seq<Task>)
    ensures forall t {:trigger t in s} {:trigger t in WithEnds(start, s)} ::
      t in WithEnds(start, s) <==>
        t in s || t == Task(LOWEST_LEVEL, start, false) || t == Task(HIGHEST_LEVEL, HIGHEST_LEVEL - start, true)
  {
    var l, h := Task(LOWEST_LEVEL, start, false), Task(HIGHEST_LEVEL, HIGHEST_LEVEL - start, true);
    var w := WithEnds(start, s);
    assert w[0] == l && w[|w| - 1] == h;
    forall t | t in s ensures t in w {
      var i :| 0 <= i < |s| && s[i] == t;
      assert w[i + 1] == t;
    }
  }

  lemma EndsReach(start: int, s: seq<Task>)
    requires OnDisk(start, s) && AllPlaced(start, s)
    ensures AllPlaced(start, WithEnds(start, s)) && OnDisk(start, WithEnds(start, s))
    ensures Reach(false, WithEnds(start, s)) == start && Reach(true, WithEnds(start, s)) == HIGHEST_LEVEL - start
    ensures HasSide(WithEnds(start, s), true) && HasSide(WithEnds(start, s), false)
    ensures Reach(false, s) <= start && Reach(true, s) <= HIGHEST_LEVEL - start
  {
    var w := WithEnds(start, s);
    WithEndsElements(start, s);
    assert Task(LOWEST_LEVEL, start, false) in w && Task(HIGHEST_LEVEL, HIGHEST_LEVEL - start, true) in w;
    forall up: bool, r | r == s || r == w
      ensures AllPlaced(start, r) && OnDisk(start, r) && Reach(up, r) <= if up then HIGHEST_LEVEL - start else start
    {
      assert AllPlaced(start, r) && OnDisk(start, r);
      ReachIsFarthest(up, r);
      if Reach(up, r) != 0 {
        var t :| t in r && t.up == up && t.dist == Reach(up, r);
        assert Placed(start, t);
      }
    }
    ReachIsFarthest(true, w);
    ReachIsFarthest(false, w);
  }

  /** SCAN's distance depends on the start and the direction alone, whatever the requests; LOOK in
      the same direction never exceeds it. */
  lemma ScanTravels(e: bool, start: int, s: seq<Task>)
    requires OnDisk(start, s) && AllPlaced(start, s)
    ensures Travel(start, Served(Scan(e), WithEnds(start, s))) ==
      if e then 2 * HIGHEST_LEVEL - start else start + HIGHEST_LEVEL
    ensures Travel(start, Served(Scan(e), s)) <= Travel(start, Served(Scan(e), WithEnds(start, s)))
  {
    EndsReach(start, s);
    LookTravels(e, start, WithEnds(start, s));
    LookTravels(e, start, s);
    ReachIsFarthest(true, s);
    ReachIsFarthest(false, s);
  }

  // ---------- LOOK is optimal ----------

  /** A path through a is no shorter than the way to a. */
  lemma {:induction false} TravelReaches(pos: int, s: seq<Task>, a: Task)
    requires a in s
    ensures Travel(pos, s) >= Abs(pos - a.cylinder)
    decreases |s|
  {
    if a == s[0] {
      TravelPositive(s[0].cylinder, s[1..]);
    } else {
      TravelReaches(s[0].cylinder, s[1..], a);
    }
  }

  lemma {:induction false} TravelPositive(pos: int, s: seq<Task>)
    ensures Travel(pos, s) >= 0
    decreases |s|
  {
    if s != [] { TravelPositive(s[0].cylinder, s[1..]); }
  }

  /** A path through a and b goes to the nearer one and from there to the other. */
  lemma {:induction false} TravelVisitsBoth(pos: int, s: seq<Task>, a: Task, b: Task)
    requires a in s && b in s
    ensures Travel(pos, s) >= Min(Abs(pos - a.cylinder), Abs(pos - b.cylinder)) + Abs(a.cylinder - b.cylinder)
    decreases |s|
  {
    if a == b {
      TravelReaches(pos, s, a);
    } else if a == s[0] {
      TravelReaches(a.cylinder, s[1..], b);
    } else if b == s[0] {
      TravelReaches(b.cylinder, s[1..], a);
    } else {
      TravelVisitsBoth(s[0].cylinder, s[1..], a, b);
    }
  }

  /** LOOK, in the better of its two directions. */
  ghost function BestLook(start: int, s: seq<Task>): int {
    Min(Travel(start, Served(Scan(true), s)), Travel(start, Served(Scan(false), s)))
  }

  lemma BestLookTravels(start: int, s: seq<Task>)
    requires AllPlaced(start, s)
    ensures BestLook(start, s) <= Reach(true, s) + Reach(false, s) + Min(Reach(true, s), Reach(false, s))
  {
    LookTravels(true, start, s);
    LookTravels(false, start, s);
    ReachIsFarthest(true, s);
    ReachIsFarthest(false, s);
  }

  /** No path that serves every request is shorter than LOOK in the better of its directions. */
  lemma LookIsOptimal(start: int, s: seq<Task>, path: seq<Task>)
    requires AllPlaced(start, s) && forall t {:trigger t in s} :: t in s ==> t in path
    ensures BestLook(start, s) <= Travel(start, path)
  {
    BestLookTravels(start, s);
    ReachIsFarthest(true, s);
    ReachIsFarthest(false, s);
    var u, d := Reach(true, s), Reach(false, s);
    if u == 0 && d == 0 {
      TravelPositive(start, path);
    } else if u == 0 {
      var b :| b in s && !b.up && b.dist == d;
      TravelReaches(start, path, b);
      assert Placed(start, b);
    } else if d == 0 {
      var a :| a in s && a.up && a.dist == u;
      TravelReaches(start, path, a);
      assert Placed(start, a);
    } else {
      var a :| a in s && a.up && a.dist == u;
      var b :| b in s && !b.up && b.dist == d;
      TravelVisitsBoth(start, path, a, b);
      assert Placed(start, a) && Placed(start, b);
    }
  }

  /** So it bounds every scheduler here from below, FCFS (which serves s itself) included. */
  lemma LookBoundsAll(p: Policy, start: int, s: seq<Task>)
    requires AllPlaced(start, s)
    ensures BestLook(start, s) <= Travel(start, s)
    ensures BestLook(start, s) <= Travel(start, Served(p, s))
    ensures BestLook(start, s) <= Travel(start, Served(p, WithEnds(start, s)))
  {
    ServedElements(p, s);
    ServedElements(p, WithEnds(start, s));
    WithEndsElements(start, s);
    LookIsOptimal(start, s, s);
    LookIsOptimal(start, s, Served(p, s));
    LookIsOptimal(start, s, Served(p, WithEnds(start, s)));
  }

  // ---------- When SSTF serves the nearest request ----------

  /** Where the arm stands before it serves task i of T. */
  function PositionBefore(start: int, T: seq<Task>, i: nat): int
    requires i < |T|
  {
    if i == 0 then start else T[i - 1].cylinder
  }

  /** Every task is a nearest one, of those not yet served, to where the arm then stands. */
  ghost predicate NearestFirst(start: int, T: seq<Task>) {
    forall i, j {:trigger NoFurther(start, T, i, j)} :: 0 <= i <= j < |T| ==> NoFurther(start, T, i, j)
  }

  predicate NoFurther(start: int, T: seq<Task>, i: nat, j: nat)
    requires i <= j < |T|
  {
    Abs(PositionBefore(start, T, i) - T[i].cylinder) <= Abs(PositionBefore(start, T, i) - T[j].cylinder)
  }

  /** From a on one side the arm crosses the start to b, and c is still waiting on a's side: crossing
      first is no further. */
  predicate CrossingPays(a: Task, b: Task, c: Task) {
    b.up != a.up && c.up == a.up ==> c.dist >= 2 * a.dist + b.dist
  }

  ghost predicate CrossingsPay(T: seq<Task>) {
    forall i, j {:trigger PaysAt(T, i, j)} :: 0 < i < j < |T| ==> PaysAt(T, i, j)
  }

  predicate PaysAt(T: seq<Task>, i: nat, j: nat)
    requires 0 < i < j < |T|
  {
    CrossingPays(T[i - 1], T[i], T[j])
  }

  lemma NextOfThree(start: int, a: Task, b: Task, c: Task)
    requires Placed(start, a) && Placed(start, b) && Placed(start, c) && a.dist <= b.dist <= c.dist
    ensures Abs(a.cylinder - b.cylinder) <= Abs(a.cylinder - c.cylinder) <==> CrossingPays(a, b, c)
  {
  }

  lemma SstfAscends(s: seq<Task>)
    ensures AscendingDist(Served(Sstf, s))
  {
    var T, D := Served(Sstf, s), set t | t in s;
    ComparatorsOrder(Sstf, D);
    SortSorted(Before(Sstf), s, D);
    forall i, j {:trigger T[i], T[j]} | 0 <= i < j < |T| ensures T[i].dist <= T[j].dist {
      assert Before(Sstf)(T[i], T[j]);
    }
  }

  ghost predicate AscendingDist(T: seq<Task>) {
    forall k, l {:trigger T[k], T[l]} :: 0 <= k < l < |T| ==> T[k].dist <= T[l].dist
  }

  /** Task i, not the first, is no further than task j if and only if the crossing to it pays. */
  lemma NearestAt(start: int, T: seq<Task>, i: nat, j: nat)
    requires 0 < i < j < |T| && AllPlaced(start, T) && AscendingDist(T)
    ensures NoFurther(start, T, i, j) <==> PaysAt(T, i, j)
  {
    hide Placed, CrossingPays;
    assert T[i - 1] in T && T[i] in T && T[j] in T;
    NextOfThree(start, T[i - 1], T[i], T[j]);
  }

  lemma FirstIsNearest(start: int, T: seq<Task>, j: nat)
    requires j < |T| && AllPlaced(start, T) && AscendingDist(T)
    ensures NoFurther(start, T, 0, j)
  {
    assert T[0] in T && T[j] in T;
    assert Placed(start, T[0]) && Placed(start, T[j]);
  }

  /** For a sequence ascending in dist: nearest first if and only if every crossing pays. */
  lemma AscendingNearest(start: int, T: seq<Task>)
    requires AllPlaced(start, T) && AscendingDist(T)
    ensures NearestFirst(start, T) <==> CrossingsPay(T)
  {
    hide AllPlaced, AscendingDist, NoFurther, PaysAt;
    if NearestFirst(start, T) {
      forall i, j | 0 < i < j < |T| ensures PaysAt(T, i, j) { NearestAt(start, T, i, j); }
    }
    if CrossingsPay(T) {
      forall i, j | 0 <= i <= j < |T| ensures NoFurther(start, T, i, j) {
        if i == 0 {
          FirstIsNearest(start, T, j);
        } else if i < j {
          NearestAt(start, T, i, j);
        } else {
          NoFurtherThanItself(start, T, i);
        }
      }
    }
  }

  lemma NoFurtherThanItself(start: int, T: seq<Task>, i: nat)
    requires i < |T|
    ensures NoFurther(start, T, i, i)
  {
  }

  /** SSTF sorts once, by distance from the start.  The order it serves is nearest-first if and only if,
      whenever it crosses from a task a to a task b on the other side, every task c that is left on a's
      side is at least 2 * a.dist + b.dist from the start. */
  lemma SstfIsNearestFirst(start: int, s: seq<Task>)
    requires AllPlaced(start, s)
    ensures NearestFirst(start, Served(Sstf, s)) <==> CrossingsPay(Served(Sstf, s))
  {
    hide Sort, NearestFirst, CrossingsPay, AscendingDist;
    SstfAscends(s);
    ServedElements(Sstf, s);
    AscendingNearest(start, Served(Sstf, s));
  }

  /** Starting at 50 it serves 60, 35 and 75 in this order: from 60 it goes to 35, 25 cylinders away, and
      not to 75, which is 15 away. */
  lemma SstfIsNotNearestFirst()
    ensures var s := [MakeTask(50, 60), MakeTask(50, 35), MakeTask(50, 75)];
      AllPlaced(50, s) && Served(Sstf, s) == s && !NearestFirst(50, s)
  {
    var a, b, c := MakeTask(50, 60), MakeTask(50, 35), MakeTask(50, 75);
    var s, le := [a, b, c], Before(Sstf);
    assert s[1..] == [b, c] && [b, c][1..] == [c] && [c][1..] == [];
    assert Sort(le, [c]) == [c];
    assert Sort(le, [b, c]) == [b, c];
    assert Sort(le, s) == [a] + [b, c];
    assert !NoFurther(50, s, 1, 2);
  }

  // ---------- What CSCAN and CLOOK report ----------

  /** Requests at the highest cylinder. */
  function AtTop(s: seq<Task>): nat {
    if s == [] then 0 else (if s[0].cylinder == HIGHEST_LEVEL then 1 else 0) + AtTop(s[1..])
  }

  lemma {:induction false} AtTopCounts(s: seq<Task>)
    ensures AtTop(s) > 0 <==> exists t {:trigger t in s} :: t in s && t.cylinder == HIGHEST_LEVEL
  {
    if s != [] {
      AtTopCounts(s[1..]);
      assert s[0] in s && forall t {:trigger t in s} {:trigger t in s[1..]} :: t in s <==> t == s[0] || t in s[1..];
    }
  }

  lemma {:induction false} InsertAtTop(le: Order<Task>, x: Task, s: seq<Task>)
    ensures AtTop(Insert(le, x, s)) == AtTop(s) + if x.cylinder == HIGHEST_LEVEL then 1 else 0
  {
    if s == [] {
      assert [x][1..] == [];
    } else if le(x, s[0]) {
      assert ([x] + s)[1..] == s;
    } else {
      InsertAtTop(le, x, s[1..]);
      assert ([s[0]] + Insert(le, x, s[1..]))[1..] == Insert(le, x, s[1..]);
    }
  }

  lemma {:induction false} SortAtTop(le: Order<Task>, s: seq<Task>)
    ensures AtTop(Sort(le, s)) == AtTop(s)
  {
    if s != [] {
      SortAtTop(le, s[1..]);
      InsertAtTop(le, s[0], Sort(le, s[1..]));
    }
  }

  lemma {:induction false} AtTopJoins(s: seq<Task>, t: seq<Task>)
    ensures AtTop(s + t) == AtTop(s) + AtTop(t)
  {
    if s == [] {
      assert s + t == t;
    } else {
      assert (s + t)[1..] == s[1..] + t;
      AtTopJoins(s[1..], t);
    }
  }

  /** Of the entries that SCAN and CSCAN serve, those at the highest cylinder: the added end, and every
      request there. */
  lemma EndsAtTop(p: Policy, start: int, s: seq<Task>)
    ensures AtTop(Served(p, WithEnds(start, s))) == AtTop(s) + 1
  {
    var l, h := Task(LOWEST_LEVEL, start, false), Task(HIGHEST_LEVEL, HIGHEST_LEVEL - start, true);
    SortAtTop(Before(p), WithEnds(start, s));
    AtTopJoins([l] + s, [h]);
    AtTopJoins([l], s);
    assert [l][1..] == [] && [h][1..] == [];
  }

  /** The positions of s that are at the highest cylinder. */
  ghost function TopPositions(s: seq<Task>): set<int> {
    set i | 0 <= i < |s| && s[i].cylinder == HIGHEST_LEVEL
  }

  lemma {:induction false} AtTopIs(s: seq<Task>)
    ensures AtTop(s) == |TopPositions(s)|
  {
    if s != [] {
      var r := s[..|s| - 1];
      var P, Q := TopPositions(r), TopPositions(s);
      AtTopIs(r);
      assert s == r + [s[|s| - 1]];
      AtTopJoins(r, [s[|s| - 1]]);
      assert [s[|s| - 1]][1..] == [];
      if s[|s| - 1].cylinder == HIGHEST_LEVEL {
        assert Q == P + {|s| - 1};
      } else {
        assert Q == P;
      }
    }
  }

  /** With one request at 60, CSCAN going up from 50 serves 60, 200 and 0: a distance of 350, to which
      it adds 400 in its report. */
  lemma CscanOverstates()
    ensures var T := Served(Cscan(true), WithEnds(50, [MakeTask(50, 60)]));
      Travel(50, T) == 350 && AtTop(T) == 1
  {
    var l, a, h := Task(0, 50, false), MakeTask(50, 60), Task(200, 150, true);
    var s, le := WithEnds(50, [a]), Before(Cscan(true));
    assert s == [l, a, h] && s[1..] == [a, h] && [a, h][1..] == [h] && [h][1..] == [];
    assert Sort(le, [h]) == [h];
    assert Sort(le, [a, h]) == [a, h];
    assert Insert(le, l, []) == [l];
    assert Insert(le, l, [h]) == [h, l];
    assert Sort(le, s) == Insert(le, l, [a, h]) == [a, h, l];
    assert [a, h, l][1..] == [h, l] && [h, l][1..] == [l] && [l][1..] == [];
    assert Travel(0, []) == 0 && Travel(200, [l]) == 200 && Travel(60, [h, l]) == 340;
    assert AtTop([]) == 0 && AtTop([l]) == 0 && AtTop([h, l]) == 1;
  }
}
