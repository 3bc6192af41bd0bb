/** The K-best sampler of fcyc.c, with cycle counts as reals. */
module Samplers {
  import opened Sequences
  import opened StableSort

  ghost function Le(): Order<real> { (x: real, y: real) => x <= y }

  /** The samples from least to greatest. */
  ghost function Ranked(samples: seq<real>): seq<real> { Sort(Le(), samples) }

  ghost predicate Ascending(s: seq<real>) {
    forall i, j {:trigger s[i], s[j]} :: 0 <= i < j < |s| ==> s[i] <= s[j]
  }

  lemma RankedAscends(samples: seq<real>)
    ensures Ascending(Ranked(samples)) && |Ranked(samples)| == |samples|
    ensures multiset(Ranked(samples)) == multiset(samples)
  {
    var D := set x | x in samples;
    SortSorted(Le(), samples, D);
    SortLength(Le(), samples);
    SortElements(Le(), samples);
    forall i, j | 0 <= i < j < |samples| ensures Ranked(samples)[i] <= Ranked(samples)[j] {
      assert Le()(Ranked(samples)[i], Ranked(samples)[j]);
    }
  }

  /** The first k of the ranked samples are k of the samples, ascending, and no other is less. */
  lemma LeastKept(samples: seq<real>, k: nat)
    requires k <= |samples|
    ensures var R := Ranked(samples);
      && |R| == |samples| && Ascending(R[..k]) && multiset(R[..k]) + multiset(R[k..]) == multiset(samples)
      && forall i, j {:trigger R[..k][i], R[k..][j]} :: 0 <= i < k && 0 <= j < |R| - k ==> R[..k][i] <= R[k..][j]
  {
    hide Ranked;
    RankedAscends(samples);
    var R := Ranked(samples);
    assert R == R[..k] + R[k..];
  }

  /** Among equal reals it does not matter where v goes. */
  lemma {:induction false} InsertAt(s: seq<real>, v: real, p: nat)
    requires Ascending(s) && p <= |s| && (p > 0 ==> s[p - 1] <= v) && (p < |s| ==> v < s[p])
    ensures Insert(Le(), v, s) == s[..p] + [v] + s[p..]
  {
    hide Ascending;
    if s == [] || v <= s[0] {
      AmongEquals(s, v, p);
    } else {
      AscendingRest(s);
      InsertAt(s[1..], v, p - 1);
      AfterFirst(s, v, p);
    }
  }

  lemma AmongEquals(s: seq<real>, v: real, p: nat)
    requires Ascending(s) && p <= |s| && (p > 0 ==> s[p - 1] <= v) && (s == [] || v <= s[0])
    ensures [v] + s == s[..p] + [v] + s[p..]
  {
    forall i | 0 <= i < p ensures s[i] == v { }
    EqualPrefix(s, v, p);
  }

  lemma EqualPrefix(s: seq<real>, v: real, p: nat)
    requires p <= |s| && forall i :: 0 <= i < p ==> s[i] == v
    ensures [v] + s == s[..p] + [v] + s[p..]
  {
  }

  lemma AfterFirst(s: seq<real>, v: real, p: nat)
    requires 0 < p <= |s|
    ensures [s[0]] + (s[1..][..p - 1] + [v] + s[1..][p - 1..]) == s[..p] + [v] + s[p..]
  {
  }

  lemma AscendingRest(s: seq<real>)
    requires Ascending(s) && s != []
    ensures Ascending(s[1..])
  {
  }

  lemma {:induction false} InsertLength(s: seq<real>, v: real)
    ensures |Insert(Le(), v, s)| == |s| + 1
  {
    if s != [] { InsertLength(s[1..], v); }
  }

  /** The k least after one more sample: nothing changes unless it is less than the last of them,
      and then it displaces that one. */
  lemma {:induction false} InsertKeeps(s: seq<real>, v: real, k: nat)
    requires Ascending(s) && 0 < k <= |s|
    ensures |Insert(Le(), v, s)| == |s| + 1
    ensures Insert(Le(), v, s)[..k] == if v < s[k - 1] then Insert(Le(), v, s[..k - 1]) else s[..k]
  {
    InsertLength(s, v);
    InsertLength(s[..k - 1], v);
    if v <= s[0] {
      assert v < s[k - 1] && k > 1 ==> s[..k - 1][0] == s[0];
      if v == s[k - 1] { assert forall i :: 0 <= i < k ==> s[i] == v; }
      assert ([v] + s)[..k] == [v] + s[..k - 1];
    } else if k == 1 {
      assert Insert(Le(), v, s)[..1] == [s[0]] == s[..1];
    } else {
      InsertKeeps(s[1..], v, k - 1);
      assert s[1..][..k - 1] == s[..k][1..] && s[..k - 1][1..] == s[1..][..k - 2];
      assert Insert(Le(), v, s)[..k] == [s[0]] + Insert(Le(), v, s[1..])[..k - 1];
    }
  }

  lemma SankTo(t: seq<real>, s: seq<real>, v: real, p: nat)
    requires p <= |s| && |t| == |s| + 1 && t[p] == v
    requires forall i {:trigger t[i]} :: 0 <= i < p ==> t[i] == s[i]
    requires forall i {:trigger t[i]} :: p < i <= |s| ==> t[i] == s[i - 1]
    ensures t == s[..p] + [v] + s[p..]
  {
  }

  class Sampler {
    const kbest: nat
    const maxsamples: int
    const epsilon: real
    var values: array<real>
    var samplecount: nat
    ghost var samples: seq<real>   // every sample, the latest first

    /** values[0..min(samplecount, kbest)) holds the kbest least samples, in order. */
    ghost predicate Valid()
      reads this, values
    {
      && 0 < kbest == values.Length && samplecount == |samples|
      && values[..Min(kbest, samplecount)] == Ranked(samples)[..Min(kbest, |Ranked(samples)|)]
      && |Ranked(samples)| == |samples|
    }

    /** init_sampler, after the parameters have been set. */
    constructor (kbest: nat, maxsamples: int, epsilon: real)
      requires 0 < kbest
      ensures Valid() && samplecount == 0 && samples == [] && fresh(values)
      ensures this.kbest == kbest && this.maxsamples == maxsamples && this.epsilon == epsilon
    {
      this.kbest, this.maxsamples, this.epsilon := kbest, maxsamples, epsilon;
      values := new real[kbest](_ => 0.0);
      samplecount := 0;
      samples := [];
    }

    /** The insertion sort loop at the end of add_sample, for the sample just stored at pos0. */
    method Sink(pos0: nat)
      requires pos0 < values.Length && Ascending(values[..pos0])
      modifies values
      ensures values[..pos0 + 1] == Insert(Le(), old(values[pos0]), old(values[..pos0]))
      ensures values[pos0 + 1..] == old(values[pos0 + 1..])
    {
      hide Sort, Insert, Ascending;
      ghost var s, v := values[..pos0], values[pos0];
      var pos := pos0;
      while pos > 0 && values[pos - 1] > values[pos]
        invariant 0 <= pos <= pos0 && values[pos] == v
        invariant forall i {:trigger values[i]} :: 0 <= i < pos ==> values[i] == s[i]
        invariant forall i {:trigger values[i]} :: pos < i <= pos0 ==> values[i] == s[i - 1]
        invariant pos < pos0 ==> v < s[pos]
        invariant values[pos0 + 1..] == old(values[pos0 + 1..])
      {
        var temp := values[pos - 1];
        values[pos - 1] := values[pos];
        values[pos] := temp;
        pos := pos - 1;
      }
      SankTo(values[..pos0 + 1], s, v, pos);
      InsertAt(s, v, pos);
    }

    /** add_sample */
    method AddSample(val: real)
      requires Valid()
      modifies this, values
      ensures Valid() && samples == [val] + old(samples) && values == old(values)
    {
      hide Sort, Insert, Ranked;
      ghost var R, k := Ranked(samples), kbest;
      RankedNext(val, samples);
      ghost var was := values[..];
      var pos := 0;
      if samplecount < kbest {
        pos := samplecount;
        values[pos] := val;
        assert values[..pos] == was[..pos] == R;
      } else {
        InsertKeeps(R, val, k);
        assert was[..k - 1] == was[..k][..k - 1] == R[..k - 1];
        if val < values[kbest - 1] {
          pos := kbest - 1;
          values[pos] := val;
          assert values[..pos] == was[..k - 1];
        } else {
          InsertNothing(values[0]);
        }
      }
      samplecount := samplecount + 1;
      samples := [val] + samples;
      ghost var mid := values[..];
      Sink(pos);
      assert pos == 0 ==> values[..] == [values[0]] + values[1..] && mid == [mid[0]] + mid[1..];
      assert values[..pos + 1] == Insert(Le(), mid[pos], mid[..pos]);
    }

    /** has_converged */
    method HasConverged() returns (converged: bool, ghost bound: real)
      requires Valid()
      ensures samples != [] ==> bound == (1.0 + epsilon) * Least(samples)
      ensures converged <==> samples != [] && CountAtMost(samples, bound) >= kbest
      ensures converged <==> Close(kbest, epsilon, samples)
    {
      hide Ranked, Slack;
      ConvergedIs(kbest, epsilon, samples);
      converged := samplecount >= kbest && (1.0 + epsilon) * values[0] >= values[kbest - 1];
      if samplecount >= kbest {
        assert values[0] == values[..kbest][0] && values[kbest - 1] == values[..kbest][kbest - 1];
        SlackIs(epsilon, values[0]);
      }
      bound := 0.0;
      if samples != [] {
        bound := Slack(epsilon, Least(samples));
        SlackIs(epsilon, Least(samples));
      }
    }
  }

  // ---------- Convergence, in terms of the samples ----------

  /** How many samples are at most x. */
  function CountAtMost(s: seq<real>, x: real): nat {
    if s == [] then 0 else (if s[0] <= x then 1 else 0) + CountAtMost(s[1..], x)
  }

  function Least(s: seq<real>): real
    requires s != []
  {
    if |s| == 1 || s[0] <= Least(s[1..]) then s[0] else Least(s[1..])
  }

  /** The positions of s at which a sample of at most x stands. */
  ghost function PositionsAtMost(s: seq<real>, x: real): set<int> {
    set i | 0 <= i < |s| && s[i] <= x
  }

  lemma {:induction false} CountIs(s: seq<real>, x: real)
    ensures CountAtMost(s, x) == |PositionsAtMost(s, x)|
  {
    if s != [] {
      var n := |s| - 1;
      var r := s[..n];
      CountIs(r, x);
      assert s == r + [s[n]] && [s[n]][1..] == [];
      CountJoins(r, [s[n]], x);
      if s[n] <= x {
        assert PositionsAtMost(s, x) == PositionsAtMost(r, x) + {n};
      } else {
        assert PositionsAtMost(s, x) == PositionsAtMost(r, x);
      }
    }
  }

  lemma {:induction false} CountJoins(s: seq<real>, t: seq<real>, x: real)
    ensures CountAtMost(s + t, x) == CountAtMost(s, x) + CountAtMost(t, x)
  {
    if s == [] {
      assert s + t == t;
    } else {
      assert (s + t)[1..] == s[1..] + t;
      CountJoins(s[1..], t, x);
    }
  }

  lemma {:induction false} CountInserted(s: seq<real>, v: real, x: real)
    ensures CountAtMost(Insert(Le(), v, s), x) == CountAtMost(s, x) + if v <= x then 1 else 0
  {
    if s == [] {
      assert [v][1..] == [];
    } else if v <= s[0] {
      assert ([v] + s)[1..] == s;
    } else {
      CountInserted(s[1..], v, x);
      assert ([s[0]] + Insert(Le(), v, s[1..]))[1..] == Insert(Le(), v, s[1..]);
    }
  }

  lemma {:induction false} CountRanked(s: seq<real>, x: real)
    ensures CountAtMost(Ranked(s), x) == CountAtMost(s, x)
  {
    if s != [] {
      CountRanked(s[1..], x);
      CountInserted(Ranked(s[1..]), s[0], x);
    }
  }

  /** In an ascending sequence at least k elements are at most x if and only if the k-th is. */
  lemma {:induction false} CountAscending(s: seq<real>, k: nat, x: real)
    requires Ascending(s) && 0 < k
    ensures CountAtMost(s, x) >= k <==> k <= |s| && s[k - 1] <= x
  {
    if s != [] {
      var r := s[1..];
      AscendingRest(s);
      if s[0] <= x {
        if k > 1 { CountAscending(r, k - 1, x); }
      } else {
        CountAscending(r, k, x);
        if k < |s| { assert r[k - 1] == s[k]; }
        if r != [] { CountNone(r, x); }
      }
    }
  }

  lemma {:induction false} CountNone(s: seq<real>, x: real)
    requires forall i {:trigger s[i]} :: 0 <= i < |s| ==> x < s[i]
    ensures CountAtMost(s, x) == 0
  {
    if s != [] { CountNone(s[1..], x); }
  }

  lemma {:induction false} LeastIs(s: seq<real>)
    requires s != []
    ensures Least(s) in s && forall x {:trigger x in s} :: x in s ==> Least(s) <= x
  {
    if |s| > 1 {
      LeastIs(s[1..]);
      assert forall x {:trigger x in s} {:trigger x in s[1..]} :: x in s <==> x == s[0] || x in s[1..];
    }
  }

  function Slack(epsilon: real, x: real): (r: real)
    ensures r == (1.0 + epsilon) * x
  {
    (1.0 + epsilon) * x
  }

  lemma SlackIs(epsilon: real, x: real)
    ensures Slack(epsilon, x) == (1.0 + epsilon) * x
  {
  }

  ghost predicate Close(k: nat, epsilon: real, s: seq<real>) {
    s != [] && CountAtMost(s, Slack(epsilon, Least(s))) >= k
  }

  /** The k-th least sample lies within epsilon of the least if and only if at least k of them do. */
  lemma ConvergedIs(k: nat, epsilon: real, samples: seq<real>)
    requires 0 < k
    ensures |Ranked(samples)| == |samples|
    ensures |samples| >= k && Slack(epsilon, Ranked(samples)[0]) >= Ranked(samples)[k - 1] <==>
      Close(k, epsilon, samples)
  {
    hide Ranked, Slack;
    RankedAscends(samples);
    if samples != [] {
      LeastFirst(samples);
      LeastIs(samples);
      assert Least(samples) == Ranked(samples)[0];
      CountRanked(samples, Slack(epsilon, Least(samples)));
      CountAscending(Ranked(samples), k, Slack(epsilon, Least(samples)));
    }
  }

  lemma InsertNothing(v: real)
    ensures Insert(Le(), v, []) == [v]
  {
  }

  lemma RankedNext(val: real, samples: seq<real>)
    ensures Ranked([val] + samples) == Insert(Le(), val, Ranked(samples))
    ensures |Ranked([val] + samples)| == |samples| + 1 && |Ranked(samples)| == |samples| && Ascending(Ranked(samples))
  {
    RankedAscends(samples);
    RankedAscends([val] + samples);
    assert ([val] + samples)[1..] == samples;
  }

  /** The first n measurements of a stream, the latest first. */
  ghost function FirstSamples(time: nat -> real, n: nat): (r: seq<real>)
    ensures |r| == n
  {
    if n == 0 then [] else [time(n - 1)] + FirstSamples(time, n - 1)
  }

  ghost predicate Stops(kbest: nat, maxsamples: int, epsilon: real, time: nat -> real, n: nat) {
    Close(kbest, epsilon, FirstSamples(time, n)) || n >= maxsamples
  }

  lemma {:induction false} SamplesAre(time: nat -> real, n: nat)
    ensures forall i {:trigger time(i)} :: 0 <= i < n ==> time(i) in FirstSamples(time, n)
    ensures forall x {:trigger x in FirstSamples(time, n)} :: x in FirstSamples(time, n) ==>
      exists i {:trigger time(i)} :: 0 <= i < n && x == time(i)
  {
    if n > 0 { SamplesAre(time, n - 1); }
  }

  lemma LeastFirst(s: seq<real>)
    requires s != []
    ensures Ranked(s) != [] && Ranked(s)[0] in s && forall x {:trigger x in s} :: x in s ==> Ranked(s)[0] <= x
  {
    RankedAscends(s);
    assert Ranked(s)[0] in multiset(Ranked(s));
    forall x {:trigger x in s} | x in s ensures Ranked(s)[0] <= x {
      assert x in multiset(Ranked(s));
      var i :| 0 <= i < |Ranked(s)| && Ranked(s)[i] == x;
    }
  }

  /** fcyc, where time(i) is what measurement i of the function yields: it takes at least one sample and
      at most as many as allowed, stops at the first count at which kbest of them are within epsilon of
      the least, and returns the least. */
  method Fcyc(kbest: nat, maxsamples: int, epsilon: real, time: nat -> real) returns (result: real, n: nat)
    requires 0 < kbest
    ensures 1 <= n && (n <= 1 || n <= maxsamples)
    ensures var s := FirstSamples(time, n);
      n >= maxsamples || CountAtMost(s, Slack(epsilon, Least(s))) >= kbest
    ensures forall i {:trigger FirstSamples(time, i)} :: 1 <= i < n ==>
      var s := FirstSamples(time, i); i < maxsamples && CountAtMost(s, Slack(epsilon, Least(s))) < kbest
    ensures (exists i {:trigger time(i)} :: 0 <= i < n && result == time(i))
    ensures (forall i {:trigger time(i)} :: 0 <= i < n ==> result <= time(i))
  {
    hide Slack;
    result, n := Sample(kbest, maxsamples, epsilon, time);
    SamplesAre(time, n);
    forall i {:trigger FirstSamples(time, i)} | 1 <= i < n
      ensures var s := FirstSamples(time, i); i < maxsamples && CountAtMost(s, Slack(epsilon, Least(s))) < kbest
    {
      assert !Stops(kbest, maxsamples, epsilon, time, i);
    }
  }

  /** The do-while loop. */
  method Sample(kbest: nat, maxsamples: int, epsilon: real, time: nat -> real) returns (result: real, n: nat)
    requires 0 < kbest
    ensures 1 <= n && (n <= 1 || n <= maxsamples)
    ensures Stops(kbest, maxsamples, epsilon, time, n)
    ensures forall i {:trigger Stops(kbest, maxsamples, epsilon, time, i)} :: 1 <= i < n ==>
      !Stops(kbest, maxsamples, epsilon, time, i)
    ensures result in FirstSamples(time, n)
    ensures forall x {:trigger x in FirstSamples(time, n)} :: x in FirstSamples(time, n) ==> result <= x
  {
    hide Ranked, CountAtMost, Least, Close, Slack;
    var sampler := new Sampler(kbest, maxsamples, epsilon);
    var going := true;
    while going
      invariant sampler.Valid() && fresh(sampler) && fresh(sampler.values)
      invariant sampler.kbest == kbest && sampler.maxsamples == maxsamples && sampler.epsilon == epsilon
      invariant sampler.samples == FirstSamples(time, sampler.samplecount)
      invariant going ==> sampler.samplecount == 0 || sampler.samplecount < maxsamples
      invariant !going ==> sampler.samplecount > 0 && Stops(kbest, maxsamples, epsilon, time, sampler.samplecount)
      invariant !going ==> sampler.samplecount <= 1 || sampler.samplecount <= maxsamples
      invariant forall i {:trigger Stops(kbest, maxsamples, epsilon, time, i)} ::
        1 <= i < sampler.samplecount + (if going then 1 else 0) ==> !Stops(kbest, maxsamples, epsilon, time, i)
      decreases going, maxsamples - sampler.samplecount
    {
      sampler.AddSample(time(sampler.samplecount));
      var converged;
      ghost var bound;
      converged, bound := sampler.HasConverged();
      going := !converged && sampler.samplecount < maxsamples;
    }
    n := sampler.samplecount;
    LeastFirst(sampler.samples);
    result := sampler.values[0];
    assert result == sampler.values[..Min(kbest, n)][0];
  }
}
