/**
 Interval accounting of one cohort (internal/validate/conservation.go, cohortCoverage):
 sorting its members' in-flight intervals and sweeping them measures their union.
 */
module Coverage {
  import opened Sorting

  datatype Interval = Interval(start: int, end: int)

  ghost predicate Forward(spans: seq<Interval>) {
    forall i :: 0 <= i < |spans| ==> spans[i].start <= spans[i].end
  }

  ghost predicate ByStart(spans: seq<Interval>) {
    forall i, j :: 0 <= i < j < |spans| ==> spans[i].start <= spans[j].start
  }

  /** One ends before the other starts, or as it does. */
  predicate Apart(a: Interval, b: Interval) {
    a.end <= b.start || b.end <= a.start
  }

  /** The instants of one interval. */
  function Range(start: int, end: int): (r: set<int>)
    ensures forall t :: t in r <==> start <= t < end
    decreases end - start
  {
    if start >= end then {} else Range(start, end - 1) + {end - 1}
  }

  /** The instants at which some member was in flight. */
  function Instants(spans: seq<Interval>): set<int> {
    if spans == [] then {}
    else Instants(spans[..|spans| - 1]) + Range(spans[|spans| - 1].start, spans[|spans| - 1].end)
  }

  ghost predicate InFlight(spans: seq<Interval>, t: int) {
    exists i :: 0 <= i < |spans| && spans[i].start <= t < spans[i].end
  }

  lemma {:induction false} InstantsMean(spans: seq<Interval>, t: int)
    ensures t in Instants(spans) <==> InFlight(spans, t)
  {
    if spans != [] {
      var n := |spans| - 1;
      InstantsMean(spans[..n], t);
      if InFlight(spans[..n], t) {
        var i :| 0 <= i < n && spans[..n][i].start <= t < spans[..n][i].end;
        assert spans[i].start <= t < spans[i].end;
      }
      if InFlight(spans, t) {
        var i :| 0 <= i < |spans| && spans[i].start <= t < spans[i].end;
        assert i < n ==> spans[..n][i] == spans[i];
      }
    }
  }

  lemma {:induction false} RangeSize(start: int, end: int)
    requires start <= end
    ensures |Range(start, end)| == end - start
    decreases end - start
  {
    if start == end {
      assert Range(start, end) == {};
    } else {
      RangeSize(start, end - 1);
      assert Range(start, end) == Range(start, end - 1) + {end - 1};
    }
  }

  lemma {:induction false} SubsetSize<T>(a: set<T>, b: set<T>)
    requires a <= b
    ensures |a| <= |b|
    ensures |a| == |b| ==> a == b
  {
    assert b == a + (b - a);
    assert |b| == |a| + |b - a|;
  }

  function SumOfSpans(spans: seq<Interval>): int {
    if spans == [] then 0
    else SumOfSpans(spans[..|spans| - 1]) + (spans[|spans| - 1].end - spans[|spans| - 1].start)
  }

  function LatestEnd(spans: seq<Interval>): (e: int)
    requires spans != []
    ensures forall i :: 0 <= i < |spans| ==> spans[i].end <= e
    ensures exists i :: 0 <= i < |spans| && spans[i].end == e
  {
    var n := |spans| - 1;
    if n == 0 then spans[0].end
    else
      var e := LatestEnd(spans[..n]);
      assert forall i :: 0 <= i < n ==> spans[i].end <= e by {
        assert forall i :: 0 <= i < n ==> spans[..n][i] == spans[i];
      }
      if spans[n].end > e then spans[n].end else e
  }

  function EarliestStart(spans: seq<Interval>): (t: int)
    requires spans != []
    ensures forall i :: 0 <= i < |spans| ==> t <= spans[i].start
    ensures exists i :: 0 <= i < |spans| && spans[i].start == t
  {
    var n := |spans| - 1;
    if n == 0 then spans[0].start
    else
      var t := EarliestStart(spans[..n]);
      assert forall i :: 0 <= i < n ==> t <= spans[i].start by {
        assert forall i :: 0 <= i < n ==> spans[..n][i] == spans[i];
      }
      if spans[n].start < t then spans[n].start else t
  }

  /** First release to last completion. */
  function Makespan(spans: seq<Interval>): int
    requires spans != []
  {
    LatestEnd(spans) - EarliestStart(spans)
  }

  /** The union never exceeds the members' spans added up: concurrency is not counted twice. */
  lemma {:induction false} AtMostSum(spans: seq<Interval>)
    requires Forward(spans)
    ensures |Instants(spans)| <= SumOfSpans(spans)
  {
    if spans != [] {
      var n := |spans| - 1;
      AtMostSum(spans[..n]);
      RangeSize(spans[n].start, spans[n].end);
      var a, b := Instants(spans[..n]), Range(spans[n].start, spans[n].end);
      assert a + b == a + (b - a);
      assert |a + b| == |a| + |b - a|;
      SubsetSize(b - a, b);
    }
  }

  /** No instant of the makespan is without a member in flight. */
  ghost predicate NoIdleInstant(spans: seq<Interval>)
    requires spans != []
  {
    forall t :: spans[0].start <= t < LatestEnd(spans) ==> InFlight(spans, t)
  }

  /** The union lies within the makespan, and fills it exactly when no instant of it is without a member in flight. */
  lemma WithinMakespan(spans: seq<Interval>)
    requires spans != [] && Forward(spans) && ByStart(spans)
    ensures spans[0].start <= LatestEnd(spans)
    ensures |Instants(spans)| <= LatestEnd(spans) - spans[0].start
    ensures |Instants(spans)| == LatestEnd(spans) - spans[0].start <==> NoIdleInstant(spans)
  {
    var whole := Range(spans[0].start, LatestEnd(spans));
    RangeSize(spans[0].start, LatestEnd(spans));
    forall t ensures t in Instants(spans) <==> InFlight(spans, t) {
      InstantsMean(spans, t);
    }
    SubsetSize(Instants(spans), whole);
    if NoIdleInstant(spans) {
      assert Instants(spans) == whole;
    }
  }

  /* ---- The sweep ---- */

  /** The run of instants the sweep is extending ends at the latest end so far and is wholly in the union. */
  ghost predicate Swept(spans: seq<Interval>, covered: int, curStart: int, curEnd: int) {
    && spans != [] && curStart <= curEnd && curEnd == LatestEnd(spans) && curStart <= spans[|spans| - 1].start
    && (forall t :: curStart <= t < curEnd ==> t in Instants(spans))
    && covered + (curEnd - curStart) == |Instants(spans)|
  }

  lemma SweepStart(spans: seq<Interval>)
    requires |spans| == 1 && Forward(spans)
    ensures Swept(spans, 0, spans[0].start, spans[0].end)
  {
    assert spans[..0] == [];
    assert Instants(spans) == Range(spans[0].start, spans[0].end);
    RangeSize(spans[0].start, spans[0].end);
  }

  lemma OneMore(spans: seq<Interval>, s: Interval)
    requires spans != []
    ensures Instants(spans + [s]) == Instants(spans) + Range(s.start, s.end)
    ensures LatestEnd(spans + [s]) == if s.end > LatestEnd(spans) then s.end else LatestEnd(spans)
    ensures forall t :: t in Instants(spans) ==> t < LatestEnd(spans)
  {
    assert (spans + [s])[..|spans|] == spans;
    forall t | t in Instants(spans) ensures t < LatestEnd(spans) {
      InstantsMean(spans, t);
    }
  }

  lemma SizeOfUnion(a: set<int>, start: int, end: int)
    requires a !! Range(start, end) && start <= end
    ensures |a + Range(start, end)| == |a| + (end - start)
  {
    RangeSize(start, end);
  }

  /** One more interval, which starts no earlier than any before it. */
  lemma SweepOne(spans: seq<Interval>, s: Interval, covered: int, curStart: int, curEnd: int)
    requires Swept(spans, covered, curStart, curEnd) && s.start <= s.end && s.start >= spans[|spans| - 1].start
    ensures if s.start > curEnd then Swept(spans + [s], covered + (curEnd - curStart), s.start, s.end)
            else Swept(spans + [s], covered, curStart, if s.end > curEnd then s.end else curEnd)
  {
    hide Instants, LatestEnd, Range;
    OneMore(spans, s);
    var a := Instants(spans);
    if s.start > curEnd {
      SizeOfUnion(a, s.start, s.end);
    } else if s.end > curEnd {
      assert a + Range(s.start, s.end) == a + Range(curEnd, s.end);
      SizeOfUnion(a, curEnd, s.end);
    } else {
      assert a + Range(s.start, s.end) == a;
    }
  }

  datatype Account = Account(makespan: int, covered: int, uncovered: int, sumOfSpans: int)

  /** cohortCoverage's account of one cohort's sorted intervals. */
  method Sweep(spans: seq<Interval>) returns (c: Account)
    requires spans != [] && Forward(spans) && ByStart(spans)
    ensures c.makespan == LatestEnd(spans) - spans[0].start && c.sumOfSpans == SumOfSpans(spans)
    ensures c.covered == |Instants(spans)| && c.uncovered == c.makespan - c.covered
    ensures 0 <= c.covered <= c.makespan && c.covered <= c.sumOfSpans
    ensures c.uncovered == 0 <==> NoIdleInstant(spans)
  {
    hide Instants, LatestEnd, SumOfSpans, NoIdleInstant;
    var makespanEnd, sum := Totals(spans);
    var covered, curStart, curEnd := 0, spans[0].start, spans[0].end;
    SweepStart(spans[..1]);
    for i := 1 to |spans|
      invariant Swept(spans[..i], covered, curStart, curEnd)
    {
      var s := spans[i];
      SweepOne(spans[..i], s, covered, curStart, curEnd);
      assert spans[..i + 1] == spans[..i] + [s];
      if s.start > curEnd {
        covered := covered + (curEnd - curStart);
        curStart, curEnd := s.start, s.end;
      } else if s.end > curEnd {
        curEnd := s.end;
      }
    }
    assert spans[..|spans|] == spans;
    covered := covered + (curEnd - curStart);
    WithinMakespan(spans);
    AtMostSum(spans);
    c := Account(makespanEnd - spans[0].start, covered, makespanEnd - spans[0].start - covered, sum);
  }

  method Totals(spans: seq<Interval>) returns (makespanEnd: int, sum: int)
    requires spans != []
    ensures makespanEnd == LatestEnd(spans) && sum == SumOfSpans(spans)
  {
    makespanEnd, sum := spans[0].end, 0;
    for i := 0 to |spans|
      invariant sum == SumOfSpans(spans[..i])
      invariant if i == 0 then makespanEnd == spans[0].end else makespanEnd == LatestEnd(spans[..i])
    {
      assert spans[..i + 1][..i] == spans[..i];
      if spans[i].end > makespanEnd {
        makespanEnd := spans[i].end;
      }
      sum := sum + (spans[i].end - spans[i].start);
    }
    assert spans[..|spans|] == spans;
  }

  /** The order equal starts fall in, or any other, does not change the union. */
  lemma UnionOfMultiset(a: seq<Interval>, b: seq<Interval>)
    requires multiset(a) == multiset(b)
    ensures Instants(a) == Instants(b)
  {
    UnionWithin(a, b);
    UnionWithin(b, a);
  }

  lemma UnionWithin(a: seq<Interval>, b: seq<Interval>)
    requires multiset(a) == multiset(b)
    ensures Instants(a) <= Instants(b)
  {
    forall t | t in Instants(a) ensures t in Instants(b) {
      InstantsMean(a, t);
      InstantsMean(b, t);
      var i :| 0 <= i < |a| && a[i].start <= t < a[i].end;
      assert a[i] in multiset(b);
      assert a[i] in b;
      var j :| 0 <= j < |b| && b[j] == a[i];
    }
  }

  lemma EndsOfMultiset(a: seq<Interval>, b: seq<Interval>)
    requires multiset(a) == multiset(b) && a != [] && b != []
    ensures LatestEnd(a) <= LatestEnd(b) && EarliestStart(b) <= EarliestStart(a)
  {
    var i :| 0 <= i < |a| && a[i].end == LatestEnd(a);
    assert a[i] in multiset(b);
    assert a[i] in b;
    var k :| 0 <= k < |a| && a[k].start == EarliestStart(a);
    assert a[k] in multiset(b);
    assert a[k] in b;
  }

  lemma ForwardOfMultiset(a: seq<Interval>, b: seq<Interval>)
    requires multiset(a) == multiset(b) && Forward(a)
    ensures Forward(b)
  {
    forall i | 0 <= i < |b| ensures b[i].start <= b[i].end {
      assert b[i] in multiset(a);
      assert b[i] in a;
    }
  }

  lemma {:induction false} SumOfMultiset(a: seq<Interval>, b: seq<Interval>)
    requires multiset(a) == multiset(b)
    ensures SumOfSpans(a) == SumOfSpans(b)
    decreases |a|
  {
    if a == [] {
      EmptyMatches(b);
    } else {
      var n := |a| - 1;
      assert a == a[..n] + [a[n]];
      assert a[n] in multiset(b);
      var k :| 0 <= k < |b| && b[k] == a[n];
      RemoveAt(b, k);
      RemoveAt(a, n);
      assert a[..n] + a[n + 1..] == a[..n];
      Cancel(multiset(a[..n]), multiset(b[..k] + b[k + 1..]), a[n]);
      SumOfMultiset(a[..n], b[..k] + b[k + 1..]);
      SumWithout(b, k);
    }
  }

  lemma {:induction false} SumWithout(b: seq<Interval>, k: nat)
    requires k < |b|
    ensures SumOfSpans(b) == SumOfSpans(b[..k] + b[k + 1..]) + (b[k].end - b[k].start)
    decreases |b|
  {
    var n := |b| - 1;
    if k == n {
      assert b[..k] + b[k + 1..] == b[..n];
    } else {
      SumWithout(b[..n], k);
      var rest := b[..k] + b[k + 1..];
      assert rest[..|rest| - 1] == b[..n][..k] + b[..n][k + 1..];
    }
  }

  /**
   cohortCoverage for one cohort, whatever order its members come in: covered is the number of
   instants at which some member was in flight, at most the makespan and at most the members'
   spans added up, and nothing is uncovered exactly when there is no idle instant.
   */
  method Cover(given: seq<Interval>) returns (c: Account)
    requires given != [] && Forward(given)
    ensures c.makespan == Makespan(given) && c.sumOfSpans == SumOfSpans(given)
    ensures c.covered == |Instants(given)| && c.uncovered == c.makespan - c.covered
    ensures 0 <= c.covered <= c.makespan && c.covered <= c.sumOfSpans
    ensures c.uncovered == 0 <==> forall t :: EarliestStart(given) <= t < LatestEnd(given) ==> InFlight(given, t)
  {
    hide Instants, SumOfSpans, InFlight;
    var spans := SortBy(given, (x: Interval) => x.start);
    assert |multiset(spans)| == |multiset(given)|;
    ForwardOfMultiset(given, spans);
    c := Sweep(spans);
    EndsOfMultiset(given, spans);
    EndsOfMultiset(spans, given);
    UnionOfMultiset(given, spans);
    SumOfMultiset(given, spans);
    assert spans[0].start == EarliestStart(spans);
    forall t ensures InFlight(given, t) <==> InFlight(spans, t) {
      InstantsMean(given, t);
      InstantsMean(spans, t);
    }
  }
}
