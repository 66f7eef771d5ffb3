/**
 Whether a cohort's model executions ran one at a time (internal/validate/execution.go):
 the check compares neighbours in start order, and this stands for every pair.
 */
module Executions {
  import opened Identity
  import opened Schema
  import opened Sorting
  import opened Joins
  import opened Checks
  import Coverage

  datatype Window = Window(q: LogicalRequest, start: int, end: int) {
    function Span(): Coverage.Interval {
      Coverage.Interval(start, end)
    }
  }

  /** Window i ends before its successor in start order begins, or at the same instant. */
  function Gap(w: seq<Window>, i: nat): int
    requires 0 < i < |w|
  {
    w[i].start - w[i - 1].end
  }

  ghost predicate ByStart(w: seq<Window>) {
    forall i, j :: 0 <= i < j < |w| ==> w[i].start <= w[j].start
  }

  /** Every window ends no earlier than it starts. */
  ghost predicate Forward(w: seq<Window>) {
    forall i :: 0 <= i < |w| ==> w[i].start <= w[i].end
  }

  predicate Disjoint(a: Window, b: Window) {
    Coverage.Apart(a.Span(), b.Span())
  }

  ghost predicate AllDisjoint(w: seq<Window>) {
    forall i, j :: 0 <= i < j < |w| ==> Disjoint(w[i], w[j])
  }

  function Overlaps(w: seq<Window>): nat {
    if |w| < 2 then 0 else Overlaps(w[..|w| - 1]) + if Gap(w, |w| - 1) < 0 then 1 else 0
  }

  function Compute(w: seq<Window>): int {
    if w == [] then 0 else Compute(w[..|w| - 1]) + (w[|w| - 1].end - w[|w| - 1].start)
  }

  function SumGaps(w: seq<Window>): int {
    if |w| < 2 then 0 else SumGaps(w[..|w| - 1]) + Gap(w, |w| - 1)
  }

  function SpanNanos(w: seq<Window>): int {
    if w == [] then 0 else w[|w| - 1].end - w[0].start
  }

  lemma {:induction false} NoOverlaps(w: seq<Window>)
    ensures Overlaps(w) == 0 <==> forall i :: 0 < i < |w| ==> Gap(w, i) >= 0
  {
    if |w| >= 2 {
      var n := |w| - 1;
      NoOverlaps(w[..n]);
      assert forall i :: 0 < i < n ==> Gap(w[..n], i) == Gap(w, i);
    }
  }

  lemma {:induction false} EndsBefore(w: seq<Window>, i: nat, j: nat)
    requires Forward(w) && i < j < |w| && forall k :: 0 < k < |w| ==> Gap(w, k) >= 0
    ensures w[i].end <= w[j].start
    decreases j
  {
    assert Gap(w, j) >= 0;
    if i < j - 1 { EndsBefore(w, i, j - 1); }
  }

  /** x is instantaneous, and the instant is the one at which y starts and does not end. */
  predicate AtStartOf(x: Window, y: Window) {
    x.start == x.end == y.start < y.end
  }

  /**
   The adjacent-pair check against the all-pairs claim, exactly: it reports nothing if and only
   if every two executions are disjoint and no instantaneous one directly follows one it starts with.
   */
  lemma NeighboursExactly(w: seq<Window>)
    requires ByStart(w) && Forward(w)
    ensures Overlaps(w) == 0 <==> AllDisjoint(w) && forall i :: 0 < i < |w| ==> !AtStartOf(w[i], w[i - 1])
  {
    NoOverlaps(w);
    if Overlaps(w) == 0 {
      forall i, j | 0 <= i < j < |w| ensures Disjoint(w[i], w[j]) {
        EndsBefore(w, i, j);
      }
      forall i | 0 < i < |w| ensures !AtStartOf(w[i], w[i - 1]) {
        assert Gap(w, i) >= 0;
      }
    } else {
      var i :| 0 < i < |w| && Gap(w, i) < 0;
      assert w[i - 1].start <= w[i].start;
      assert AtStartOf(w[i], w[i - 1]) || !Disjoint(w[i - 1], w[i]);
    }
  }

  /* ---- Every order of ties ---- */

  /** No instantaneous window starts with a window that goes on. */
  ghost predicate NoneAtStart(w: seq<Window>) {
    forall i, j :: 0 <= i < |w| && 0 <= j < |w| ==> !AtStartOf(w[i], w[j])
  }

  /** v is one of the results the sort of w may have. */
  ghost predicate SortOf(v: seq<Window>, w: seq<Window>) {
    multiset(v) == multiset(w) && ByStart(v)
  }

  /** One of those results. */
  lemma SomeSort(w: seq<Window>) returns (v: seq<Window>)
    ensures SortOf(v, w)
  {
    v := Arrange(w, (x: Window) => x.start);
  }

  lemma DisjointEitherWay(v: seq<Window>, w: seq<Window>)
    requires multiset(v) == multiset(w) && AllDisjoint(w)
    ensures AllDisjoint(v)
  {
    forall i, j | 0 <= i < j < |v| ensures Disjoint(v[i], v[j]) {
      var k, l := TwoPlaces(v, w, i, j);
      assert if k < l then Disjoint(w[k], w[l]) else Disjoint(w[l], w[k]);
    }
  }

  lemma NoneAtStartEitherWay(v: seq<Window>, w: seq<Window>)
    requires multiset(v) == multiset(w) && NoneAtStart(w)
    ensures NoneAtStart(v)
  {
    forall i, j | 0 <= i < |v| && 0 <= j < |v| ensures !AtStartOf(v[i], v[j]) {
      assert v[i] in multiset(w) && v[j] in multiset(w);
    }
  }

  lemma ForwardEitherWay(v: seq<Window>, w: seq<Window>)
    requires multiset(v) == multiset(w) && Forward(w)
    ensures Forward(v)
  {
    forall i | 0 <= i < |v| ensures v[i].start <= v[i].end {
      assert v[i] in multiset(w);
    }
  }

  /**
   Whatever order the sort gives ties, nothing is reported if and only if every two executions
   are disjoint and no instantaneous one starts with one that goes on.
   */
  lemma EveryOrderDecides(w: seq<Window>)
    requires Forward(w)
    ensures (forall v :: SortOf(v, w) ==> Overlaps(v) == 0) <==> AllDisjoint(w) && NoneAtStart(w)
  {
    hide AllDisjoint, NoneAtStart;
    if AllDisjoint(w) && NoneAtStart(w) {
      forall v | SortOf(v, w) ensures Overlaps(v) == 0 {
        OneOrderPasses(v, w);
      }
    }
    if forall v :: SortOf(v, w) ==> Overlaps(v) == 0 {
      var v := SomeSort(w);
      ForwardEitherWay(v, w);
      NeighboursExactly(v);
      DisjointEitherWay(w, v);
      PassingOrdersLeaveNoneAtStart(w);
    }
  }

  lemma OneOrderPasses(v: seq<Window>, w: seq<Window>)
    requires SortOf(v, w) && Forward(w) && AllDisjoint(w) && NoneAtStart(w)
    ensures Overlaps(v) == 0
  {
    ForwardEitherWay(v, w);
    DisjointEitherWay(v, w);
    NoneAtStartEitherWay(v, w);
    NeighboursExactly(v);
  }

  lemma PassingOrdersLeaveNoneAtStart(w: seq<Window>)
    requires Forward(w) && forall v :: SortOf(v, w) ==> Overlaps(v) == 0
    ensures NoneAtStart(w)
  {
    forall i, j | 0 <= i < |w| && 0 <= j < |w| ensures !AtStartOf(w[i], w[j]) {
      if AtStartOf(w[i], w[j]) {
        var v, a := SideBySide(w, (x: Window) => x.start, j, i);
        ForwardEitherWay(v, w);
        NoOverlaps(v);
        EndsBefore(v, a, a + 1);
        assert false;
      }
    }
  }

  /** Compute and the signed gaps between executions make up the cohort's whole span. */
  lemma {:induction false} ComputeAndGaps(w: seq<Window>)
    ensures Compute(w) + SumGaps(w) == SpanNanos(w)
  {
    if |w| >= 2 {
      ComputeAndGaps(w[..|w| - 1]);
    } else if |w| == 1 {
      assert Compute(w[..0]) == 0;
    }
  }

  /* ---- The methods ---- */

  datatype Layout = Layout(executions: nat, overlaps: nat, gapsMeasured: nat, minGap: int, span: int, compute: int)

  /** minGap is the smallest gap among the first i windows that do not overlap. */
  ghost predicate SmallestGap(w: seq<Window>, i: nat, minGap: int)
    requires i <= |w|
  {
    && minGap >= 0
    && (exists k :: 0 < k < i && Gap(w, k) == minGap)
    && (forall k :: 0 < k < i && Gap(w, k) >= 0 ==> minGap <= Gap(w, k))
  }

  /** Which neighbours the check names among the first i windows. */
  ghost predicate Names(defects: seq<Defect>, w: seq<Window>, i: nat)
    requires i <= |w|
  {
    forall d :: d in defects <==> exists k :: 0 < k < i && Gap(w, k) < 0 && d == Overlapping(w[k].q)
  }

  lemma OneMoreOverlap(w: seq<Window>, i: nat)
    requires 0 < i < |w|
    ensures Overlaps(w[..i + 1]) == Overlaps(w[..i]) + if Gap(w, i) < 0 then 1 else 0
  {
    assert Gap(w, i) == Gap(w[..i + 1], i) && w[..i + 1][..i] == w[..i];
  }

  ghost predicate NoGap(w: seq<Window>, i: nat)
    requires i <= |w|
  {
    forall k :: 0 < k < i ==> Gap(w, k) < 0
  }

  lemma OneMoreGap(w: seq<Window>, i: nat, measured: nat, minGap: int)
    requires 0 < i < |w| && Gap(w, i) >= 0
    requires if measured > 0 then SmallestGap(w, i, minGap) else NoGap(w, i)
    ensures SmallestGap(w, i + 1, if measured == 0 || Gap(w, i) < minGap then Gap(w, i) else minGap)
  {
    if measured > 0 {
      var k :| 0 < k < i && Gap(w, k) == minGap;
    }
  }

  method TotalCompute(w: seq<Window>) returns (compute: int)
    ensures compute == Compute(w)
  {
    compute := 0;
    for i := 0 to |w|
      invariant compute == Compute(w[..i])
    {
      assert w[..i + 1][..i] == w[..i];
      compute := compute + (w[i].end - w[i].start);
    }
    assert w[..|w|] == w;
  }

  /** layout says of these windows what its fields are named for. */
  ghost predicate LaidOut(layout: Layout, w: seq<Window>) {
    && layout.executions == |w| && layout.overlaps == Overlaps(w) && layout.span == SpanNanos(w)
    && layout.compute == Compute(w) && layout.overlaps + layout.gapsMeasured == |w| - 1
    && if layout.gapsMeasured > 0 then SmallestGap(w, |w|, layout.minGap) else NoGap(w, |w|)
  }

  /** The part of checkExecutionSerialization that lays out one cohort's sorted windows. */
  method LayOut(w: seq<Window>) returns (layout: Layout, defects: seq<Defect>)
    requires w != []
    ensures LaidOut(layout, w)
    ensures Names(defects, w, |w|)
  {
    var compute := TotalCompute(w);
    var overlaps, measured, minGap := 0, 0, 0;
    defects := [];
    assert Overlaps(w[..1]) == 0;
    for i := 1 to |w|
      invariant overlaps == Overlaps(w[..i]) && overlaps + measured == i - 1
      invariant if measured > 0 then SmallestGap(w, i, minGap) else NoGap(w, i)
      invariant Names(defects, w, i)
    {
      OneMoreOverlap(w, i);
      var gap := w[i].start - w[i - 1].end;
      if gap < 0 {
        overlaps := overlaps + 1;
        defects := defects + [Overlapping(w[i].q)];
        continue;
      }
      OneMoreGap(w, i, measured, minGap);
      if measured == 0 || gap < minGap {
        minGap := gap;
      }
      measured := measured + 1;
    }
    assert w[..|w|] == w;
    layout := Layout(|w|, overlaps, measured, minGap, SpanNanos(w), compute);
  }

  /* ---- Every cohort ---- */

  predicate Executed(j: Joined) {
    COMPUTE_START in j.presence && COMPUTE_END in j.presence
  }

  function WindowOf(j: Joined, q: LogicalRequest): Window {
    Window(q, j.ts[COMPUTE_START], j.ts[COMPUTE_END])
  }

  /** w lists the cohort's executions, each once. */
  ghost predicate ListsExecutions(w: multiset<Window>, paths: Paths, cohort: uint32) {
    && (forall x :: x in w ==>
          x.q in paths && x.q.cohort == cohort && Executed(paths[x.q]) && x == WindowOf(paths[x.q], x.q) && w[x] == 1)
    && (forall q :: q in paths && q.cohort == cohort && Executed(paths[q]) ==> WindowOf(paths[q], q) in w)
  }

  ghost predicate OneAtATime(paths: Paths) {
    forall q, r ::
      q in paths && r in paths && q != r && q.cohort == r.cohort && Executed(paths[q]) && Executed(paths[r]) ==>
      Disjoint(WindowOf(paths[q], q), WindowOf(paths[r], r))
  }

  ghost predicate CohortAtATime(paths: Paths, cohort: uint32) {
    forall q, r ::
      q in paths && r in paths && q != r && q.cohort == r.cohort == cohort
      && Executed(paths[q]) && Executed(paths[r]) ==>
      Disjoint(WindowOf(paths[q], q), WindowOf(paths[r], r))
  }

  ghost predicate ForwardPaths(paths: Paths) {
    forall q :: q in paths && Executed(paths[q]) ==> paths[q].ts[COMPUTE_START] <= paths[q].ts[COMPUTE_END]
  }

  /** No instantaneous execution of a cohort starts with one of the cohort that goes on. */
  ghost predicate ClearStarts(paths: Paths) {
    forall q, r :: q in paths && r in paths && q.cohort == r.cohort && Executed(paths[q]) && Executed(paths[r]) ==>
      !AtStartOf(WindowOf(paths[q], q), WindowOf(paths[r], r))
  }

  ghost predicate CohortClear(paths: Paths, cohort: uint32) {
    forall q, r ::
      q in paths && r in paths && q.cohort == r.cohort == cohort && Executed(paths[q]) && Executed(paths[r]) ==>
      !AtStartOf(WindowOf(paths[q], q), WindowOf(paths[r], r))
  }

  method CohortWindows(paths: Paths, cohort: uint32) returns (w: seq<Window>)
    ensures ListsExecutions(multiset(w), paths, cohort)
  {
    w := [];
    var left := paths.Keys;
    ghost var done: Paths := map[];
    while left != {}
      invariant left <= paths.Keys && done.Keys == paths.Keys - left && forall q :: q in done ==> done[q] == paths[q]
      invariant ListsExecutions(multiset(w), done, cohort)
      decreases |left|
    {
      var q :| q in left;
      ListOne(multiset(w), done, cohort, q, paths[q]);
      hide ListsExecutions;
      if q.cohort == cohort && Executed(paths[q]) {
        w := w + [WindowOf(paths[q], q)];
      }
      done := done[q := paths[q]];
      left := left - {q};
    }
    assert done == paths;
  }

  lemma ListOne(w: multiset<Window>, done: Paths, cohort: uint32, q: LogicalRequest, j: Joined)
    requires q !in done && ListsExecutions(w, done, cohort)
    ensures ListsExecutions(if q.cohort == cohort && Executed(j) then w + multiset{WindowOf(j, q)} else w,
                            done[q := j], cohort)
  {
  }

  lemma WindowsAreDisjoint(w: seq<Window>, paths: Paths, cohort: uint32)
    requires ListsExecutions(multiset(w), paths, cohort) && AllDisjoint(w)
    ensures CohortAtATime(paths, cohort)
  {
    forall q, r | q in paths && r in paths && q != r && q.cohort == r.cohort == cohort
                  && Executed(paths[q]) && Executed(paths[r])
      ensures Disjoint(WindowOf(paths[q], q), WindowOf(paths[r], r))
    {
      var x, y := WindowOf(paths[q], q), WindowOf(paths[r], r);
      assert x in w && y in w;
      var i :| 0 <= i < |w| && w[i] == x;
      var j :| 0 <= j < |w| && w[j] == y;
    }
  }

  lemma MembersAreDisjoint(w: seq<Window>, paths: Paths, cohort: uint32)
    requires ListsExecutions(multiset(w), paths, cohort) && CohortAtATime(paths, cohort)
    ensures AllDisjoint(w)
  {
    forall i, j | 0 <= i < j < |w| ensures Disjoint(w[i], w[j]) {
      assert w[i] in multiset(w) && w[j] in multiset(w);
      OnceMeansDistinct(w, i, j);
      assert w[i].q != w[j].q;
    }
  }

  lemma StartsAreClear(w: seq<Window>, paths: Paths, cohort: uint32)
    requires ListsExecutions(multiset(w), paths, cohort)
    ensures NoneAtStart(w) <==> CohortClear(paths, cohort)
  {
    forall i | 0 <= i < |w| ensures w[i] in multiset(w) {
    }
    if NoneAtStart(w) {
      forall q, r | q in paths && r in paths && q.cohort == r.cohort == cohort
                  && Executed(paths[q]) && Executed(paths[r])
        ensures !AtStartOf(WindowOf(paths[q], q), WindowOf(paths[r], r))
      {
        var i :| 0 <= i < |w| && w[i] == WindowOf(paths[q], q);
        var j :| 0 <= j < |w| && w[j] == WindowOf(paths[r], r);
      }
    }
  }

  /** The pairs at two places of a cohort's windows are the pairs of two members. */
  lemma PairsAreMembers(w: seq<Window>, paths: Paths, cohort: uint32)
    requires ListsExecutions(multiset(w), paths, cohort)
    ensures AllDisjoint(w) <==> CohortAtATime(paths, cohort)
    ensures NoneAtStart(w) <==> CohortClear(paths, cohort)
    ensures ForwardPaths(paths) ==> Forward(w)
  {
    hide AllDisjoint, CohortAtATime, NoneAtStart, CohortClear;
    forall i | 0 <= i < |w| ensures w[i] in multiset(w) {
    }
    if AllDisjoint(w) { WindowsAreDisjoint(w, paths, cohort); }
    if CohortAtATime(paths, cohort) { MembersAreDisjoint(w, paths, cohort); }
    StartsAreClear(w, paths, cohort);
  }

  /**
   However a cohort's windows are gathered and its ties sorted: the check names nothing in any
   order if and only if no two executions overlapped and no instantaneous one starts with one
   that goes on.
   */
  lemma CohortDecided(w: seq<Window>, paths: Paths, cohort: uint32)
    requires ListsExecutions(multiset(w), paths, cohort) && ForwardPaths(paths)
    ensures (forall v :: SortOf(v, w) ==> Overlaps(v) == 0) <==>
            CohortAtATime(paths, cohort) && CohortClear(paths, cohort)
  {
    hide ListsExecutions, CohortAtATime, CohortClear, AllDisjoint, NoneAtStart, ForwardPaths, Forward, SortOf;
    PairsAreMembers(w, paths, cohort);
    EveryOrderDecides(w);
  }

  /** order lists the executions of a cohort that has some, by their start. */
  ghost predicate Ordered(order: seq<Window>, paths: Paths, cohort: uint32) {
    order != [] && ListsExecutions(multiset(order), paths, cohort) && ByStart(order)
  }

  /** d names a window that starts before its predecessor ends. */
  ghost predicate NamedIn(w: seq<Window>, d: Defect) {
    exists k :: 0 < k < |w| && Gap(w, k) < 0 && d == Overlapping(w[k].q)
  }

  /** What is reported of these cohorts, each in one start order of its executions. */
  ghost predicate Reported(paths: Paths, cohorts: set<uint32>, orders: map<uint32, seq<Window>>,
                           layouts: map<uint32, Layout>, defects: seq<Defect>)
  {
    && orders.Keys == layouts.Keys == cohorts
    && (forall c :: c in orders ==> Ordered(orders[c], paths, c) && LaidOut(layouts[c], orders[c]))
    && (forall d :: d in defects <==> exists c :: c in orders && NamedIn(orders[c], d))
  }

  lemma ReportOne(paths: Paths, cohorts: set<uint32>, orders: map<uint32, seq<Window>>, layouts: map<uint32, Layout>,
                  defects: seq<Defect>, c: uint32, order: seq<Window>, layout: Layout, found: seq<Defect>)
    requires Reported(paths, cohorts, orders, layouts, defects) && c !in cohorts
    requires Ordered(order, paths, c) && LaidOut(layout, order) && Names(found, order, |order|)
    ensures Reported(paths, cohorts + {c}, orders[c := order], layouts[c := layout], defects + found)
  {
    hide Ordered, LaidOut;
    var next := orders[c := order];
    forall d ensures d in defects + found <==> exists b :: b in next && NamedIn(next[b], d) {
      assert d in found <==> NamedIn(next[c], d);
      if d in defects {
        var b :| b in orders && NamedIn(orders[b], d);
        assert next[b] == orders[b];
      }
    }
  }

  /** The cohorts in which anything executed. */
  function Executing(paths: Paths): set<uint32> {
    set q | q in paths && Executed(paths[q]) :: q.cohort
  }

  /** What the check names nothing of, in the orders it used. */
  lemma CleanReport(paths: Paths, orders: map<uint32, seq<Window>>, layouts: map<uint32, Layout>, defects: seq<Defect>)
    requires Reported(paths, Executing(paths), orders, layouts, defects)
    ensures defects == [] <==> forall c :: c in orders ==> Overlaps(orders[c]) == 0
    ensures forall d :: d in defects ==> d.Overlapping? && d.q in paths
  {
    hide Ordered, LaidOut, Executing, Overlaps;
    forall c | c in orders ensures Overlaps(orders[c]) == 0 <==> forall d :: !NamedIn(orders[c], d) {
      NoOverlaps(orders[c]);
      forall k | 0 < k < |orders[c]| && Gap(orders[c], k) < 0 ensures NamedIn(orders[c], Overlapping(orders[c][k].q)) {
      }
    }
    HeadIn(defects);
    if defects == [] {
      forall c | c in orders ensures Overlaps(orders[c]) == 0 {
        forall d ensures !NamedIn(orders[c], d) {
          assert NamedIn(orders[c], d) ==> d in defects;
        }
      }
    }
    forall d | d in defects ensures d.Overlapping? && d.q in paths {
      var c :| c in orders && NamedIn(orders[c], d);
      var k :| 0 < k < |orders[c]| && Gap(orders[c], k) < 0 && d == Overlapping(orders[c][k].q);
      ListedIsMember(orders[c], k, paths, c);
    }
  }

  /** What naming nothing means: all of it wherever no instantaneous execution starts with one that goes on. */
  lemma ReportMeans(paths: Paths, orders: map<uint32, seq<Window>>, layouts: map<uint32, Layout>, defects: seq<Defect>)
    requires Reported(paths, Executing(paths), orders, layouts, defects) && ForwardPaths(paths)
    ensures defects == [] ==> OneAtATime(paths)
    ensures ClearStarts(paths) ==> (defects == [] <==> OneAtATime(paths))
  {
    hide OneAtATime, CohortAtATime, ClearStarts, CohortClear, ForwardPaths, Executing, LaidOut, ListsExecutions,
         ByStart, AllDisjoint, NoneAtStart, Forward, Overlaps, NamedIn, Gap;
    CleanReport(paths, orders, layouts, defects);
    CohortsAreAll(paths);
    forall c | c in orders
      ensures Overlaps(orders[c]) == 0 ==> CohortAtATime(paths, c)
      ensures ClearStarts(paths) && CohortAtATime(paths, c) ==> Overlaps(orders[c]) == 0
    {
      DecideOne(paths, orders[c], c);
    }
  }

  lemma DecideOne(paths: Paths, w: seq<Window>, c: uint32)
    requires Ordered(w, paths, c) && ForwardPaths(paths)
    ensures Overlaps(w) == 0 ==> CohortAtATime(paths, c)
    ensures ClearStarts(paths) && CohortAtATime(paths, c) ==> Overlaps(w) == 0
  {
    hide ListsExecutions, CohortAtATime, ForwardPaths, AllDisjoint, Overlaps;
    PairsAreMembers(w, paths, c);
    NeighboursExactly(w);
    assert ClearStarts(paths) ==> CohortClear(paths, c);
  }

  /** The cohort loop of checkExecutionSerialization. */
  method ReportCohorts(paths: Paths)
    returns (layouts: map<uint32, Layout>, defects: seq<Defect>, ghost orders: map<uint32, seq<Window>>)
    ensures Reported(paths, Executing(paths), orders, layouts, defects)
  {
    hide Executed, LaidOut, Ordered, NamedIn, Names;
    layouts, defects, orders := map[], [], map[];
    var cohorts := Executing(paths);
    hide Executing;
    var left := cohorts;
    while left != {}
      invariant left <= cohorts
      invariant Reported(paths, cohorts - left, orders, layouts, defects)
      decreases |left|
    {
      var c :| c in left;
      var layout, found, order := CheckCohort(paths, c);
      ReportOne(paths, cohorts - left, orders, layouts, defects, c, order, layout, found);
      hide Reported;
      orders := orders[c := order];
      layouts := layouts[c := layout];
      defects := defects + found;
      assert cohorts - (left - {c}) == cohorts - left + {c};
      left := left - {c};
    }
    assert cohorts - left == cohorts;
  }

  /**
   checkExecutionSerialization. What is reported is the layout of every cohort that executed
   anything, and the windows that overlap their predecessor in the order the sort gave them.
   */
  method CheckExecutions(exp: Expectation, paths: Paths)
    returns (layouts: map<uint32, Layout>, defects: seq<Defect>, ghost orders: map<uint32, seq<Window>>)
    ensures exp.cell.VectorizesCompute() ==> defects == [] && layouts == map[]
    ensures !exp.cell.VectorizesCompute() ==> Reported(paths, Executing(paths), orders, layouts, defects)
    ensures !exp.cell.VectorizesCompute() && ForwardPaths(paths) && defects == [] ==> OneAtATime(paths)
    ensures !exp.cell.VectorizesCompute() && ForwardPaths(paths) && ClearStarts(paths) ==>
            (defects == [] <==> OneAtATime(paths))
    ensures forall d :: d in defects ==> d.Overlapping? && d.q in paths
  {
    hide ForwardPaths, ClearStarts, OneAtATime, Executing, Reported;
    layouts, defects, orders := map[], [], map[];
    if exp.cell.VectorizesCompute() {
      return;
    }
    layouts, defects, orders := ReportCohorts(paths);
    CleanReport(paths, orders, layouts, defects);
    if ForwardPaths(paths) {
      ReportMeans(paths, orders, layouts, defects);
    }
  }

  lemma CohortsAreAll(paths: Paths)
    ensures OneAtATime(paths) <==> forall c :: c in Executing(paths) ==> CohortAtATime(paths, c)
  {
    hide Disjoint, WindowOf;
    if forall c :: c in Executing(paths) ==> CohortAtATime(paths, c) {
      forall q, r | q in paths && r in paths && q != r && q.cohort == r.cohort
                  && Executed(paths[q]) && Executed(paths[r])
        ensures Disjoint(WindowOf(paths[q], q), WindowOf(paths[r], r))
      {
        assert CohortAtATime(paths, q.cohort);
      }
    }
  }

  method CheckCohort(paths: Paths, c: uint32) returns (layout: Layout, defects: seq<Defect>, ghost order: seq<Window>)
    requires c in Executing(paths)
    ensures Ordered(order, paths, c) && LaidOut(layout, order) && Names(defects, order, |order|)
  {
    hide ListsExecutions, LaidOut, Names;
    var given := CohortWindows(paths, c);
    NotEmpty(given, paths, c);
    var w := SortBy(given, (x: Window) => x.start);
    assert |multiset(w)| == |multiset(given)|;
    layout, defects := LayOut(w);
    order := w;
  }

  lemma NotEmpty(w: seq<Window>, paths: Paths, c: uint32)
    requires ListsExecutions(multiset(w), paths, c) && c in Executing(paths)
    ensures w != []
  {
    var q :| q in paths && q.cohort == c && Executed(paths[q]);
    assert WindowOf(paths[q], q) in multiset(w);
  }

  lemma ListedIsMember(w: seq<Window>, i: nat, paths: Paths, c: uint32)
    requires Ordered(w, paths, c) && i < |w|
    ensures w[i].q in paths
  {
    assert w[i] in multiset(w);
  }
}
