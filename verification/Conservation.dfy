/**
 Where a request's and a cohort's time went (internal/validate/conservation.go,
 internal/validate/chain.go): durations of named spans, what they add up to, and what is
 left over. Nanoseconds are integers that do not wrap; fractions are compared by
 cross-multiplication.
 */
module Conservation {
  import opened Identity
  import opened Schema
  import opened Wire
  import opened Chains
  import opened Joins
  import opened Checks
  import opened Aggregation
  import Coverage

  /** The instants a chain is evaluated at. */
  type Times = map<Stage, int>

  function TimesOf(j: Joined): Times {
    map s | s in j.presence :: j.ts[s]
  }

  predicate Measured(span: Span, at: Times) {
    span.start in at && span.end in at
  }

  function Duration(span: Span, at: Times): int
    requires Measured(span, at)
  {
    at[span.end] - at[span.start]
  }

  /** The spans from the client send on, named by the cycle model or not, among the first n. */
  function Total(spans: seq<Span>, at: Times, accounted: bool, n: nat): int
    requires n <= |spans|
  {
    if n == 0 then 0
    else
      Total(spans, at, accounted, n - 1)
      + if spans[n - 1].accounted == accounted && Measured(spans[n - 1], at) && !PreCycle(spans, n - 1)
        then Duration(spans[n - 1], at) else 0
  }

  function Accounted(spans: seq<Span>, at: Times): int {
    Total(spans, at, true, |spans|)
  }

  function Unaccounted(spans: seq<Span>, at: Times): int {
    Total(spans, at, false, |spans|)
  }

  ghost predicate Complete(spans: seq<Span>, at: Times) {
    forall i :: 0 <= i < |spans| ==> Measured(spans[i], at)
  }

  datatype Breakdown = Breakdown(accounted: int, unaccounted: int, stages: map<SpanName, int>, complete: bool)

  ghost predicate DistinctNames(spans: seq<Span>) {
    forall i, j :: 0 <= i < j < |spans| ==> spans[i].name != spans[j].name
  }

  /** The span loop of checkConservation and decomposeCohorts. */
  method Decompose(spans: seq<Span>, at: Times) returns (b: Breakdown)
    requires DistinctNames(spans)
    ensures b.accounted == Accounted(spans, at) && b.unaccounted == Unaccounted(spans, at)
    ensures b.complete <==> Complete(spans, at)
    ensures forall i :: 0 <= i < |spans| && Measured(spans[i], at) ==>
              spans[i].name in b.stages && b.stages[spans[i].name] == Duration(spans[i], at)
  {
    var accounted, unaccounted, complete := 0, 0, true;
    var stages: map<SpanName, int> := map[];
    for n := 0 to |spans|
      invariant accounted == Total(spans, at, true, n) && unaccounted == Total(spans, at, false, n)
      invariant complete <==> forall i :: 0 <= i < n ==> Measured(spans[i], at)
      invariant forall i :: 0 <= i < n && Measured(spans[i], at) ==>
        spans[i].name in stages && stages[spans[i].name] == Duration(spans[i], at)
    {
      if !Measured(spans[n], at) {
        complete := false;
        continue;
      }
      var d := Duration(spans[n], at);
      stages := stages[spans[n].name := d];
      var before := BeforeCycle(spans, n);
      if before {
        continue;
      }
      if spans[n].accounted {
        accounted := accounted + d;
      } else {
        unaccounted := unaccounted + d;
      }
    }
    b := Breakdown(accounted, unaccounted, stages, complete);
  }

  /** PreCycle's loop. */
  method BeforeCycle(spans: seq<Span>, i: nat) returns (before: bool)
    ensures before <==> PreCycle(spans, i)
  {
    var j := 0;
    while j <= i && j < |spans|
      invariant 0 <= j && forall k :: 0 <= k < j && k < |spans| ==> spans[k].start != FIRST_CONSERVED
    {
      if spans[j].start == FIRST_CONSERVED {
        return false;
      }
      j := j + 1;
    }
    before := true;
  }

  /* ---- The identity ---- */

  /** Span k is the first to start at the client send. */
  predicate CycleStart(spans: seq<Span>, k: nat) {
    k < |spans| && spans[k].start == FIRST_CONSERVED && forall j :: 0 <= j < k ==> spans[j].start != FIRST_CONSERVED
  }

  lemma {:induction false} Telescopes(spans: seq<Span>, at: Times, k: nat, n: nat)
    requires Linked(spans) && Complete(spans, at) && CycleStart(spans, k) && n <= |spans|
    ensures Total(spans, at, true, n) + Total(spans, at, false, n)
         == if n <= k then 0 else at[spans[n - 1].end] - at[FIRST_CONSERVED]
  {
    if n > 0 {
      Telescopes(spans, at, k, n - 1);
      assert Measured(spans[n - 1], at);
      if n - 1 >= k {
        assert !PreCycle(spans, n - 1);
        if n - 1 > k {
          assert Measured(spans[n - 2], at) && spans[n - 1].start == spans[n - 2].end;
        }
      } else {
        assert PreCycle(spans, n - 1);
      }
    }
  }

  /** Where a cell's chain comes to the client send. */
  function CycleAt(cell: Cell): nat {
    if cell.AggregatesEnvelopes() then 1 else 2
  }

  lemma SharedCycleStart(aggregates: bool)
    ensures CycleStart(SharedChain(aggregates), if aggregates then 1 else 2)
    ensures |SharedChain(aggregates)| == 14 && SharedChain(aggregates)[13].end == LAST_CONSERVED
  {
    SharedSpans(aggregates);
    SharedOrderIs(aggregates);
  }

  lemma CycleStartOf(cell: Cell)
    requires !cell.UnknownCell?
    ensures Chain(cell).Some? && Linked(Chain(cell).value)
    ensures CycleStart(Chain(cell).value, CycleAt(cell))
    ensures Chain(cell).value[|Chain(cell).value| - 1].end == LAST_CONSERVED
  {
    ChainVisitsTopology(cell);
    if cell != D0 {
      hide SharedChain, Chain;
      SharedVisits(cell);
      SharedCycleStart(cell.AggregatesEnvelopes());
    }
  }

  /**
   What the cycle model names and what it does not add up, without a gap or an overlap, to the
   whole path from client send to client completion; so the residual is the unnamed time.
   */
  lemma ResidualIsUnnamed(cell: Cell, at: Times)
    requires Chain(cell).Some? && Complete(Chain(cell).value, at)
    ensures FIRST_CONSERVED in at && LAST_CONSERVED in at
    ensures var spans := Chain(cell).value;
            && Accounted(spans, at) + Unaccounted(spans, at) == at[LAST_CONSERVED] - at[FIRST_CONSERVED]
            && (at[LAST_CONSERVED] - at[FIRST_CONSERVED]) - Accounted(spans, at) == Unaccounted(spans, at)
  {
    CycleStartOf(cell);
    hide Total, Chain;
    var spans := Chain(cell).value;
    assert Measured(spans[CycleAt(cell)], at) && Measured(spans[|spans| - 1], at);
    Telescopes(spans, at, CycleAt(cell), |spans|);
  }

  /* ---- A cohort's own instants ---- */

  /** pacedByLastMember. */
  predicate PacedByLast(s: Stage) {
    s in {COMPUTE_END, ADAPTER_RESULT, ADAPTER_SEND, PROXY_RESP_RECV, PROXY_FANOUT, CLIENT_RECV}
  }

  ghost predicate SomeCarry(members: seq<Joined>, s: Stage) {
    exists i :: 0 <= i < |members| && s in members[i].presence
  }

  /** t is some member's observation of s, and none lies beyond it in the direction that paces the cohort. */
  ghost predicate Pace(members: seq<Joined>, s: Stage, t: int) {
    && (exists i :: 0 <= i < |members| && s in members[i].presence && members[i].ts[s] == t)
    && (forall i :: 0 <= i < |members| && s in members[i].presence ==>
          if PacedByLast(s) then members[i].ts[s] <= t else t <= members[i].ts[s])
  }

  /** The cohort's instants: the first member's up to execution, the last member's from there on. */
  ghost predicate CohortTimes(members: seq<Joined>, at: Times) {
    forall s: Stage :: (s in at <==> SomeCarry(members, s)) && (s in at ==> Pace(members, s, at[s]))
  }

  /**
   The instants a cohort is paced by: the earliest any member recorded of each stage up to the
   start of compute, the latest of each stage from its end on.
   */
  lemma InstantsAreFirstAndLast(members: seq<Joined>, at: Times, s: Stage)
    requires CohortTimes(members, at) && s in at
    ensures exists i :: 0 <= i < |members| && s in members[i].presence && members[i].ts[s] == at[s]
    ensures forall i :: 0 <= i < |members| && s in members[i].presence ==>
              if s in {1, 2, 3, 4, 5, 6, 7, 8, 9} then at[s] <= members[i].ts[s] else members[i].ts[s] <= at[s]
  {
    assert Pace(members, s, at[s]);
    assert PacedByLast(s) <==> s >= 10;
  }

  /** The member loop of cohortInstants, for one stage. */
  method StageInstant(members: seq<Joined>, s: Stage) returns (seen: bool, value: int)
    ensures seen <==> SomeCarry(members, s)
    ensures seen ==> Pace(members, s, value)
  {
    seen, value := false, 0;
    for i := 0 to |members|
      invariant seen <==> SomeCarry(members[..i], s)
      invariant seen ==> Pace(members[..i], s, value)
    {
      PaceOne(members[..i], members[i], s, seen, value);
      assert members[..i + 1] == members[..i] + [members[i]];
      hide SomeCarry, Pace;
      if s !in members[i].presence {
        continue;
      }
      var v := members[i].ts[s];
      if !seen {
        seen, value := true, v;
      } else if PacedByLast(s) && v > value {
        value := v;
      } else if !PacedByLast(s) && v < value {
        value := v;
      }
    }
    assert members[..|members|] == members;
  }

  lemma PaceOne(members: seq<Joined>, j: Joined, s: Stage, seen: bool, value: int)
    requires (seen <==> SomeCarry(members, s)) && (seen ==> Pace(members, s, value))
    ensures SomeCarry(members + [j], s) <==> seen || s in j.presence
    ensures s !in j.presence && seen ==> Pace(members + [j], s, value)
    ensures s in j.presence ==>
              Pace(members + [j], s,
                   if !seen || (if PacedByLast(s) then j.ts[s] > value else j.ts[s] < value) then j.ts[s] else value)
  {
    var all := members + [j];
    assert all[|members|] == j && forall i :: 0 <= i < |members| ==> all[i] == members[i];
    if s in j.presence && seen {
      var i :| 0 <= i < |members| && s in members[i].presence && members[i].ts[s] == value;
      assert all[i].ts[s] == value;
    }
    if SomeCarry(members, s) {
      var i :| 0 <= i < |members| && s in members[i].presence;
      assert s in all[i].presence;
    }
  }

  /** cohortInstants: None for a cohort without members. */
  method CohortInstants(members: seq<Joined>) returns (at: Option<Times>)
    ensures at.None? <==> members == []
    ensures at.Some? ==> CohortTimes(members, at.value)
  {
    if |members| == 0 {
      return None;
    }
    var out: Times := map[];
    for s := 1 to STAGE_COUNT + 1
      invariant forall t: Stage :: t in out <==> t < s && SomeCarry(members, t)
      invariant forall t: Stage :: t in out ==> Pace(members, t, out[t])
    {
      var seen, value := StageInstant(members, s);
      if seen {
        out := out[s := value];
      }
    }
    at := Some(out);
  }

  /** Every member's path carries the whole chain and never goes backwards along it. */
  ghost predicate InOrder(members: seq<Joined>, spans: seq<Span>) {
    forall i, k :: 0 <= i < |members| && 0 <= k < |spans| ==> SpanInOrder(members[i], spans[k])
  }

  predicate SpanInOrder(j: Joined, span: Span) {
    span.start in j.presence && span.end in j.presence && j.ts[span.start] <= j.ts[span.end]
  }

  lemma SharedPace(aggregates: bool, k: nat)
    requires k < |SharedChain(aggregates)|
    ensures PacedByLast(SharedChain(aggregates)[k].start) ==> PacedByLast(SharedChain(aggregates)[k].end)
  {
    SharedSpans(aggregates);
    SharedOrderIs(aggregates);
  }

  /** Once the cohort is paced by its last member it stays so. */
  lemma PaceNeverReturns(cell: Cell, k: nat)
    requires Chain(cell).Some? && k < |Chain(cell).value|
    ensures PacedByLast(Chain(cell).value[k].start) ==> PacedByLast(Chain(cell).value[k].end)
  {
    if cell != D0 {
      hide SharedChain, SharedOrder, PacedByLast;
      SharedVisits(cell);
      SharedPace(cell.AggregatesEnvelopes(), k);
    }
  }

  /** Between two linked stages of ordered members, the cohort's own interval is never negative. */
  lemma SpanForward(members: seq<Joined>, at: Times, spans: seq<Span>, k: nat)
    requires members != [] && CohortTimes(members, at) && InOrder(members, spans) && k < |spans|
    requires PacedByLast(spans[k].start) ==> PacedByLast(spans[k].end)
    ensures Measured(spans[k], at) && Duration(spans[k], at) >= 0
  {
    var s, e := spans[k].start, spans[k].end;
    assert forall i :: 0 <= i < |members| ==> SpanInOrder(members[i], spans[k]);
    assert SpanInOrder(members[0], spans[k]);
    assert SomeCarry(members, s) && SomeCarry(members, e);
    assert Pace(members, s, at[s]) && Pace(members, e, at[e]);
    if PacedByLast(s) {
      var i :| 0 <= i < |members| && members[i].ts[s] == at[s];
      assert members[i].ts[s] <= members[i].ts[e] <= at[e];
    } else {
      var i :| 0 <= i < |members| && members[i].ts[e] == at[e];
      assert at[s] <= members[i].ts[s] <= members[i].ts[e];
    }
  }

  /**
   A whole cohort's own spans tile its makespan: none is negative, and together they run from
   the first send to the last completion, so the cohort's residual is the unnamed time.
   */
  lemma CohortTiles(cell: Cell, members: seq<Joined>, at: Times)
    requires Chain(cell).Some? && members != [] && CohortTimes(members, at) && InOrder(members, Chain(cell).value)
    ensures Complete(Chain(cell).value, at) && CLIENT_SEND in at && CLIENT_RECV in at
    ensures var spans := Chain(cell).value;
            && (forall k :: 0 <= k < |spans| ==> Measured(spans[k], at) && Duration(spans[k], at) >= 0)
            && Accounted(spans, at) + Unaccounted(spans, at) == at[CLIENT_RECV] - at[CLIENT_SEND]
            && (at[CLIENT_RECV] - at[CLIENT_SEND]) - Accounted(spans, at) == Unaccounted(spans, at)
            && Accounted(spans, at) >= 0 && Unaccounted(spans, at) >= 0
  {
    hide Chain, Total, Pace;
    var spans := Chain(cell).value;
    forall k | 0 <= k < |spans| ensures Measured(spans[k], at) && Duration(spans[k], at) >= 0 {
      PaceNeverReturns(cell, k);
      SpanForward(members, at, spans, k);
    }
    ResidualIsUnnamed(cell, at);
    TotalsForward(spans, at, true, |spans|);
    TotalsForward(spans, at, false, |spans|);
  }

  lemma {:induction false} TotalsForward(spans: seq<Span>, at: Times, accounted: bool, n: nat)
    requires n <= |spans| && Complete(spans, at) && forall k :: 0 <= k < |spans| ==> Duration(spans[k], at) >= 0
    ensures Total(spans, at, accounted, n) >= 0
  {
    if n > 0 { TotalsForward(spans, at, accounted, n - 1); }
  }

  /** W_form of one member: its own arrival to the seal. */
  function MemberWait(j: Joined): int {
    j.ts[COHORT_SEAL] as int - j.ts[PROXY_RECV]
  }

  /** Under one shared seal the cohort's formation wait is the longest of its members' own. */
  lemma FormationWaitIsLongest(members: seq<Joined>, at: Times, seal: int64)
    requires members != [] && CohortTimes(members, at)
    requires forall i :: 0 <= i < |members| ==>
               && PROXY_RECV in members[i].presence && COHORT_SEAL in members[i].presence
               && members[i].ts[COHORT_SEAL] == seal
    ensures PROXY_RECV in at && COHORT_SEAL in at
    ensures var wait := at[COHORT_SEAL] - at[PROXY_RECV];
            && (forall i :: 0 <= i < |members| ==> MemberWait(members[i]) <= wait)
            && (exists i :: 0 <= i < |members| && MemberWait(members[i]) == wait)
  {
    assert PROXY_RECV in members[0].presence && COHORT_SEAL in members[0].presence;
    assert SomeCarry(members, PROXY_RECV) && SomeCarry(members, COHORT_SEAL);
    assert Pace(members, PROXY_RECV, at[PROXY_RECV]) && Pace(members, COHORT_SEAL, at[COHORT_SEAL]);
    var i :| 0 <= i < |members| && PROXY_RECV in members[i].presence && members[i].ts[PROXY_RECV] == at[PROXY_RECV];
    assert MemberWait(members[i]) == at[COHORT_SEAL] - at[PROXY_RECV];
  }

  /* ---- The cohort's makespan ---- */

  predicate InFlight(j: Joined) {
    FIRST_CONSERVED in j.presence && LAST_CONSERVED in j.presence && j.ts[FIRST_CONSERVED] <= j.ts[LAST_CONSERVED]
  }

  /** The in-flight intervals cohortCoverage collects. */
  function Intervals(members: seq<Joined>): (spans: seq<Coverage.Interval>)
    ensures Coverage.Forward(spans)
  {
    if members == [] then []
    else
      var j := members[|members| - 1];
      Intervals(members[..|members| - 1])
      + if InFlight(j) then [Coverage.Interval(j.ts[FIRST_CONSERVED], j.ts[LAST_CONSERVED])] else []
  }

  /** When every member is in flight, each contributes its interval. */
  lemma {:induction false} AllInFlight(members: seq<Joined>)
    requires forall i :: 0 <= i < |members| ==> InFlight(members[i])
    ensures |Intervals(members)| == |members|
    ensures forall i :: 0 <= i < |members| ==>
              Intervals(members)[i] == Coverage.Interval(members[i].ts[FIRST_CONSERVED], members[i].ts[LAST_CONSERVED])
  {
    hide InFlight;
    if members != [] {
      AllInFlight(members[..|members| - 1]);
    }
  }

  /** A path that never goes backwards along its chain is in flight from its send to its completion. */
  lemma {:induction false} NeverBackwards(spans: seq<Span>, j: Joined, k: nat, n: nat)
    requires Linked(spans) && k < n <= |spans|
    requires forall i :: 0 <= i < |spans| ==> j.ts[spans[i].start] <= j.ts[spans[i].end]
    ensures j.ts[spans[k].start] <= j.ts[spans[n - 1].end]
  {
    if n - 1 > k {
      NeverBackwards(spans, j, k, n - 1);
      assert spans[n - 1].start == spans[n - 2].end;
    }
  }

  /** For a whole cohort in order, coverage and decomposition measure the same makespan. */
  lemma MakespanIsPathSpan(cell: Cell, members: seq<Joined>, at: Times)
    requires Chain(cell).Some? && members != [] && CohortTimes(members, at) && InOrder(members, Chain(cell).value)
    ensures Intervals(members) != [] && CLIENT_SEND in at && CLIENT_RECV in at
    ensures Coverage.Makespan(Intervals(members)) == at[CLIENT_RECV] - at[CLIENT_SEND]
  {
    hide Chain, Intervals, CohortTimes, InFlight, InOrder, Total, Coverage.LatestEnd, Coverage.EarliestStart;
    CohortTiles(cell, members, at);
    forall i | 0 <= i < |members| ensures InFlight(members[i]) {
      InOrderInFlight(cell, members, i);
    }
    AllInFlight(members);
    EndsAre(members, at);
  }

  lemma InOrderInFlight(cell: Cell, members: seq<Joined>, i: nat)
    requires Chain(cell).Some? && i < |members| && InOrder(members, Chain(cell).value)
    ensures InFlight(members[i])
  {
    CycleStartOf(cell);
    hide Chain;
    var spans, k := Chain(cell).value, CycleAt(cell);
    assert forall l :: 0 <= l < |spans| ==> SpanInOrder(members[i], spans[l]);
    NeverBackwards(spans, members[i], k, |spans|);
    assert SpanInOrder(members[i], spans[k]) && SpanInOrder(members[i], spans[|spans| - 1]);
  }

  lemma EndsAre(members: seq<Joined>, at: Times)
    requires members != [] && CohortTimes(members, at) && CLIENT_SEND in at && CLIENT_RECV in at
    requires |Intervals(members)| == |members| && forall i :: 0 <= i < |members| ==> InFlight(members[i])
    requires forall i :: 0 <= i < |members| ==>
              Intervals(members)[i] == Coverage.Interval(members[i].ts[FIRST_CONSERVED], members[i].ts[LAST_CONSERVED])
    ensures Coverage.EarliestStart(Intervals(members)) == at[CLIENT_SEND]
    ensures Coverage.LatestEnd(Intervals(members)) == at[CLIENT_RECV]
  {
    hide Intervals, Coverage.EarliestStart, Coverage.LatestEnd;
    assert Pace(members, CLIENT_SEND, at[CLIENT_SEND]) && Pace(members, CLIENT_RECV, at[CLIENT_RECV]);
    var i :| 0 <= i < |members| && members[i].ts[CLIENT_SEND] == at[CLIENT_SEND];
    var k :| 0 <= k < |members| && members[k].ts[CLIENT_RECV] == at[CLIENT_RECV];
    assert Intervals(members)[i].start == at[CLIENT_SEND] && Intervals(members)[k].end == at[CLIENT_RECV];
  }

  /* ---- The check ---- */

  /** A residual's share of the whole, against the tolerance; a path of no length has none. */
  predicate Exceeds(exp: Expectation, residual: int, whole: int) {
    whole > 0 && (if residual < 0 then -residual else residual) * exp.toleranceDen > exp.toleranceNum * whole
  }

  /** One request's own residual, judged where its own path is the whole story. */
  ghost predicate RequestExceeds(exp: Expectation, spans: seq<Span>, j: Joined) {
    && FIRST_CONSERVED in j.presence && LAST_CONSERVED in j.presence && Complete(spans, TimesOf(j))
    && var whole := j.ts[LAST_CONSERVED] as int - j.ts[FIRST_CONSERVED];
    Exceeds(exp, whole - Accounted(spans, TimesOf(j)), whole)
  }

  /** The cohort's requests in ordinal order. */
  ghost predicate CohortOrder(order: seq<LogicalRequest>, paths: Paths, cohort: uint32) {
    Ascending(order) && forall q :: q in order <==> q in paths && q.cohort == cohort
  }

  function Members(order: seq<LogicalRequest>, paths: Paths): (members: seq<Joined>)
    requires forall q :: q in order ==> q in paths
    ensures |members| == |order|
  {
    seq(|order|, i requires 0 <= i < |order| => paths[order[i]])
  }

  datatype CohortAccount = CohortAccount(order: seq<LogicalRequest>, at: Times, interval: Coverage.Account,
                                         breakdown: Breakdown, residual: int)

  /** What the report says of one cohort. */
  ghost predicate AccountOf(a: CohortAccount, spans: seq<Span>, paths: Paths, cohort: uint32) {
    && CohortOrder(a.order, paths, cohort)
    && var members := Members(a.order, paths);
    && CohortTimes(members, a.at) && Intervals(members) != []
    && a.interval.makespan == Coverage.Makespan(Intervals(members))
    && a.interval.covered == |Coverage.Instants(Intervals(members))|
    && a.interval.sumOfSpans == Coverage.SumOfSpans(Intervals(members))
    && a.breakdown.accounted == Accounted(spans, a.at) && a.breakdown.unaccounted == Unaccounted(spans, a.at)
    && a.residual == a.interval.makespan - a.breakdown.accounted
  }

  /**
   For a whole cohort in order, what the report calls the residual is exactly the unnamed time, within the
   makespan.
   */
  lemma ReportedResidual(a: CohortAccount, cell: Cell, paths: Paths, cohort: uint32)
    requires Chain(cell).Some? && AccountOf(a, Chain(cell).value, paths, cohort)
    requires InOrder(Members(a.order, paths), Chain(cell).value)
    ensures a.residual == a.breakdown.unaccounted && 0 <= a.residual <= a.interval.makespan
  {
    hide Chain, Total, CohortTimes, InOrder, Coverage.Makespan, Coverage.Instants, Coverage.SumOfSpans, Intervals;
    var members := Members(a.order, paths);
    assert members != [] by { if members == [] { NothingToCollect(members); } }
    CohortTiles(cell, members, a.at);
    MakespanIsPathSpan(cell, members, a.at);
  }

  method CollectIntervals(members: seq<Joined>) returns (spans: seq<Coverage.Interval>)
    ensures spans == Intervals(members)
  {
    spans := [];
    for i := 0 to |members|
      invariant spans == Intervals(members[..i])
    {
      assert members[..i + 1][..i] == members[..i];
      if InFlight(members[i]) {
        spans := spans + [Coverage.Interval(members[i].ts[FIRST_CONSERVED], members[i].ts[LAST_CONSERVED])];
      }
    }
    assert members[..|members|] == members;
  }

  /** cohortCoverage and decomposeCohorts for one cohort: None when no member was in flight. */
  method AccountCohort(spans: seq<Span>, paths: Paths, cohort: uint32) returns (a: Option<CohortAccount>)
    requires DistinctNames(spans)
    ensures a.Some? ==> AccountOf(a.value, spans, paths, cohort)
    ensures a.None? ==> forall q :: q in paths && q.cohort == cohort ==> !InFlight(paths[q])
  {
    var order := SelectRequests(paths, (q: LogicalRequest, j: Joined) => q.cohort == cohort);
    var members := Members(order, paths);
    var intervals := CollectIntervals(members);
    if |intervals| == 0 {
      NoneInFlight(members);
      forall q | q in paths && q.cohort == cohort ensures !InFlight(paths[q]) {
        assert q in order;
        var i :| 0 <= i < |order| && order[i] == q;
        assert members[i] == paths[q];
      }
      return None;
    }
    hide Intervals, Coverage.Instants, Coverage.Makespan, Coverage.SumOfSpans, CohortTimes, DistinctNames, Total;
    var interval := Coverage.Cover(intervals);
    var at := CohortInstants(members);
    assert members != [] by { if members == [] { NothingToCollect(members); } }
    var breakdown := Decompose(spans, at.value);
    a := Some(CohortAccount(order, at.value, interval, breakdown, interval.makespan - breakdown.accounted));
  }

  lemma NothingToCollect(members: seq<Joined>)
    requires members == []
    ensures Intervals(members) == []
  {
  }

  lemma {:induction false} NoneInFlight(members: seq<Joined>)
    requires Intervals(members) == []
    ensures forall i :: 0 <= i < |members| ==> !InFlight(members[i])
  {
    hide InFlight;
    if members != [] {
      NoneInFlight(members[..|members| - 1]);
    }
  }

  ghost predicate ConservationDefect(exp: Expectation, spans: seq<Span>, paths: Paths,
                                     accounts: map<uint32, CohortAccount>,
                                     d: Defect)
  {
    match d
    case Residual(q) => !exp.cell.AggregatesEnvelopes() && q in paths && RequestExceeds(exp, spans, paths[q])
    case CohortResidual(c) =>
      && exp.cell.AggregatesEnvelopes() && c in accounts
      && Exceeds(exp, accounts[c].residual, accounts[c].interval.makespan)
    case _ => false
  }

  /** The request loop of checkConservation. */
  method RequestResiduals(exp: Expectation, spans: seq<Span>, paths: Paths) returns (defects: seq<Defect>)
    requires DistinctNames(spans)
    ensures forall d :: d in defects <==> d.Residual? && d.q in paths && RequestExceeds(exp, spans, paths[d.q])
  {
    defects := [];
    var left := paths.Keys;
    while left != {}
      invariant left <= paths.Keys
      invariant forall d :: d in defects <==>
                d.Residual? && d.q in paths && d.q !in left && RequestExceeds(exp, spans, paths[d.q])
      decreases |left|
    {
      var q :| q in left;
      var over := JudgeRequest(exp, spans, paths[q]);
      hide RequestExceeds;
      if over {
        defects := defects + [Residual(q)];
      }
      left := left - {q};
    }
  }

  method JudgeRequest(exp: Expectation, spans: seq<Span>, j: Joined) returns (over: bool)
    requires DistinctNames(spans)
    ensures over <==> RequestExceeds(exp, spans, j)
  {
    if FIRST_CONSERVED !in j.presence || LAST_CONSERVED !in j.presence {
      return false;
    }
    hide DistinctNames, Total;
    var b := Decompose(spans, TimesOf(j));
    var whole := j.ts[LAST_CONSERVED] as int - j.ts[FIRST_CONSERVED];
    over := b.complete && Exceeds(exp, whole - b.accounted, whole);
  }

  /** The cohort loop of checkConservation. */
  method CohortAccounts(spans: seq<Span>, paths: Paths) returns (accounts: map<uint32, CohortAccount>)
    requires DistinctNames(spans)
    ensures forall c :: c in accounts ==> AccountOf(accounts[c], spans, paths, c)
    ensures forall q :: q in paths && InFlight(paths[q]) ==> q.cohort in accounts
  {
    accounts := map[];
    var cohorts := Cohorts(paths);
    var left := cohorts;
    while left != {}
      invariant left <= cohorts
      invariant forall c :: c in accounts ==> AccountOf(accounts[c], spans, paths, c)
      invariant forall q :: q in paths && InFlight(paths[q]) && q.cohort !in left ==> q.cohort in accounts
      decreases |left|
    {
      hide AccountOf, InFlight, DistinctNames;
      var c :| c in left;
      var a := AccountCohort(spans, paths, c);
      if a.Some? {
        accounts := accounts[c := a.value];
      }
      left := left - {c};
    }
  }

  /** checkConservation: a request is judged where its path is its own, a cohort where it shares an envelope. */
  method CheckConservation(exp: Expectation, paths: Paths)
    returns (accounts: map<uint32, CohortAccount>, defects: seq<Defect>)
    ensures exp.cell.UnknownCell? ==> defects == [NoChain]
    ensures !exp.cell.UnknownCell? ==>
              && (forall c :: c in accounts ==> AccountOf(accounts[c], Chain(exp.cell).value, paths, c))
              && (forall q :: q in paths && InFlight(paths[q]) ==> q.cohort in accounts)
              && (forall d :: d in defects <==> ConservationDefect(exp, Chain(exp.cell).value, paths, accounts, d))
  {
    if Chain(exp.cell).None? {
      return map[], [NoChain];
    }
    var spans := Chain(exp.cell).value;
    ChainNamesDistinct(exp.cell);
    hide Chain, DistinctNames, AccountOf, InFlight, ConservationDefect;
    accounts, defects := JudgeSpans(exp, spans, paths);
  }

  /** checkConservation along a cell's chain. */
  method JudgeSpans(exp: Expectation, spans: seq<Span>, paths: Paths)
    returns (accounts: map<uint32, CohortAccount>, defects: seq<Defect>)
    requires DistinctNames(spans)
    ensures forall c :: c in accounts ==> AccountOf(accounts[c], spans, paths, c)
    ensures forall q :: q in paths && InFlight(paths[q]) ==> q.cohort in accounts
    ensures forall d :: d in defects <==> ConservationDefect(exp, spans, paths, accounts, d)
  {
    hide DistinctNames, AccountOf, RequestExceeds, InFlight, Exceeds, Total, CohortTimes, Complete;
    accounts := CohortAccounts(spans, paths);
    if exp.cell.AggregatesEnvelopes() {
      defects := CohortResiduals(exp, accounts);
    } else {
      defects := RequestResiduals(exp, spans, paths);
    }
  }

  /** The residuals a cell that shares envelopes is gated on. */
  method CohortResiduals(exp: Expectation, accounts: map<uint32, CohortAccount>) returns (defects: seq<Defect>)
    ensures forall d :: d in defects <==>
      && d.CohortResidual? && d.cohort in accounts
      && Exceeds(exp, accounts[d.cohort].residual, accounts[d.cohort].interval.makespan)
  {
    hide Exceeds;
    defects := [];
    var left := accounts.Keys;
    while left != {}
      invariant left <= accounts.Keys
      invariant forall d :: d in defects <==>
        d.CohortResidual? && d.cohort in accounts && d.cohort !in left
        && Exceeds(exp, accounts[d.cohort].residual, accounts[d.cohort].interval.makespan)
      decreases |left|
    {
      var c :| c in left;
      if Exceeds(exp, accounts[c].residual, accounts[c].interval.makespan) {
        defects := defects + [CohortResidual(c)];
      }
      left := left - {c};
    }
  }

  /** Where a span of that name stands in a shared chain; only the first four depend on who seals. */
  function NamePlace(aggregates: bool, name: SpanName): nat {
    match name
    case BarrierWait => 0
    case ReleaseToSend => if aggregates then 0 else 1
    case XReqHop1 => if aggregates then 1 else 2
    case WForm => 2
    case APack => 3
    case XReqHop2 => 4
    case AdapterUnpack => 5
    case XReqHop3 => 6
    case QBackend => 7
    case SComp => 8
    case XRespHop1 => 9
    case ResponsePack => 10
    case XRespHop2 => 11
    case FFanout => 12
    case _ => 13
  }

  lemma NamePlaced(aggregates: bool, k: nat)
    requires k < 14
    ensures |SharedChain(aggregates)| == 14 && NamePlace(aggregates, SharedChain(aggregates)[k].name) == k
  {
    if k < 4 {
      assert SharedChain(aggregates)[k] == (if aggregates then AGGREGATE_HEAD else INDEPENDENT_HEAD)[k];
    } else {
      assert SharedChain(aggregates)[k] == SHARED_TAIL[k - 4];
    }
  }

  lemma ChainNamesDistinct(cell: Cell)
    requires !cell.UnknownCell?
    ensures Chain(cell).Some? && DistinctNames(Chain(cell).value)
  {
    if cell != D0 {
      hide SharedChain, NamePlace;
      SharedVisits(cell);
      var aggregates := cell.AggregatesEnvelopes();
      NamePlaced(aggregates, 0);
      var spans := SharedChain(aggregates);
      forall i, j | 0 <= i < j < |spans| ensures spans[i].name != spans[j].name {
        NamePlaced(aggregates, i);
        NamePlaced(aggregates, j);
      }
    }
  }
}
