/**
 Whether the adapter dispatched on arrival (internal/validate/dispatch.go, checkAdapterDispatch),
 on the members' own timestamps: when it is named, and what it means when nothing is.
 */
module OnArrival {
  import opened Identity
  import opened Schema
  import opened Joins
  import opened Checks
  import opened Aggregation
  import Conservation
  import FanOut
  import V = Verdict

  /** Request q of the cohort went through the adapter, as far as its records say. */
  predicate WentThrough(paths: Paths, cohort: uint32, q: LogicalRequest) {
    q in paths && q.cohort == cohort && ADAPTER_RECV in paths[q].presence && ADAPTER_DISPATCH in paths[q].presence
  }

  /** Some member of the cohort was at the stage x after another, and none longer after another. */
  ghost predicate FurthestApart(paths: Paths, cohort: uint32, s: Stage, x: int) {
    && (exists q, r :: WentThrough(paths, cohort, q) && WentThrough(paths, cohort, r)
          && paths[q].ts[s] as int - paths[r].ts[s] == x)
    && (forall q, r :: WentThrough(paths, cohort, q) && WentThrough(paths, cohort, r) ==>
          paths[q].ts[s] as int - paths[r].ts[s] <= x)
  }

  ghost predicate TwoWentThrough(paths: Paths, cohort: uint32) {
    exists q, r :: q != r && WentThrough(paths, cohort, q) && WentThrough(paths, cohort, r)
  }

  /** The members arrived at least 20 microseconds apart, and left within less than a quarter of that. */
  ghost predicate ArrivedApartLeftTogether(paths: Paths, cohort: uint32) {
    && TwoWentThrough(paths, cohort)
    && exists arrivals, dispatches ::
         && FurthestApart(paths, cohort, ADAPTER_RECV, arrivals)
         && FurthestApart(paths, cohort, ADAPTER_DISPATCH, dispatches)
         && arrivals >= 20_000 && 4 * dispatches < arrivals
  }

  lemma FurthestIsOne(paths: Paths, cohort: uint32, s: Stage, x: int, y: int)
    requires FurthestApart(paths, cohort, s, x) && FurthestApart(paths, cohort, s, y)
    ensures x == y
  {
  }

  /** Some member of the cohort that went through carries the stage at this instant. */
  ghost predicate CarriedAt(paths: Paths, cohort: uint32, s: Stage, x: int) {
    exists q :: WentThrough(paths, cohort, q) && paths[q].ts[s] == x
  }

  /** The instants observed are those of the members that went through. */
  lemma ObservedAre(r: FanOut.CohortDispatch, paths: Paths, cohort: uint32, s: Stage, x: int)
    requires FanOut.DispatchOf(r, paths, cohort) && (s == ADAPTER_RECV || s == ADAPTER_DISPATCH)
    ensures x in FanOut.Observed(Conservation.Members(r.order, paths), s) <==> CarriedAt(paths, cohort, s, x)
  {
    hide FanOut.Observed, FanOut.SpreadOf, Ascending;
    var members := Conservation.Members(r.order, paths);
    FanOut.ObservedMeans(members, s, x);
    if exists j :: j in members && s in j.presence && j.ts[s] == x {
      var j :| j in members && s in j.presence && j.ts[s] == x;
      var i :| 0 <= i < |members| && members[i] == j;
      assert r.order[i] in r.order && WentThrough(paths, cohort, r.order[i]) && paths[r.order[i]].ts[s] == x;
    }
    if CarriedAt(paths, cohort, s, x) {
      var q :| WentThrough(paths, cohort, q) && paths[q].ts[s] == x;
      assert q in r.order;
      var i :| 0 <= i < |r.order| && r.order[i] == q;
      assert members[i] in members && members[i].ts[s] == x;
    }
  }

  lemma SpreadIsFurthest(r: FanOut.CohortDispatch, paths: Paths, cohort: uint32, s: Stage)
    requires FanOut.DispatchOf(r, paths, cohort) && (s == ADAPTER_RECV || s == ADAPTER_DISPATCH) && r.order != []
    ensures FurthestApart(paths, cohort, s, FanOut.SpreadOf(FanOut.Observed(Conservation.Members(r.order, paths), s)))
  {
    hide FanOut.Observed, FurthestApart, FanOut.SpreadOf, Ascending;
    assert r.order[0] in r.order && CarriedAt(paths, cohort, s, paths[r.order[0]].ts[s]);
    forall x ensures x in FanOut.Observed(Conservation.Members(r.order, paths), s) <==> CarriedAt(paths, cohort, s, x) {
      ObservedAre(r, paths, cohort, s, x);
    }
    hide FanOut.DispatchOf, CarriedAt;
    SpreadOfInstants(paths, cohort, s, FanOut.Observed(Conservation.Members(r.order, paths), s));
  }

  lemma SpreadOfInstants(paths: Paths, cohort: uint32, s: Stage, xs: seq<int>)
    requires xs != [] && forall x :: x in xs <==> CarriedAt(paths, cohort, s, x)
    ensures FurthestApart(paths, cohort, s, FanOut.SpreadOf(xs))
  {
    var lo, hi := FanOut.Lowest(xs), FanOut.Highest(xs);
    assert CarriedAt(paths, cohort, s, lo) && CarriedAt(paths, cohort, s, hi);
    var q :| WentThrough(paths, cohort, q) && paths[q].ts[s] == hi;
    var p :| WentThrough(paths, cohort, p) && paths[p].ts[s] == lo;
    assert paths[q].ts[s] as int - paths[p].ts[s] == hi - lo;
    forall a, b | WentThrough(paths, cohort, a) && WentThrough(paths, cohort, b)
      ensures paths[a].ts[s] as int - paths[b].ts[s] <= hi - lo
    {
      assert CarriedAt(paths, cohort, s, paths[a].ts[s]) && CarriedAt(paths, cohort, s, paths[b].ts[s]);
    }
  }

  /** Two requests are listed if and only if two went through. */
  lemma TwoListed(r: FanOut.CohortDispatch, paths: Paths, cohort: uint32)
    requires FanOut.DispatchOf(r, paths, cohort)
    ensures |r.order| >= 2 <==> TwoWentThrough(paths, cohort)
  {
    hide FanOut.Observed, FanOut.SpreadOf;
    if |r.order| >= 2 {
      assert r.order[0] in r.order && r.order[1] in r.order && Before(r.order[0], r.order[1]);
      assert WentThrough(paths, cohort, r.order[0]) && WentThrough(paths, cohort, r.order[1]);
    }
    if TwoWentThrough(paths, cohort) {
      var q, p :| q != p && WentThrough(paths, cohort, q) && WentThrough(paths, cohort, p);
      assert q in r.order && p in r.order;
    }
  }

  /** The reports checkAdapterDispatch makes: one per cohort. */
  ghost predicate Reports(paths: Paths, cohorts: map<uint32, FanOut.CohortDispatch>) {
    cohorts.Keys == Cohorts(paths) && forall c :: c in cohorts ==> FanOut.DispatchOf(cohorts[c], paths, c)
  }

  /**
   A cohort is named as having left together if and only if its members arrived at least 20
   microseconds apart and were dispatched within less than a quarter of that.
   */
  lemma LeftTogetherExactly(exp: Expectation, paths: Paths, cohorts: map<uint32, FanOut.CohortDispatch>, cohort: uint32)
    requires Reports(paths, cohorts)
    ensures FanOut.AdapterDefect(exp, paths, cohorts, LeftTogether(cohort)) <==> ArrivedApartLeftTogether(paths, cohort)
  {
    hide FanOut.Observed, FanOut.SpreadOf, FurthestApart, TwoWentThrough;
    if cohort in cohorts {
      var r := cohorts[cohort];
      TwoListed(r, paths, cohort);
      if |r.order| >= 2 {
        SpreadIsFurthest(r, paths, cohort, ADAPTER_RECV);
        SpreadIsFurthest(r, paths, cohort, ADAPTER_DISPATCH);
        OnlySpreads(paths, cohort, r.arrivals, r.dispatches);
      }
    } else {
      NobodyThrough(paths, cohort);
    }
  }

  lemma OnlySpreads(paths: Paths, cohort: uint32, arrivals: int, dispatches: int)
    requires FurthestApart(paths, cohort, ADAPTER_RECV, arrivals) && TwoWentThrough(paths, cohort)
    requires FurthestApart(paths, cohort, ADAPTER_DISPATCH, dispatches)
    ensures ArrivedApartLeftTogether(paths, cohort) <==> arrivals >= 20_000 && 4 * dispatches < arrivals
  {
    hide FurthestApart, TwoWentThrough;
    if ArrivedApartLeftTogether(paths, cohort) {
      var a, d :| FurthestApart(paths, cohort, ADAPTER_RECV, a) && FurthestApart(paths, cohort, ADAPTER_DISPATCH, d)
                  && a >= 20_000 && 4 * d < a;
      FurthestIsOne(paths, cohort, ADAPTER_RECV, a, arrivals);
      FurthestIsOne(paths, cohort, ADAPTER_DISPATCH, d, dispatches);
    }
  }

  lemma NobodyThrough(paths: Paths, cohort: uint32)
    requires cohort !in Cohorts(paths)
    ensures !TwoWentThrough(paths, cohort)
  {
  }

  /** An adapter that dispatches every member the same time after it arrived is never named. */
  lemma SameDelayIsNotNamed(exp: Expectation, paths: Paths, cohorts: map<uint32, FanOut.CohortDispatch>, cohort: uint32,
                            delay: int)
    requires Reports(paths, cohorts)
    requires forall q :: WentThrough(paths, cohort, q) ==>
               paths[q].ts[ADAPTER_DISPATCH] == paths[q].ts[ADAPTER_RECV] as int + delay
    ensures !FanOut.AdapterDefect(exp, paths, cohorts, LeftTogether(cohort))
  {
    hide FanOut.AdapterDefect, Reports, FurthestApart, TwoWentThrough;
    LeftTogetherExactly(exp, paths, cohorts, cohort);
    forall a, d | FurthestApart(paths, cohort, ADAPTER_RECV, a) && FurthestApart(paths, cohort, ADAPTER_DISPATCH, d)
      ensures a <= d
    {
      DelayKeepsSpread(paths, cohort, delay, a, d);
    }
  }

  lemma DelayKeepsSpread(paths: Paths, cohort: uint32, delay: int, a: int, d: int)
    requires FurthestApart(paths, cohort, ADAPTER_RECV, a) && FurthestApart(paths, cohort, ADAPTER_DISPATCH, d)
    requires forall q :: WentThrough(paths, cohort, q) ==>
               paths[q].ts[ADAPTER_DISPATCH] == paths[q].ts[ADAPTER_RECV] as int + delay
    ensures a <= d
  {
    var q, r :| WentThrough(paths, cohort, q) && WentThrough(paths, cohort, r)
                && paths[q].ts[ADAPTER_RECV] as int - paths[r].ts[ADAPTER_RECV] == a;
    assert paths[q].ts[ADAPTER_DISPATCH] as int - paths[r].ts[ADAPTER_DISPATCH] == a;
  }

  /** One that lets members go together who arrived 20 microseconds apart or more always is. */
  lemma JoiningIsNamed(exp: Expectation, paths: Paths, cohorts: map<uint32, FanOut.CohortDispatch>, cohort: uint32,
                       q: LogicalRequest, r: LogicalRequest)
    requires Reports(paths, cohorts) && WentThrough(paths, cohort, q) && WentThrough(paths, cohort, r)
    requires paths[q].ts[ADAPTER_RECV] as int - paths[r].ts[ADAPTER_RECV] >= 20_000
    requires forall p :: WentThrough(paths, cohort, p) ==>
             paths[p].ts[ADAPTER_DISPATCH] == paths[q].ts[ADAPTER_DISPATCH]
    ensures FanOut.AdapterDefect(exp, paths, cohorts, LeftTogether(cohort))
  {
    hide FanOut.AdapterDefect, FanOut.DispatchOf;
    LeftTogetherExactly(exp, paths, cohorts, cohort);
    assert TwoWentThrough(paths, cohort);
    assert cohort in cohorts;
    FurthestExists(paths, cohorts[cohort], cohort, q, ADAPTER_RECV);
    var a :| FurthestApart(paths, cohort, ADAPTER_RECV, a);
    assert paths[q].ts[ADAPTER_RECV] as int - paths[r].ts[ADAPTER_RECV] <= a;
    assert paths[q].ts[ADAPTER_DISPATCH] as int - paths[q].ts[ADAPTER_DISPATCH] == 0;
    assert FurthestApart(paths, cohort, ADAPTER_DISPATCH, 0);
  }

  lemma FurthestExists(paths: Paths, r: FanOut.CohortDispatch, cohort: uint32, q: LogicalRequest, s: Stage)
    requires FanOut.DispatchOf(r, paths, cohort) && (s == ADAPTER_RECV || s == ADAPTER_DISPATCH)
    requires WentThrough(paths, cohort, q)
    ensures exists x :: FurthestApart(paths, cohort, s, x)
  {
    hide FurthestApart, FanOut.Observed, FanOut.SpreadOf;
    assert q in r.order;
    SpreadIsFurthest(r, paths, cohort, s);
  }

  /** A member is named if and only if it waited longer than the bound, where the run sets one. */
  lemma WaitNamedExactly(exp: Expectation, paths: Paths, cohorts: map<uint32, FanOut.CohortDispatch>, q: LogicalRequest)
    ensures FanOut.AdapterDefect(exp, paths, cohorts, WaitExceeds(q)) <==>
              && WentThrough(paths, q.cohort, q) && exp.maxAdapterDispatchWait > 0
              && paths[q].ts[ADAPTER_DISPATCH] as int > paths[q].ts[ADAPTER_RECV] as int + exp.maxAdapterDispatchWait
  {
  }

  /**
   What a pass says of the adapter of an A=off cell: no cohort arrived apart and left together,
   and where the run bounds the wait, no member waited longer.
   */
  lemma PassMeansOnArrival(exp: Expectation, paths: Paths, v: V.Verdict)
    requires exp.cell in {F00, F01, F00Seq} && V.Judges(exp, paths, v) && v.passed
    ensures forall c :: !ArrivedApartLeftTogether(paths, c)
    ensures exp.maxAdapterDispatchWait > 0 ==> forall q: LogicalRequest :: WentThrough(paths, q.cohort, q) ==>
              paths[q].ts[ADAPTER_DISPATCH] as int <= paths[q].ts[ADAPTER_RECV] as int + exp.maxAdapterDispatchWait
  {
    hide V.PathsJudged, V.ExecutionsJudged, V.ConservationJudged, V.FanOutJudged, Diagnoses, ArrivedApartLeftTogether,
         FanOut.AdapterDefect, FanOut.DispatchOf;
    NothingHidden(exp, paths, v);
    assert Reports(paths, v.cohorts.dispatches);
    assert forall d :: !FanOut.AdapterDefect(exp, paths, v.cohorts.dispatches, d) by {
      forall d ensures !FanOut.AdapterDefect(exp, paths, v.cohorts.dispatches, d) { assert d !in v.cohorts.adapter; }
    }
    hide V.Judges;
    forall c: uint32 ensures !ArrivedApartLeftTogether(paths, c) {
      LeftTogetherExactly(exp, paths, v.cohorts.dispatches, c);
    }
    forall q: LogicalRequest | WentThrough(paths, q.cohort, q) && exp.maxAdapterDispatchWait > 0
      ensures paths[q].ts[ADAPTER_DISPATCH] as int <= paths[q].ts[ADAPTER_RECV] as int + exp.maxAdapterDispatchWait
    {
      WaitNamedExactly(exp, paths, v.cohorts.dispatches, q);
    }
  }

  /** A passing verdict hides no path from any check. */
  lemma NothingHidden(exp: Expectation, paths: Paths, v: V.Verdict)
    requires V.Judges(exp, paths, v) && v.passed
    ensures Without(paths, v.failures.Keys) == paths && v.failures == map[]
  {
    hide V.PathsJudged, V.AdapterJudged, V.ExecutionsJudged, V.ConservationJudged, V.FanOutJudged, Diagnoses;
    forall c ensures c !in v.failures {
      assert FormationFailed(c) !in v.cohorts.formation;
    }
    assert v.failures == map[];
  }
}
