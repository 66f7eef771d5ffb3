/**
 The whole judgment (internal/validate/validate.go, Validate), and what a run that passes it
 is known to have done.
 */
module Verdict {
  import opened Identity
  import opened Schema
  import opened Chains
  import opened Joins
  import opened Checks
  import opened Aggregation
  import Executions
  import Conservation
  import FanOut

  /** What the checks of single paths found. */
  datatype PathFindings = PathFindings(
    integrity: seq<Defect>,
    clock: seq<Defect>,
    presence: seq<Defect>,
    ownership: seq<Defect>,
    ordering: seq<Defect>,
    membership: seq<Defect>,
    contamination: seq<Defect>)
  {
    predicate None() {
      integrity == clock == presence == ownership == ordering == membership == contamination == []
    }
  }

  /** What the checks of cohorts and envelopes found, with the reports beside them. */
  datatype CohortFindings = CohortFindings(
    aggregation: seq<Defect>,
    formation: seq<Defect>,
    adapter: seq<Defect>,
    conservation: seq<Defect>,
    execution: seq<Defect>,
    fanOut: seq<Defect>,
    dispatches: map<uint32, FanOut.CohortDispatch>,
    layouts: map<uint32, Executions.Layout>,
    accounts: map<uint32, Conservation.CohortAccount>,
    releases: map<uint64, FanOut.Release>)
  {
    predicate None() {
      aggregation == formation == adapter == conservation == execution == fanOut == []
    }
  }

  datatype Verdict = Verdict(failures: Failures, paths: PathFindings, cohorts: CohortFindings, passed: bool)

  /** f names exactly what the path checks find; `visible` are the paths of the cohorts that formed. */
  ghost predicate PathsJudged(exp: Expectation, paths: Paths, visible: Paths, f: PathFindings) {
    && (forall d :: d in f.integrity <==> IntegrityDefect(exp, paths, d))
    && (forall d :: d in f.clock <==> RuleDefect(exp, ClockRule, paths, d))
    && (forall d :: d in f.ownership <==> RuleDefect(exp, OwnershipRule, paths, d))
    && (forall d :: d in f.membership <==> RuleDefect(exp, MembershipRule, visible, d))
    && (forall d :: d in f.contamination <==> ContaminationDefect(exp, d))
    && if exp.cell.UnknownCell? then f.presence == f.ordering == [NoChain]
       else
         && (forall d :: d in f.presence <==> RuleDefect(exp, PresenceRule(Topology(exp.cell).value), visible, d))
         && (forall d :: d in f.ordering <==> RuleDefect(exp, OrderingRule(Chain(exp.cell).value), paths, d))
  }

  /** f says what the cohort checks find. */
  ghost predicate CohortsJudged(exp: Expectation, paths: Paths, visible: Paths, failures: Failures, f: CohortFindings) {
    && (forall d :: d in f.formation <==> d.FormationFailed? && d.cohort in failures)
    && (forall d :: d in f.aggregation <==> AggregationDefect(exp, visible, d))
    && AdapterJudged(exp, visible, f) && ExecutionsJudged(exp, paths, f)
    && ConservationJudged(exp, paths, f) && FanOutJudged(exp, visible, f)
  }

  ghost predicate AdapterJudged(exp: Expectation, visible: Paths, f: CohortFindings) {
    if exp.cell.UnknownCell? then f.adapter == [NoChain]
    else if exp.cell == D0 || exp.cell.AggregatesEnvelopes() then f.adapter == []
    else
      && f.dispatches.Keys == Cohorts(visible)
      && (forall c :: c in f.dispatches ==> FanOut.DispatchOf(f.dispatches[c], visible, c))
      && (forall d :: d in f.adapter <==> FanOut.AdapterDefect(exp, visible, f.dispatches, d))
  }

  ghost predicate ExecutionsJudged(exp: Expectation, paths: Paths, f: CohortFindings) {
    if exp.cell.VectorizesCompute() then f.execution == [] && f.layouts == map[]
    else exists orders :: Executions.Reported(paths, Executions.Executing(paths), orders, f.layouts, f.execution)
  }

  ghost predicate ConservationJudged(exp: Expectation, paths: Paths, f: CohortFindings) {
    if exp.cell.UnknownCell? then f.conservation == [NoChain]
    else
      && (forall c :: c in f.accounts ==> Conservation.AccountOf(f.accounts[c], Chain(exp.cell).value, paths, c))
      && (forall q :: q in paths && Conservation.InFlight(paths[q]) ==> q.cohort in f.accounts)
      && (forall d :: d in f.conservation <==>
            Conservation.ConservationDefect(exp, Chain(exp.cell).value, paths, f.accounts, d))
  }

  ghost predicate FanOutJudged(exp: Expectation, visible: Paths, f: CohortFindings) {
    if exp.cell.UnknownCell? then f.fanOut == [NoChain]
    else if exp.cell == D0 then f.fanOut == []
    else if exp.cell.AggregatesEnvelopes() && exp.maxDispatchSkew <= 0 then f.fanOut == [NoBound]
    else
      && (forall id :: id in f.releases <==> id != 0 && exists q :: q in visible && visible[q].envelopeID == id)
      && (forall id :: id in f.releases ==> FanOut.ReleaseOf(f.releases[id], visible, id))
      && (forall d :: d in f.fanOut <==> FanOut.FanOutDefect(exp, visible, f.releases, d))
  }

  /** The verdict Validate gives on these paths. */
  ghost predicate Judges(exp: Expectation, paths: Paths, v: Verdict) {
    && Diagnoses(v.failures, exp, paths)
    && PathsJudged(exp, paths, Without(paths, v.failures.Keys), v.paths)
    && CohortsJudged(exp, paths, Without(paths, v.failures.Keys), v.failures, v.cohorts)
    && (v.passed <==> v.paths.None() && v.cohorts.None())
  }

  method FormationDefects(failures: Failures) returns (defects: seq<Defect>)
    ensures forall d :: d in defects <==> d.FormationFailed? && d.cohort in failures
  {
    defects := [];
    var left := failures.Keys;
    while left != {}
      invariant left <= failures.Keys
      invariant forall d :: d in defects <==> d.FormationFailed? && d.cohort in failures && d.cohort !in left
      decreases |left|
    {
      var c :| c in left;
      defects := defects + [FormationFailed(c)];
      left := left - {c};
    }
  }

  /** The topology and chain checks, which refuse a cell they do not know. */
  method CheckTables(exp: Expectation, paths: Paths, visible: Paths)
    returns (presence: seq<Defect>, ordering: seq<Defect>)
    ensures if exp.cell.UnknownCell? then presence == ordering == [NoChain]
            else
              && (forall d :: d in presence <==> RuleDefect(exp, PresenceRule(Topology(exp.cell).value), visible, d))
              && (forall d :: d in ordering <==> RuleDefect(exp, OrderingRule(Chain(exp.cell).value), paths, d))
  {
    hide RuleDefect;
    if Topology(exp.cell).None? {
      return [NoChain], [NoChain];
    }
    presence := CheckPaths(exp, PresenceRule(Topology(exp.cell).value), visible);
    ordering := CheckPaths(exp, OrderingRule(Chain(exp.cell).value), paths);
  }

  method JudgePaths(exp: Expectation, paths: Paths, visible: Paths) returns (f: PathFindings)
    ensures PathsJudged(exp, paths, visible, f)
  {
    hide RuleDefect, IntegrityDefect, ContaminationDefect, Chain, Topology;
    var integrity := CheckRecordIntegrity(exp, paths);
    var clock := CheckPaths(exp, ClockRule, paths);
    var presence, ordering := CheckTables(exp, paths, visible);
    var ownership := CheckPaths(exp, OwnershipRule, paths);
    var membership := CheckPaths(exp, MembershipRule, visible);
    var contamination := CheckContamination(exp);
    f := PathFindings(integrity, clock, presence, ownership, ordering, membership, contamination);
  }

  method JudgeCohorts(exp: Expectation, paths: Paths, visible: Paths, failures: Failures) returns (f: CohortFindings)
    ensures CohortsJudged(exp, paths, visible, failures, f)
  {
    hide AggregationDefect, Chain, Executions.OneAtATime, Executions.ForwardPaths, Executions.ClearStarts,
         Executions.Reported, Conservation.AccountOf, Conservation.ConservationDefect, Conservation.InFlight,
         FanOut.ReleaseOf, FanOut.FanOutDefect, FanOut.AdapterDefect, FanOut.DispatchOf;
    var aggregation := CheckAggregation(exp, visible);
    var formation := FormationDefects(failures);
    var spreads, adapter := FanOut.CheckAdapterDispatch(exp, visible);
    var accounts, conservation := Conservation.CheckConservation(exp, paths);
    var layouts, execution, orders := Executions.CheckExecutions(exp, paths);
    var releases, fanOut := FanOut.CheckFanOut(exp, visible);
    f := CohortFindings(aggregation, formation, adapter, conservation, execution, fanOut, spreads, layouts, accounts,
                        releases);
  }

  /** Validate. */
  method Validate(exp: Expectation, records: seq<Decoded>) returns (v: Verdict)
    ensures Judges(exp, JoinOf(records), v)
  {
    hide PathsJudged, CohortsJudged, Diagnoses;
    var paths := Join(records);
    var failures := FindFormationFailures(exp, paths);
    var visible := WithoutCohorts(paths, failures.Keys);
    var f := JudgePaths(exp, paths, visible);
    var c := JudgeCohorts(exp, paths, visible, failures);
    v := Verdict(failures, f, c, f.None() && c.None());
  }
}
