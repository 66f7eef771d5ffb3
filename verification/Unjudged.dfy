/**
 What no check reads. A joined path keeps each process's own status beside the one it settles
 on (internal/validate/validate.go, Joined.StatusBySource); two joins that differ in nothing
 else get the same verdicts.
 */
module Unjudged {
  import opened Identity
  import opened Schema
  import opened Wire
  import opened Chains
  import opened Joins
  import opened Checks
  import opened Aggregation
  import opened Verdict
  import Executions
  import Conservation
  import FanOut

  /** The paths differ at most in what each process said of the outcome. */
  ghost predicate Alike(j: Joined, k: Joined) {
    k == j.(statusBySource := k.statusBySource)
  }

  ghost predicate SamePaths(p: Paths, r: Paths) {
    p.Keys == r.Keys && forall q :: q in p ==> Alike(p[q], r[q])
  }

  ghost predicate SameMembers(a: seq<Joined>, b: seq<Joined>) {
    |a| == |b| && forall i :: 0 <= i < |a| ==> Alike(a[i], b[i])
  }

  lemma SameWithout(p: Paths, r: Paths, hidden: set<uint32>)
    requires SamePaths(p, r)
    ensures SamePaths(Without(p, hidden), Without(r, hidden))
  {
  }

  /* ---- Requests ---- */

  lemma SameIntegrityAt(p: Paths, r: Paths, q: LogicalRequest, d: Defect)
    requires SamePaths(p, r)
    ensures IntegrityAt(p, q, d) <==> IntegrityAt(r, q, d)
  {
    assert q in p ==> Alike(p[q], r[q]);
  }

  lemma SameIntegrity(exp: Expectation, p: Paths, r: Paths, d: Defect)
    requires SamePaths(p, r)
    ensures IntegrityDefect(exp, p, d) <==> IntegrityDefect(exp, r, d)
  {
    assert p.Keys == r.Keys;
    hide Scheduled, IntegrityAt, SamePaths;
    forall q ensures IntegrityAt(p, q, d) <==> IntegrityAt(r, q, d) {
      SameIntegrityAt(p, r, q, d);
    }
  }

  lemma SameRuleAt(exp: Expectation, rule: Rule, j: Joined, k: Joined, d: Defect)
    requires Alike(j, k)
    ensures RuleAt(exp, rule, j, d) <==> RuleAt(exp, rule, k, d)
  {
    hide OwnedStages, SourcesDiffer;
  }

  lemma SameRule(exp: Expectation, rule: Rule, p: Paths, r: Paths, d: Defect)
    requires SamePaths(p, r)
    ensures RuleDefect(exp, rule, p, d) <==> RuleDefect(exp, rule, r, d)
  {
    hide RuleAt;
    forall q | q in p ensures RuleAt(exp, rule, p[q], d) <==> RuleAt(exp, rule, r[q], d) {
      SameRuleAt(exp, rule, p[q], r[q], d);
    }
  }

  /* ---- Cohorts ---- */

  lemma SameSomeMember(p: Paths, r: Paths, cohort: uint32)
    requires SamePaths(p, r)
    ensures SomeMember(p, cohort, Held) <==> SomeMember(r, cohort, Held)
    ensures SomeMember(p, cohort, Absent) <==> SomeMember(r, cohort, Absent)
  {
    forall q | q in p ensures (Held(p[q]) <==> Held(r[q])) && (Absent(p[q]) <==> Absent(r[q])) {
      assert Alike(p[q], r[q]);
    }
  }

  lemma SameDiagnoses(failures: Failures, exp: Expectation, p: Paths, r: Paths)
    requires SamePaths(p, r) && Diagnoses(failures, exp, p)
    ensures Diagnoses(failures, exp, r)
  {
    forall c: uint32 ensures NeverFormed(exp, p, c) <==> NeverFormed(exp, r, c) {
      SameSomeMember(p, r, c);
    }
    forall c | c in failures ensures Diagnosis(failures[c], r, c) {
      assert Diagnosis(failures[c], p, c);
      assert forall q :: q in p ==> Alike(p[q], r[q]);
    }
  }

  lemma SameAggregation(exp: Expectation, p: Paths, r: Paths, d: Defect)
    requires SamePaths(p, r)
    ensures AggregationDefect(exp, p, d) <==> AggregationDefect(exp, r, d)
  {
    hide SamePaths, EnvelopeIds, Values, Owners, Cohorts;
    match d {
      case EnvelopeCardinality(c) => SameSets(p, r, c, 1, 0);
      case StageDisagreement(c, s) => SameSets(p, r, c, s, 0);
      case SharedEnvelope(id) => SameSets(p, r, 0, 1, id);
      case _ =>
    }
  }

  lemma SameSets(p: Paths, r: Paths, c: uint32, s: Stage, id: uint64)
    requires SamePaths(p, r)
    ensures Cohorts(p) == Cohorts(r) && EnvelopeIds(p, c) == EnvelopeIds(r, c)
    ensures Values(p, c, s) == Values(r, c, s) && Owners(p, id) == Owners(r, id)
  {
    assert forall q :: q in p ==> Alike(p[q], r[q]);
  }

  lemma SameExecuted(p: Paths, r: Paths, w: multiset<Executions.Window>, c: uint32)
    requires SamePaths(p, r) && Executions.ListsExecutions(w, p, c)
    ensures Executions.ListsExecutions(w, r, c)
  {
    assert forall q :: q in p ==> Alike(p[q], r[q]);
  }

  lemma SameReport(p: Paths, r: Paths, orders: map<uint32, seq<Executions.Window>>,
                   layouts: map<uint32, Executions.Layout>,
                   defects: seq<Defect>)
    requires SamePaths(p, r) && Executions.Reported(p, Executions.Executing(p), orders, layouts, defects)
    ensures Executions.Reported(r, Executions.Executing(r), orders, layouts, defects)
  {
    hide Executions.LaidOut, Executions.NamedIn, Executions.ListsExecutions, Executions.ByStart;
    assert forall q :: q in p ==> Alike(p[q], r[q]);
    assert Executions.Executing(p) == Executions.Executing(r);
    forall c | c in orders ensures Executions.Ordered(orders[c], r, c) {
      assert Executions.Ordered(orders[c], p, c);
      SameExecuted(p, r, multiset(orders[c]), c);
    }
  }

  /* ---- Lists of members ---- */

  lemma SameMembersOf(order: seq<LogicalRequest>, p: Paths, r: Paths)
    requires SamePaths(p, r) && forall q :: q in order ==> q in p
    ensures SameMembers(Conservation.Members(order, p), Conservation.Members(order, r))
  {
    forall i | 0 <= i < |order| ensures Alike(p[order[i]], r[order[i]]) {
      assert order[i] in order;
    }
  }

  lemma {:induction false} SameObserved(a: seq<Joined>, b: seq<Joined>, s: Stage)
    requires SameMembers(a, b)
    ensures FanOut.Observed(a, s) == FanOut.Observed(b, s)
  {
    if a != [] {
      SameObserved(a[..|a| - 1], b[..|b| - 1], s);
      assert Alike(a[|a| - 1], b[|b| - 1]);
    }
  }

  lemma {:induction false} SameSubmissions(a: seq<Joined>, b: seq<Joined>)
    requires SameMembers(a, b)
    ensures FanOut.Submissions(a) == FanOut.Submissions(b)
  {
    if a != [] {
      SameSubmissions(a[..|a| - 1], b[..|b| - 1]);
      assert Alike(a[|a| - 1], b[|b| - 1]);
    }
  }

  lemma {:induction false} SameEvidence(a: seq<Joined>, b: seq<Joined>)
    requires SameMembers(a, b)
    ensures FanOut.FirstEvidence(a) == FanOut.FirstEvidence(b)
  {
    if a != [] {
      assert Alike(a[0], b[0]);
      SameEvidence(a[1..], b[1..]);
    }
  }

  lemma {:induction false} SameIntervals(a: seq<Joined>, b: seq<Joined>)
    requires SameMembers(a, b)
    ensures Conservation.Intervals(a) == Conservation.Intervals(b)
  {
    if a != [] {
      SameIntervals(a[..|a| - 1], b[..|b| - 1]);
      assert Alike(a[|a| - 1], b[|b| - 1]);
    }
  }

  lemma SameTimes(a: seq<Joined>, b: seq<Joined>, at: Conservation.Times)
    requires SameMembers(a, b) && Conservation.CohortTimes(a, at)
    ensures Conservation.CohortTimes(b, at)
  {
    forall s: Stage
      ensures Conservation.SomeCarry(a, s) <==> Conservation.SomeCarry(b, s)
      ensures s in at ==> Conservation.Pace(b, s, at[s])
    {
      SameCarriers(a, b, s);
      if s in at { SamePace(a, b, s, at[s]); }
    }
  }

  lemma SameCarriers(a: seq<Joined>, b: seq<Joined>, s: Stage)
    requires SameMembers(a, b)
    ensures Conservation.SomeCarry(a, s) <==> Conservation.SomeCarry(b, s)
  {
    assert forall i :: 0 <= i < |a| ==> Alike(a[i], b[i]);
  }

  lemma SamePace(a: seq<Joined>, b: seq<Joined>, s: Stage, t: int)
    requires SameMembers(a, b) && Conservation.Pace(a, s, t)
    ensures Conservation.Pace(b, s, t)
  {
    assert forall i :: 0 <= i < |a| ==> Alike(a[i], b[i]);
    var i :| 0 <= i < |a| && s in a[i].presence && a[i].ts[s] == t;
    assert s in b[i].presence && b[i].ts[s] == t;
  }

  /* ---- Reports on cohorts and releases ---- */

  lemma SameAccount(a: Conservation.CohortAccount, spans: seq<Span>, p: Paths, r: Paths, c: uint32)
    requires SamePaths(p, r) && Conservation.AccountOf(a, spans, p, c)
    ensures Conservation.AccountOf(a, spans, r, c)
  {
    hide Conservation.CohortTimes, Conservation.Intervals, Conservation.Total, Ascending;
    SameMembersOf(a.order, p, r);
    SameTimes(Conservation.Members(a.order, p), Conservation.Members(a.order, r), a.at);
    SameIntervals(Conservation.Members(a.order, p), Conservation.Members(a.order, r));
  }

  lemma SameResidual(exp: Expectation, spans: seq<Span>, p: Paths, r: Paths,
                     accounts: map<uint32, Conservation.CohortAccount>,
                     d: Defect)
    requires SamePaths(p, r)
    ensures Conservation.ConservationDefect(exp, spans, p, accounts, d) <==>
            Conservation.ConservationDefect(exp, spans, r, accounts, d)
  {
    hide Conservation.Total, Conservation.Complete, Conservation.Exceeds;
    if d.Residual? && d.q in p {
      assert Alike(p[d.q], r[d.q]);
      assert Conservation.TimesOf(p[d.q]) == Conservation.TimesOf(r[d.q]);
    }
  }

  lemma SameRelease(x: FanOut.Release, p: Paths, r: Paths, id: uint64)
    requires SamePaths(p, r) && FanOut.ReleaseOf(x, p, id)
    ensures FanOut.ReleaseOf(x, r, id)
  {
    hide FanOut.Observed, FanOut.Submissions, FanOut.FirstEvidence, FanOut.Chained, Ascending;
    assert forall q :: q in p ==> Alike(p[q], r[q]);
    SameMembersOf(x.order, p, r);
    var a, b := Conservation.Members(x.order, p), Conservation.Members(x.order, r);
    SameObserved(a, b, ADAPTER_DISPATCH);
    SameEvidence(a, b);
    SameSubmissions(a, b);
  }

  lemma SameDispatch(x: FanOut.CohortDispatch, p: Paths, r: Paths, c: uint32)
    requires SamePaths(p, r) && FanOut.DispatchOf(x, p, c)
    ensures FanOut.DispatchOf(x, r, c)
  {
    hide FanOut.Observed, Ascending;
    assert forall q :: q in p ==> Alike(p[q], r[q]);
    SameMembersOf(x.order, p, r);
    var a, b := Conservation.Members(x.order, p), Conservation.Members(x.order, r);
    SameObserved(a, b, ADAPTER_DISPATCH);
    SameObserved(a, b, ADAPTER_RECV);
  }

  lemma SameFanOutDefects(exp: Expectation, p: Paths, r: Paths, releases: map<uint64, FanOut.Release>, d: Defect)
    requires SamePaths(p, r)
    ensures FanOut.FanOutDefect(exp, p, releases, d) <==> FanOut.FanOutDefect(exp, r, releases, d)
  {
    hide FanOut.ReleaseDefect, FanOut.ForeignAt;
    SameForeign(p, r, d);
  }

  lemma SameForeign(p: Paths, r: Paths, d: Defect)
    requires SamePaths(p, r)
    ensures FanOut.ForeignAt(p, d) <==> FanOut.ForeignAt(r, d)
  {
    if d.ForeignDispatch? && d.q in p {
      assert Alike(p[d.q], r[d.q]);
    }
  }

  lemma SameAdapterDefects(exp: Expectation, p: Paths, r: Paths, cohorts: map<uint32, FanOut.CohortDispatch>, d: Defect)
    requires SamePaths(p, r)
    ensures FanOut.AdapterDefect(exp, p, cohorts, d) <==> FanOut.AdapterDefect(exp, r, cohorts, d)
  {
    hide FanOut.Collapsed;
    if d.WaitExceeds? && d.q in p {
      assert Alike(p[d.q], r[d.q]);
    }
  }

  /* ---- The verdict ---- */

  lemma SamePathFindings(exp: Expectation, p: Paths, r: Paths, v: Paths, x: Paths, f: PathFindings)
    requires SamePaths(p, r) && SamePaths(v, x) && PathsJudged(exp, p, v, f)
    ensures PathsJudged(exp, r, x, f)
  {
    hide SamePaths, IntegrityDefect, RuleDefect, ContaminationDefect;
    forall d: Defect
      ensures IntegrityDefect(exp, p, d) <==> IntegrityDefect(exp, r, d)
      ensures RuleDefect(exp, ClockRule, p, d) <==> RuleDefect(exp, ClockRule, r, d)
      ensures RuleDefect(exp, OwnershipRule, p, d) <==> RuleDefect(exp, OwnershipRule, r, d)
      ensures RuleDefect(exp, MembershipRule, v, d) <==> RuleDefect(exp, MembershipRule, x, d)
    {
      SameIntegrity(exp, p, r, d);
      SameRule(exp, ClockRule, p, r, d);
      SameRule(exp, OwnershipRule, p, r, d);
      SameRule(exp, MembershipRule, v, x, d);
    }
    if !exp.cell.UnknownCell? {
      SameTables(exp, p, r, v, x, Topology(exp.cell), Chain(exp.cell));
    }
  }

  lemma SameTables(exp: Expectation, p: Paths, r: Paths, v: Paths, x: Paths, topology: Option<set<Stage>>,
                   chain: Option<seq<Span>>)
    requires SamePaths(p, r) && SamePaths(v, x) && topology.Some? && chain.Some?
    ensures forall d :: RuleDefect(exp, PresenceRule(topology.value), v, d) <==>
            RuleDefect(exp, PresenceRule(topology.value), x, d)
    ensures forall d :: RuleDefect(exp, OrderingRule(chain.value), p, d) <==>
            RuleDefect(exp, OrderingRule(chain.value), r, d)
  {
    hide SamePaths, RuleDefect;
    forall d: Defect
      ensures RuleDefect(exp, PresenceRule(topology.value), v, d) <==>
              RuleDefect(exp, PresenceRule(topology.value), x, d)
      ensures RuleDefect(exp, OrderingRule(chain.value), p, d) <==> RuleDefect(exp, OrderingRule(chain.value), r, d)
    {
      SameRule(exp, PresenceRule(topology.value), v, x, d);
      SameRule(exp, OrderingRule(chain.value), p, r, d);
    }
  }

  lemma SameAdapter(exp: Expectation, v: Paths, x: Paths, f: CohortFindings)
    requires SamePaths(v, x) && AdapterJudged(exp, v, f)
    ensures AdapterJudged(exp, x, f)
  {
    hide FanOut.DispatchOf, FanOut.AdapterDefect, FanOut.FanOutDefect;
    assert Cohorts(v) == Cohorts(x);
    forall c | c in f.dispatches && FanOut.DispatchOf(f.dispatches[c], v, c)
      ensures FanOut.DispatchOf(f.dispatches[c], x, c)
    {
      SameDispatch(f.dispatches[c], v, x, c);
    }
    forall d: Defect
      ensures FanOut.AdapterDefect(exp, v, f.dispatches, d) <==> FanOut.AdapterDefect(exp, x, f.dispatches, d)
    {
      SameAdapterDefects(exp, v, x, f.dispatches, d);
    }
  }

  lemma SameFanOut(exp: Expectation, v: Paths, x: Paths, f: CohortFindings)
    requires SamePaths(v, x) && FanOutJudged(exp, v, f)
    ensures FanOutJudged(exp, x, f)
  {
    hide FanOut.ReleaseOf, FanOut.AdapterDefect, FanOut.FanOutDefect;
    assert forall q :: q in v ==> Alike(v[q], x[q]);
    forall id | id in f.releases && FanOut.ReleaseOf(f.releases[id], v, id)
      ensures FanOut.ReleaseOf(f.releases[id], x, id)
    {
      SameRelease(f.releases[id], v, x, id);
    }
    forall d: Defect
      ensures FanOut.FanOutDefect(exp, v, f.releases, d) <==> FanOut.FanOutDefect(exp, x, f.releases, d)
    {
      SameFanOutDefects(exp, v, x, f.releases, d);
    }
  }

  lemma SameConservation(exp: Expectation, p: Paths, r: Paths, f: CohortFindings)
    requires SamePaths(p, r) && ConservationJudged(exp, p, f)
    ensures ConservationJudged(exp, r, f)
  {
    if !exp.cell.UnknownCell? {
      var spans := Chain(exp.cell).value;
      hide Conservation.AccountOf, Conservation.ConservationDefect, Chain;
      forall q | q in r && Conservation.InFlight(r[q]) ensures q.cohort in f.accounts {
        assert Alike(p[q], r[q]);
      }
      forall c | c in f.accounts ensures Conservation.AccountOf(f.accounts[c], spans, r, c) {
        SameAccount(f.accounts[c], spans, p, r, c);
      }
      forall d: Defect
        ensures Conservation.ConservationDefect(exp, spans, p, f.accounts, d) <==>
                Conservation.ConservationDefect(exp, spans, r, f.accounts, d)
      {
        SameResidual(exp, spans, p, r, f.accounts, d);
      }
    }
  }

  lemma SameExecutions(exp: Expectation, p: Paths, r: Paths, f: CohortFindings)
    requires SamePaths(p, r) && ExecutionsJudged(exp, p, f)
    ensures ExecutionsJudged(exp, r, f)
  {
    hide Executions.Reported;
    if !exp.cell.VectorizesCompute() {
      var orders :| Executions.Reported(p, Executions.Executing(p), orders, f.layouts, f.execution);
      SameReport(p, r, orders, f.layouts, f.execution);
    }
  }

  lemma SameCohortFindings(exp: Expectation, p: Paths, r: Paths, v: Paths, x: Paths, failures: Failures,
                           f: CohortFindings)
    requires SamePaths(p, r) && SamePaths(v, x) && CohortsJudged(exp, p, v, failures, f)
    ensures CohortsJudged(exp, r, x, failures, f)
  {
    hide SamePaths, AggregationDefect, AdapterJudged, ExecutionsJudged, ConservationJudged, FanOutJudged;
    forall d: Defect ensures AggregationDefect(exp, v, d) <==> AggregationDefect(exp, x, d) {
      SameAggregation(exp, v, x, d);
    }
    SameAdapter(exp, v, x, f);
    SameExecutions(exp, p, r, f);
    SameConservation(exp, p, r, f);
    SameFanOut(exp, v, x, f);
  }

  /** Paths that differ only in what each process said of the outcome get the same verdicts. */
  lemma SourceStatusesUnjudged(exp: Expectation, p: Paths, r: Paths, v: Verdict)
    requires SamePaths(p, r)
    ensures Judges(exp, p, v) <==> Judges(exp, r, v)
  {
    hide SamePaths, Alike;
    assert SamePaths(r, p) by { SameBack(p, r); }
    if Judges(exp, p, v) { VerdictCarries(exp, p, r, v); }
    if Judges(exp, r, v) { VerdictCarries(exp, r, p, v); }
  }

  lemma SameBack(p: Paths, r: Paths)
    requires SamePaths(p, r)
    ensures SamePaths(r, p)
  {
    forall q | q in r ensures Alike(r[q], p[q]) {
      assert Alike(p[q], r[q]);
    }
  }

  lemma VerdictCarries(exp: Expectation, p: Paths, r: Paths, v: Verdict)
    requires SamePaths(p, r) && Judges(exp, p, v)
    ensures Judges(exp, r, v)
  {
    hide SamePaths, Without, Diagnoses, PathsJudged, CohortsJudged;
    var hidden := v.failures.Keys;
    SameWithout(p, r, hidden);
    SameDiagnoses(v.failures, exp, p, r);
    SamePathFindings(exp, p, r, Without(p, hidden), Without(r, hidden), v.paths);
    SameCohortFindings(exp, p, r, Without(p, hidden), Without(r, hidden), v.failures, v.cohorts);
  }
}
