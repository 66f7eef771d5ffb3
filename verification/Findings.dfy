/**
 What a verdict names, finding by finding, on the records themselves (internal/validate/validate.go,
 internal/validate/aggregation.go): for every run and every cell, the exact condition on the
 records under which each check names each defect.
 */
module Findings {
  import opened Identity
  import opened Schema
  import opened Sorting
  import opened Chains
  import opened Joins
  import opened PathMeaning
  import opened Checks
  import opened Aggregation
  import opened Verdict
  import Conservation
  import Executions
  import FanOut

  /* ---- Who should write what ---- */

  /** The cell's path visits stage s. */
  predicate Visits(cell: Cell, s: Stage) {
    if cell == D0 then s in {1, 2, 4, 8, 9, 10, 15} else !cell.UnknownCell?
  }

  /** The process that owns stage s: 1 the load generator, 2 the proxy, 3 the adapter, 4 the backend. */
  function OwnerOf(cell: Cell, s: Stage): Emitter {
    match s
    case 1 => 1
    case 2 => 1
    case 3 => 2
    case 4 => if cell in {F10, F11D, F11P} then 2 else 1
    case 5 => 2
    case 6 => 3
    case 7 => 3
    case 8 => 4
    case 9 => 4
    case 10 => 4
    case 11 => 3
    case 12 => 3
    case 13 => 2
    case 14 => 2
    case _ => 1
  }

  lemma TopologyIs(cell: Cell, s: Stage)
    ensures Topology(cell).None? <==> cell.UnknownCell?
    ensures Topology(cell).Some? ==> (s in Topology(cell).value <==> Visits(cell, s))
  {
  }

  lemma OwnedExactly(cell: Cell, e: Emitter, s: Stage)
    ensures s in OwnedStages(cell, e) <==> Visits(cell, s) && e == OwnerOf(cell, s)
  {
    TopologyIs(cell, s);
    GroupIs(e, s);
    assert Topology(cell).Some? && e == SealOwner(cell) ==> GroupOf(e) != {};
    hide Topology, Visits, GroupOf;
  }

  /** A process's own stages, wherever the seal is. */
  lemma GroupIs(e: Emitter, s: Stage)
    ensures s in GroupOf(e) <==> s != COHORT_SEAL && e == OwnerOf(D0, s)
    ensures GroupOf(e) == {} <==> !(1 <= e <= 4)
  {
    assert SCHED in LOADGEN_STAGES && PROXY_RECV in PROXY_STAGES && ADAPTER_RECV in ADAPTER_STAGES
           && QUEUE_START in TRITON_STAGES;
  }

  /** What the proxy and the adapter own of the shared path. */
  lemma SharedOwned(cell: Cell, s: Stage)
    requires cell != D0 && !cell.UnknownCell?
    ensures s in OwnedStages(cell, EMITTER_PROXY) <==>
            s in {3, 5, 13, 14} || (s == 4 && cell in {F10, F11D, F11P})
    ensures s in OwnedStages(cell, EMITTER_ADAPTER) <==> s in {6, 7, 11, 12}
  {
    hide OwnedStages;
    OwnedExactly(cell, EMITTER_PROXY, s);
    OwnedExactly(cell, EMITTER_ADAPTER, s);
  }

  /* ---- Cohorts that never formed ---- */

  /** At A=on: a member reached the proxy and was never sealed, and another never reached it. */
  ghost predicate Lost(exp: Expectation, records: seq<Decoded>, cohort: uint32) {
    && exp.cell in {F10, F11D, F11P}
    && (exists q :: Recorded(records, q) && q.cohort == cohort
          && SomeCarries(records, q, PROXY_RECV) && !SomeCarries(records, q, COHORT_SEAL))
    && (exists q :: Recorded(records, q) && q.cohort == cohort && !SomeCarries(records, q, PROXY_RECV))
  }

  lemma HeldOnRecords(records: seq<Decoded>, q: LogicalRequest)
    requires q in JoinOf(records)
    ensures var j := JoinOf(records)[q];
            && (Held(j) <==> SomeCarries(records, q, PROXY_RECV) && !SomeCarries(records, q, COHORT_SEAL))
            && (Absent(j) <==> !SomeCarries(records, q, PROXY_RECV))
  {
    hide JoinOf, SomeCarries;
    StagePresent(records, q, PROXY_RECV);
    StagePresent(records, q, COHORT_SEAL);
  }

  lemma NeverFormedOnRecords(exp: Expectation, records: seq<Decoded>, cohort: uint32)
    ensures NeverFormed(exp, JoinOf(records), cohort) <==> Lost(exp, records, cohort)
  {
    hide JoinOf, SomeCarries, Held, Absent;
    var paths := JoinOf(records);
    forall q ensures q in paths <==> Recorded(records, q) {
      InJoin(records, q);
    }
    forall q | q in paths
      ensures Held(paths[q]) <==> SomeCarries(records, q, PROXY_RECV) && !SomeCarries(records, q, COHORT_SEAL)
      ensures Absent(paths[q]) <==> !SomeCarries(records, q, PROXY_RECV)
    {
      HeldOnRecords(records, q);
    }
  }

  /** A cohort is named as never formed if and only if it was lost. */
  lemma FormationExactly(exp: Expectation, records: seq<Decoded>, v: Verdict, cohort: uint32)
    requires Judges(exp, JoinOf(records), v)
    ensures cohort in v.failures <==> Lost(exp, records, cohort)
    ensures FormationFailed(cohort) in v.cohorts.formation <==> Lost(exp, records, cohort)
  {
    hide JoinOf, Lost, NeverFormed, PathsJudged, AdapterJudged, ExecutionsJudged, ConservationJudged, FanOutJudged,
         Diagnosis;
    NeverFormedOnRecords(exp, records, cohort);
  }

  /** The path of q is in the evidence, and its cohort formed: the checks that hide lost cohorts see it. */
  ghost predicate Seen(exp: Expectation, records: seq<Decoded>, q: LogicalRequest) {
    Recorded(records, q) && !Lost(exp, records, q.cohort)
  }

  lemma SeenIsVisible(exp: Expectation, records: seq<Decoded>, v: Verdict, q: LogicalRequest)
    requires Judges(exp, JoinOf(records), v)
    ensures var visible := Without(JoinOf(records), v.failures.Keys);
            && (q in visible <==> Seen(exp, records, q))
            && (q in visible ==> visible[q] == PathOf(JoinOf(records), q))
    ensures q in JoinOf(records) <==> Recorded(records, q)
    ensures PathOf(JoinOf(records), q).request == q
  {
    hide JoinOf, Lost, Judges;
    FormationExactly(exp, records, v, q.cohort);
    InJoin(records, q);
  }

  /* ---- Requests ---- */

  /** Two of q's records were written under different schema versions. */
  ghost predicate TwoSchemas(records: seq<Decoded>, q: LogicalRequest) {
    exists i, j :: Of(records, q, i) && Of(records, q, j) && records[i].schemaVersion != records[j].schemaVersion
  }

  /** Some record of q states the outcome. */
  ghost predicate SomeStates(records: seq<Decoded>, q: LogicalRequest, status: Status) {
    exists d :: d in records && d.record.Request() == q && d.record.status == status
  }

  /** A request finished well: some record says so, and none says that it failed or timed out. */
  ghost predicate FinishedWell(records: seq<Decoded>, q: LogicalRequest) {
    && SomeStates(records, q, STATUS_OK) && !SomeStates(records, q, STATUS_ERROR)
    && !SomeStates(records, q, STATUS_TIMEOUT)
  }

  /** The joined status is the worst any record states: a timeout over an error over a success over nothing. */
  lemma StatusIsWorst(records: seq<Decoded>, q: LogicalRequest)
    ensures var status := PathOf(JoinOf(records), q).status;
            && (status == 3 <==> SomeStates(records, q, 3))
            && (status == 2 <==> SomeStates(records, q, 2) && !SomeStates(records, q, 3))
            && (status == 1 <==> SomeStates(records, q, 1) && !SomeStates(records, q, 2) && !SomeStates(records, q, 3))
            && status <= 3
  {
    hide JoinOf;
    StatusMeans(records, q);
  }

  lemma TwoOf<T>(s: set<T>)
    ensures |s| > 1 <==> exists x, y :: x in s && y in s && x != y
  {
    if |s| > 1 {
      var x :| x in s;
      assert |s - {x}| > 0;
      var y :| y in s - {x};
    }
    if x, y :| x in s && y in s && x != y {
      assert {x, y} <= s;
      Bounded({x, y}, s);
    }
  }

  lemma Bounded<T>(a: set<T>, b: set<T>)
    requires a <= b
    ensures |a| <= |b|
  {
    assert b == a + (b - a);
  }

  lemma SchemasOnRecords(records: seq<Decoded>, q: LogicalRequest)
    ensures |PathOf(JoinOf(records), q).schemaVersions| > 1 <==> TwoSchemas(records, q)
  {
    hide JoinOf, PathOf;
    DomainsMean(records, q);
    var versions := PathOf(JoinOf(records), q).schemaVersions;
    if TwoSchemas(records, q) {
      var i, j :| Of(records, q, i) && Of(records, q, j) && records[i].schemaVersion != records[j].schemaVersion;
      assert records[i].schemaVersion in versions && records[j].schemaVersion in versions;
    }
    TwoOf(versions);
  }

  /** What the integrity check names, request by request, and the records the writers dropped. */
  lemma IntegrityExactly(exp: Expectation, records: seq<Decoded>, v: Verdict, q: LogicalRequest)
    requires Judges(exp, JoinOf(records), v)
    ensures DroppedRecords in v.paths.integrity <==> exp.droppedRecords > 0
    ensures MissingRequest(q) in v.paths.integrity <==> Scheduled(exp, q) && !Recorded(records, q)
    ensures Unscheduled(q) in v.paths.integrity <==> !Scheduled(exp, q) && Recorded(records, q)
    ensures forall e :: DuplicateRecord(q, e) in v.paths.integrity <==> Scheduled(exp, q) && CountOf(records, q, e) >= 2
    ensures MixedSchemas(q) in v.paths.integrity <==> Scheduled(exp, q) && TwoSchemas(records, q)
    ensures RequestFailed(q) in v.paths.integrity <==>
            Scheduled(exp, q) && Recorded(records, q) && !FinishedWell(records, q)
  {
    hide JoinOf, Scheduled, CohortsJudged, Diagnoses, RuleDefect, ContaminationDefect, CountOf, TwoSchemas, SomeStates;
    var paths := JoinOf(records);
    InJoin(records, q);
    SchemasOnRecords(records, q);
    StatusIsWorst(records, q);
    NoSchemas(records, q);
    forall e ensures CountOf(records, q, e) >= 2 <==> q in paths && e in paths[q].emitters && paths[q].emitters[e] > 1 {
      EmittersMean(records, q, e);
    }
    IntegrityNamed(exp, paths, q);
  }

  lemma NoSchemas(records: seq<Decoded>, q: LogicalRequest)
    ensures TwoSchemas(records, q) ==> Recorded(records, q)
  {
  }

  lemma IntegrityNamed(exp: Expectation, paths: Paths, q: LogicalRequest)
    ensures IntegrityDefect(exp, paths, DroppedRecords) <==> exp.droppedRecords > 0
    ensures IntegrityDefect(exp, paths, Unscheduled(q)) <==> q in paths && !Scheduled(exp, q)
    ensures IntegrityDefect(exp, paths, MissingRequest(q)) <==> Scheduled(exp, q) && q !in paths
    ensures forall e :: IntegrityDefect(exp, paths, DuplicateRecord(q, e)) <==>
            Scheduled(exp, q) && q in paths && e in paths[q].emitters && paths[q].emitters[e] > 1
    ensures IntegrityDefect(exp, paths, MixedSchemas(q)) <==>
            Scheduled(exp, q) && q in paths && |paths[q].schemaVersions| > 1
    ensures IntegrityDefect(exp, paths, RequestFailed(q)) <==>
            Scheduled(exp, q) && q in paths && paths[q].status != STATUS_OK
  {
    hide Scheduled;
    assert IntegrityAt(paths, q, MissingRequest(q)) <==> q !in paths;
    assert forall e :: IntegrityAt(paths, q, DuplicateRecord(q, e)) <==>
                       q in paths && e in paths[q].emitters && paths[q].emitters[e] > 1;
    assert IntegrityAt(paths, q, MixedSchemas(q)) <==> q in paths && |paths[q].schemaVersions| > 1;
    assert IntegrityAt(paths, q, RequestFailed(q)) <==> q in paths && paths[q].status != STATUS_OK;
  }

  /* ---- Single paths ---- */

  /** A defect that can only be q's is named of some paths exactly when q's own path is among them and has it. */
  lemma RuleNamed(exp: Expectation, rule: Rule, paths: Paths, q: LogicalRequest, d: Defect)
    requires forall r :: r in paths ==> paths[r].request == r
    requires forall j: Joined :: RuleAt(exp, rule, j, d) ==> j.request == q
    ensures RuleDefect(exp, rule, paths, d) <==> q in paths && RuleAt(exp, rule, paths[q], d)
  {
    hide RuleAt;
  }

  lemma Keyed(records: seq<Decoded>, hidden: set<uint32>)
    ensures forall r :: r in JoinOf(records) ==> JoinOf(records)[r].request == r
    ensures var visible := Without(JoinOf(records), hidden); forall r :: r in visible ==> visible[r].request == r
  {
    hide JoinOf;
    forall r | r in JoinOf(records) ensures JoinOf(records)[r].request == r {
      InJoin(records, r);
    }
  }

  /** Two of q's records are of different clock domains. */
  ghost predicate TwoClocks(records: seq<Decoded>, q: LogicalRequest) {
    exists i, j ::
      Of(records, q, i) && Of(records, q, j) && records[i].header.clockDomain != records[j].header.clockDomain
  }

  /** Every record of q, and there is one, is of clock domain x. */
  ghost predicate AllUnder(records: seq<Decoded>, q: LogicalRequest, x: Bytes) {
    Recorded(records, q) && forall i :: Of(records, q, i) ==> records[i].header.clockDomain == x
  }

  lemma ClocksDiffer(records: seq<Decoded>, q: LogicalRequest)
    ensures |PathOf(JoinOf(records), q).domains| > 1 <==> TwoClocks(records, q)
  {
    hide JoinOf, PathOf;
    DomainsMean(records, q);
    var domains := PathOf(JoinOf(records), q).domains;
    if TwoClocks(records, q) {
      var i, j :| Of(records, q, i) && Of(records, q, j)
                  && records[i].header.clockDomain != records[j].header.clockDomain;
      assert records[i].header.clockDomain in domains && records[j].header.clockDomain in domains;
    }
    TwoOf(domains);
  }

  lemma OneClockOnly(records: seq<Decoded>, q: LogicalRequest, x: Bytes)
    ensures var domains := PathOf(JoinOf(records), q).domains; |domains| <= 1 && x in domains <==>
            AllUnder(records, q, x)
  {
    hide JoinOf, PathOf;
    ClocksDiffer(records, q);
    DomainsMean(records, q);
    var domains := PathOf(JoinOf(records), q).domains;
    if AllUnder(records, q, x) {
      var i :| Of(records, q, i);
      assert records[i].header.clockDomain == x;
    }
  }

  /**
   A request is named for mixing clocks if and only if its records do, and otherwise for the one foreign
   clock they share.
   */
  lemma ClockExactly(exp: Expectation, records: seq<Decoded>, v: Verdict, q: LogicalRequest)
    requires Judges(exp, JoinOf(records), v)
    ensures MixedDomains(q) in v.paths.clock <==> TwoClocks(records, q)
    ensures forall x :: ForeignDomain(q, x) in v.paths.clock <==>
            exp.clockDomain != [] && x != exp.clockDomain && AllUnder(records, q, x)
  {
    hide JoinOf, CohortsJudged, Diagnoses, IntegrityDefect, ContaminationDefect, TwoClocks, RuleDefect;
    var paths := JoinOf(records);
    Keyed(records, {});
    InJoin(records, q);
    ClocksDiffer(records, q);
    assert TwoClocks(records, q) ==> Recorded(records, q) by { NoClocks(records, q); }
    RuleNamed(exp, ClockRule, paths, q, MixedDomains(q));
    forall x
      ensures ForeignDomain(q, x) in v.paths.clock <==>
              exp.clockDomain != [] && x != exp.clockDomain && AllUnder(records, q, x)
    {
      OneClockOnly(records, q, x);
      RuleNamed(exp, ClockRule, paths, q, ForeignDomain(q, x));
    }
  }

  lemma NoClocks(records: seq<Decoded>, q: LogicalRequest)
    ensures TwoClocks(records, q) ==> Recorded(records, q)
  {
  }

  /**
   A stage is named as missing if and only if the cell's path visits it and no record of the
   request carries it, and as unexpected if and only if some record does and the path does not
   visit it; of neither where the cohort never formed.
   */
  lemma PresenceExactly(exp: Expectation, records: seq<Decoded>, v: Verdict, q: LogicalRequest, s: Stage)
    requires Judges(exp, JoinOf(records), v) && !exp.cell.UnknownCell?
    ensures MissingTimestamp(q, s) in v.paths.presence <==>
            Seen(exp, records, q) && Visits(exp.cell, s) && !SomeCarries(records, q, s)
    ensures UnexpectedStage(q, s) in v.paths.presence <==>
            Seen(exp, records, q) && !Visits(exp.cell, s) && SomeCarries(records, q, s)
  {
    PresenceNamed(exp, records, v, q, s);
    SeenIsVisible(exp, records, v, q);
    hide JoinOf, PathOf, Judges, Visits, SomeCarries, Seen;
    StagePresent(records, q, s);
  }

  lemma PresenceNamed(exp: Expectation, records: seq<Decoded>, v: Verdict, q: LogicalRequest, s: Stage)
    requires Judges(exp, JoinOf(records), v) && !exp.cell.UnknownCell?
    ensures var visible := Without(JoinOf(records), v.failures.Keys);
            && (MissingTimestamp(q, s) in v.paths.presence <==>
                  q in visible && Visits(exp.cell, s) && s !in visible[q].presence)
            && (UnexpectedStage(q, s) in v.paths.presence <==>
                  q in visible && !Visits(exp.cell, s) && s in visible[q].presence)
  {
    TopologyIs(exp.cell, s);
    PresenceParts(exp, JoinOf(records), v);
    hide JoinOf, Judges, Topology, Visits, RuleDefect;
    Keyed(records, v.failures.Keys);
    PresenceRuleNamed(exp, Topology(exp.cell).value, Without(JoinOf(records), v.failures.Keys), q, s);
  }

  lemma PresenceRuleNamed(exp: Expectation, topology: set<Stage>, paths: Paths, q: LogicalRequest, s: Stage)
    requires forall r :: r in paths ==> paths[r].request == r
    ensures var rule := PresenceRule(topology);
            && (RuleDefect(exp, rule, paths, MissingTimestamp(q, s)) <==>
                  q in paths && s in topology && s !in paths[q].presence)
            && (RuleDefect(exp, rule, paths, UnexpectedStage(q, s)) <==>
                  q in paths && s !in topology && s in paths[q].presence)
  {
    hide RuleDefect;
    RuleNamed(exp, PresenceRule(topology), paths, q, MissingTimestamp(q, s));
    RuleNamed(exp, PresenceRule(topology), paths, q, UnexpectedStage(q, s));
  }

  lemma PresenceParts(exp: Expectation, paths: Paths, v: Verdict)
    requires Judges(exp, paths, v) && !exp.cell.UnknownCell? && Topology(exp.cell).Some?
    ensures var rule := PresenceRule(Topology(exp.cell).value);
            forall d :: d in v.paths.presence <==> RuleDefect(exp, rule, Without(paths, v.failures.Keys), d)
  {
    hide CohortsJudged, Diagnoses, IntegrityDefect, ContaminationDefect, RuleDefect, Topology;
  }

  /** A stage is named as another's if and only if the last record to carry it was not written by its owner. */
  lemma OwnershipExactly(exp: Expectation, records: seq<Decoded>, v: Verdict, q: LogicalRequest, s: Stage)
    requires Judges(exp, JoinOf(records), v)
    ensures WrongOwner(q, s) in v.paths.ownership <==>
            exists i :: LastToCarry(records, q, s, i)
                        && !(Visits(exp.cell, s) && records[i].record.emitter == OwnerOf(exp.cell, s))
  {
    OwnershipNamed(exp, records, v, q, s);
    hide JoinOf, PathOf, Judges, OwnedStages, Visits, OwnerOf, SomeCarries;
    StagePresent(records, q, s);
    if SomeCarries(records, q, s) {
      var i := LastCarrier(records, q, s);
      LastIsOne(records, q, s, i);
      InJoin(records, q);
      StageValue(records, q, s, i);
      OwnedExactly(exp.cell, records[i].record.emitter, s);
    } else {
      NoneLast(records, q, s);
    }
  }

  lemma OwnershipNamed(exp: Expectation, records: seq<Decoded>, v: Verdict, q: LogicalRequest, s: Stage)
    requires Judges(exp, JoinOf(records), v)
    ensures WrongOwner(q, s) in v.paths.ownership <==>
            && q in JoinOf(records)
            && var j := PathOf(JoinOf(records), q); s in j.presence && s !in OwnedStages(exp.cell, j.stageEmitter[s])
  {
    OwnershipPart(exp, JoinOf(records), v);
    hide JoinOf, Judges, RuleDefect, OwnedStages;
    Keyed(records, {});
    RuleNamed(exp, OwnershipRule, JoinOf(records), q, WrongOwner(q, s));
  }

  lemma OwnershipPart(exp: Expectation, paths: Paths, v: Verdict)
    requires Judges(exp, paths, v)
    ensures forall d :: d in v.paths.ownership <==> RuleDefect(exp, OwnershipRule, paths, d)
  {
    hide CohortsJudged, Diagnoses, IntegrityDefect, ContaminationDefect, RuleDefect;
  }

  lemma LastIsOne(records: seq<Decoded>, q: LogicalRequest, s: Stage, i: int)
    requires LastToCarry(records, q, s, i)
    ensures Recorded(records, q) && forall k :: LastToCarry(records, q, s, k) ==> k == i
  {
    hide MaskHas;
    assert Of(records, q, i);
  }

  lemma NoneLast(records: seq<Decoded>, q: LogicalRequest, s: Stage)
    requires !SomeCarries(records, q, s)
    ensures forall k :: !LastToCarry(records, q, s, k)
  {
    hide MaskHas;
  }

  /**
   A span is named as going backwards if and only if the last records to carry its two ends do, formed
   cohort or not.
   */
  lemma OrderingExactly(exp: Expectation, records: seq<Decoded>, v: Verdict, q: LogicalRequest, span: Span)
    requires Judges(exp, JoinOf(records), v) && Chain(exp.cell).Some?
    ensures NonMonotonic(q, span) in v.paths.ordering <==>
            && span in Chain(exp.cell).value
            && exists i, j :: LastToCarry(records, q, span.start, i) && LastToCarry(records, q, span.end, j)
                              && records[j].record.ts[span.end] < records[i].record.ts[span.start]
  {
    OrderingNamed(exp, records, v, q, span);
    hide Judges, Backwards, Chain;
    BackwardsOnRecords(records, q, span);
  }

  lemma OrderingNamed(exp: Expectation, records: seq<Decoded>, v: Verdict, q: LogicalRequest, span: Span)
    requires Judges(exp, JoinOf(records), v) && Chain(exp.cell).Some?
    ensures NonMonotonic(q, span) in v.paths.ordering <==>
            span in Chain(exp.cell).value && q in JoinOf(records) && Backwards(PathOf(JoinOf(records), q), span)
  {
    OrderingPart(exp, JoinOf(records), v);
    hide JoinOf, Judges, RuleDefect, Chain, Backwards;
    Keyed(records, {});
    OrderingRuleNamed(exp, Chain(exp.cell).value, JoinOf(records), q, span);
  }

  lemma OrderingRuleNamed(exp: Expectation, spans: seq<Span>, paths: Paths, q: LogicalRequest, span: Span)
    requires forall r :: r in paths ==> paths[r].request == r
    ensures RuleDefect(exp, OrderingRule(spans), paths, NonMonotonic(q, span)) <==>
            span in spans && q in paths && Backwards(paths[q], span)
  {
    hide RuleDefect, Backwards;
    RuleNamed(exp, OrderingRule(spans), paths, q, NonMonotonic(q, span));
  }

  lemma BackwardsOnRecords(records: seq<Decoded>, q: LogicalRequest, span: Span)
    ensures q in JoinOf(records) && Backwards(PathOf(JoinOf(records), q), span) <==>
            exists i, j :: LastToCarry(records, q, span.start, i) && LastToCarry(records, q, span.end, j)
                           && records[j].record.ts[span.end] < records[i].record.ts[span.start]
  {
    hide JoinOf, SomeCarries, PathOf;
    InJoin(records, q);
    StagePresent(records, q, span.start);
    StagePresent(records, q, span.end);
    if SomeCarries(records, q, span.start) && SomeCarries(records, q, span.end) {
      var i := LastCarrier(records, q, span.start);
      var j := LastCarrier(records, q, span.end);
      LastIsOne(records, q, span.start, i);
      LastIsOne(records, q, span.end, j);
      StageValue(records, q, span.start, i);
      StageValue(records, q, span.end, j);
    } else {
      if !SomeCarries(records, q, span.start) { NoneLast(records, q, span.start); }
      if !SomeCarries(records, q, span.end) { NoneLast(records, q, span.end); }
    }
  }

  lemma OrderingPart(exp: Expectation, paths: Paths, v: Verdict)
    requires Judges(exp, paths, v) && Chain(exp.cell).Some?
    ensures forall d :: d in v.paths.ordering <==> RuleDefect(exp, OrderingRule(Chain(exp.cell).value), paths, d)
  {
    hide CohortsJudged, Diagnoses, IntegrityDefect, ContaminationDefect, RuleDefect, Topology;
    assert !exp.cell.UnknownCell?;
    hide Chain;
  }

  /* ---- Membership ---- */

  /** The defects of q's membership. */
  predicate OfMembership(d: Defect, q: LogicalRequest) {
    && (d.SourcesDisagree? || d.NothingAttested? || d.Truncated? || d.SelfMissing? || d.OwnUidEcho?
        || d.WrongCardinality? || d.WrongBatchSize? || d.ForeignCohort? || d.OrdinalOutside?)
    && d.q == q
  }

  lemma MembershipIsOwn(exp: Expectation, j: Joined, q: LogicalRequest, d: Defect)
    requires OfMembership(d, q) && MembershipAt(exp, j, d)
    ensures j.request == q
  {
    hide Uid, UidRequest, SourcesDiffer;
  }

  /** One is named if and only if q's path is seen and has it. */
  lemma MembershipNamed(exp: Expectation, records: seq<Decoded>, v: Verdict, q: LogicalRequest, d: Defect)
    requires Judges(exp, JoinOf(records), v) && OfMembership(d, q)
    ensures d in v.paths.membership <==> Seen(exp, records, q) && MembershipAt(exp, PathOf(JoinOf(records), q), d)
  {
    MembershipPart(exp, JoinOf(records), v);
    SeenIsVisible(exp, records, v, q);
    hide JoinOf, Judges, MembershipAt, Seen, RuleDefect, OfMembership;
    Keyed(records, v.failures.Keys);
    MembershipRuleNamed(exp, Without(JoinOf(records), v.failures.Keys), q, d);
  }

  lemma MembershipRuleNamed(exp: Expectation, paths: Paths, q: LogicalRequest, d: Defect)
    requires OfMembership(d, q) && forall r :: r in paths ==> paths[r].request == r
    ensures RuleDefect(exp, MembershipRule, paths, d) <==> q in paths && MembershipAt(exp, paths[q], d)
  {
    hide RuleDefect, MembershipAt, OfMembership;
    forall j: Joined | RuleAt(exp, MembershipRule, j, d) ensures j.request == q {
      MembershipIsOwn(exp, j, q, d);
    }
    RuleNamed(exp, MembershipRule, paths, q, d);
  }

  lemma MembershipPart(exp: Expectation, paths: Paths, v: Verdict)
    requires Judges(exp, paths, v)
    ensures forall d :: d in v.paths.membership <==>
            RuleDefect(exp, MembershipRule, Without(paths, v.failures.Keys), d)
  {
    hide CohortsJudged, Diagnoses, IntegrityDefect, ContaminationDefect, RuleDefect;
  }

  /** No record of q attests any member. */
  ghost predicate NoneAttests(records: seq<Decoded>, q: LogicalRequest) {
    forall i :: Of(records, q, i) ==> records[i].record.membership == []
  }

  lemma AttestsOrNot(records: seq<Decoded>, q: LogicalRequest)
    ensures NoneAttests(records, q) <==> PathOf(JoinOf(records), q).membership == []
  {
    hide JoinOf, PathOf;
    if !NoneAttests(records, q) {
      var k :| Of(records, q, k) && records[k].record.membership != [];
      var i := LastSuch(records, q, (r: Record) => r.membership != [], k);
      assert LastToAttest(records, q, i);
      MembershipMeans(records, q, i);
    } else {
      NothingUnsaid(records, q);
    }
  }

  /** The last record of q's to state a batch size states n. */
  ghost predicate LastSizeIs(records: seq<Decoded>, q: LogicalRequest, n: int) {
    exists i :: LastToSize(records, q, i) && records[i].record.batchSize == n
  }

  lemma SizeOnRecords(records: seq<Decoded>, q: LogicalRequest, n: int)
    requires n > 0
    ensures LastSizeIs(records, q, n) <==> PathOf(JoinOf(records), q).batchSize == n
  {
    hide JoinOf, PathOf;
    if LastSizeIs(records, q, n) {
      var i :| LastToSize(records, q, i) && records[i].record.batchSize == n;
      assert Of(records, q, i);
      BatchSizeMeans(records, q, i);
    }
    if PathOf(JoinOf(records), q).batchSize == n {
      NothingUnsaid(records, q);
      var k :| Of(records, q, k) && records[k].record.batchSize > 0;
      var i := LastSuch(records, q, (r: Record) => r.batchSize > 0, k);
      assert LastToSize(records, q, i);
      BatchSizeMeans(records, q, i);
    }
  }

  /** A request of a formed cohort is named for attesting nothing if and only if none of its records attests. */
  lemma NothingAttestedExactly(exp: Expectation, records: seq<Decoded>, v: Verdict, q: LogicalRequest)
    requires Judges(exp, JoinOf(records), v)
    ensures NothingAttested(q) in v.paths.membership <==> Seen(exp, records, q) && NoneAttests(records, q)
  {
    hide JoinOf, Judges, Seen, NoneAttests, PathOf;
    MembershipNamed(exp, records, v, q, NothingAttested(q));
    SeenIsVisible(exp, records, v, q);
    AttestsOrNot(records, q);
  }

  /**
   What is named of a request whose last record to attest is the i-th: of that record's list, its
   count and its uids, against the run's batch size, cohort and ordinals.
   */
  lemma MembershipExactly(exp: Expectation, records: seq<Decoded>, v: Verdict, q: LogicalRequest, i: nat, u: int64)
    requires Judges(exp, JoinOf(records), v) && LastToAttest(records, q, i) && !Lost(exp, records, q.cohort)
    ensures var (m, b, found) := (records[i].record.membership, exp.batchSize, v.paths.membership);
            && (Truncated(q) in found <==> records[i].record.membershipCount != |m|)
            && (SelfMissing(q) in found <==> Uid(q) !in m)
            && (OwnUidEcho(q) in found <==> b > 1 && m == [Uid(q)])
            && (WrongCardinality(q) in found <==> |m| != b && !(b > 1 && m == [Uid(q)]))
            && (WrongBatchSize(q) in found <==> |m| == b && !LastSizeIs(records, q, b))
            && (ForeignCohort(q, u) in found <==> |m| == b && u in m && UidRequest(u).cohort != q.cohort)
            && (OrdinalOutside(q, u) in found <==>
                  |m| == b && u in m && UidRequest(u).cohort == q.cohort && UidRequest(u).ordinal >= exp.cohortSize)
  {
    var j := PathOf(JoinOf(records), q);
    assert Of(records, q, i);
    MembershipMeans(records, q, i);
    SeenIsVisible(exp, records, v, q);
    assert Seen(exp, records, q);
    hide JoinOf, Judges, Seen, PathOf, Uid, UidRequest, MembershipAt, LastToAttest;
    if exp.batchSize > 0 { SizeOnRecords(records, q, exp.batchSize); }
    hide LastSizeIs;
    MembershipOfPath(exp, j, q, u);
    MembershipNamed(exp, records, v, q, Truncated(q));
    MembershipNamed(exp, records, v, q, SelfMissing(q));
    MembershipNamed(exp, records, v, q, OwnUidEcho(q));
    MembershipNamed(exp, records, v, q, WrongCardinality(q));
    MembershipNamed(exp, records, v, q, WrongBatchSize(q));
    MembershipNamed(exp, records, v, q, ForeignCohort(q, u));
    MembershipNamed(exp, records, v, q, OrdinalOutside(q, u));
  }

  lemma MembershipOfPath(exp: Expectation, j: Joined, q: LogicalRequest, u: int64)
    requires j.request == q && j.membership != []
    ensures var (m, b) := (j.membership, exp.batchSize);
            && (MembershipAt(exp, j, Truncated(q)) <==> j.membershipCount != |m|)
            && (MembershipAt(exp, j, SelfMissing(q)) <==> Uid(q) !in m)
            && (MembershipAt(exp, j, OwnUidEcho(q)) <==> b > 1 && m == [Uid(q)])
            && (MembershipAt(exp, j, WrongCardinality(q)) <==> |m| != b && !(b > 1 && m == [Uid(q)]))
            && (MembershipAt(exp, j, WrongBatchSize(q)) <==> |m| == b && j.batchSize != b)
            && (MembershipAt(exp, j, ForeignCohort(q, u)) <==> |m| == b && u in m && UidRequest(u).cohort != q.cohort)
            && (MembershipAt(exp, j, OrdinalOutside(q, u)) <==>
                  |m| == b && u in m && UidRequest(u).cohort == q.cohort && UidRequest(u).ordinal >= exp.cohortSize)
  {
    hide Uid, UidRequest, SourcesDiffer;
    assert j.membership == [Uid(q)] <==> |j.membership| == 1 && Uid(q) in j.membership;
  }

  /** Two processes attest different members for q, each by the last record it wrote of them. */
  ghost predicate TwoAccounts(records: seq<Decoded>, q: LogicalRequest) {
    exists e, f, i, j ::
      && LastAttestedBy(records, q, e, i) && LastAttestedBy(records, q, f, j)
      && multiset(records[i].record.membership) != multiset(records[j].record.membership)
  }

  lemma AccountOnRecords(records: seq<Decoded>, q: LogicalRequest, e: Emitter) returns (i: nat)
    requires e in PathOf(JoinOf(records), q).membershipBySource
    ensures LastAttestedBy(records, q, e, i)
    ensures PathOf(JoinOf(records), q).membershipBySource[e] == records[i].record.membership
  {
    hide JoinOf, PathOf;
    NothingUnseen(records, q, e);
    var k :| Of(records, q, k) && records[k].record.emitter == e && records[k].record.membership != [];
    i := LastSuch(records, q, (r: Record) => r.emitter == e && r.membership != [], k);
    assert LastAttestedBy(records, q, e, i);
    AttestedMeans(records, q, e, i);
  }

  /**
   A request is named for its sources' disagreeing if and only if two processes' last accounts differ as
   multisets.
   */
  lemma SourcesExactly(exp: Expectation, records: seq<Decoded>, v: Verdict, q: LogicalRequest)
    requires Judges(exp, JoinOf(records), v)
    ensures SourcesDisagree(q) in v.paths.membership <==> Seen(exp, records, q) && TwoAccounts(records, q)
  {
    hide JoinOf, Judges, Seen, PathOf, TwoAccounts, SourcesDiffer;
    MembershipNamed(exp, records, v, q, SourcesDisagree(q));
    SeenIsVisible(exp, records, v, q);
    SourcesOnRecords(records, q);
  }

  lemma SourcesOnRecords(records: seq<Decoded>, q: LogicalRequest)
    ensures SourcesDiffer(PathOf(JoinOf(records), q).membershipBySource) <==> TwoAccounts(records, q)
  {
    hide JoinOf, PathOf;
    var seen := PathOf(JoinOf(records), q).membershipBySource;
    if SourcesDiffer(seen) {
      var e, f :| e in seen && f in seen && multiset(seen[e]) != multiset(seen[f]);
      var i := AccountOnRecords(records, q, e);
      var j := AccountOnRecords(records, q, f);
    }
    if TwoAccounts(records, q) {
      var e, f, i, j :| LastAttestedBy(records, q, e, i) && LastAttestedBy(records, q, f, j)
                        && multiset(records[i].record.membership) != multiset(records[j].record.membership);
      AccountIs(records, q, e, i);
      AccountIs(records, q, f, j);
    }
  }

  lemma AccountIs(records: seq<Decoded>, q: LogicalRequest, e: Emitter, i: int)
    requires LastAttestedBy(records, q, e, i)
    ensures 0 <= i < |records| && e in PathOf(JoinOf(records), q).membershipBySource
    ensures PathOf(JoinOf(records), q).membershipBySource[e] == records[i].record.membership
  {
    hide JoinOf, PathOf;
    assert Of(records, q, i);
    AttestedMeans(records, q, e, i);
  }

  /* ---- Envelopes ---- */

  /** The last record of q's to name an envelope names id. */
  ghost predicate Names(records: seq<Decoded>, q: LogicalRequest, id: uint64) {
    exists i :: LastToName(records, q, i) && records[i].record.envelopeID == id
  }

  lemma NamesOnPath(records: seq<Decoded>, q: LogicalRequest, id: uint64)
    ensures Names(records, q, id) <==> id != 0 && q in JoinOf(records) && PathOf(JoinOf(records), q).envelopeID == id
  {
    hide JoinOf, PathOf;
    InJoin(records, q);
    if Names(records, q, id) {
      var i :| LastToName(records, q, i) && records[i].record.envelopeID == id;
      assert Of(records, q, i);
      EnvelopeMeans(records, q, i);
    }
    if id != 0 && PathOf(JoinOf(records), q).envelopeID == id {
      NothingUnsaid(records, q);
      var k :| Of(records, q, k) && records[k].record.envelopeID != 0;
      var i := LastSuch(records, q, (r: Record) => r.envelopeID != 0, k);
      assert LastToName(records, q, i);
      EnvelopeMeans(records, q, i);
    }
  }

  /** The requests whose path the cohort checks see are those of formed cohorts; each names what its path does. */
  ghost predicate Shown(exp: Expectation, records: seq<Decoded>, visible: Paths) {
    forall q: LogicalRequest ::
      && (q in visible <==> Seen(exp, records, q))
      && (q in visible ==> visible[q] == PathOf(JoinOf(records), q))
  }

  lemma VisibleIsShown(exp: Expectation, records: seq<Decoded>, v: Verdict)
    requires Judges(exp, JoinOf(records), v)
    ensures Shown(exp, records, Without(JoinOf(records), v.failures.Keys))
  {
    hide JoinOf, Judges, Seen, PathOf;
    forall q: LogicalRequest
      ensures var visible := Without(JoinOf(records), v.failures.Keys);
              && (q in visible <==> Seen(exp, records, q))
              && (q in visible ==> visible[q] == PathOf(JoinOf(records), q))
    {
      SeenIsVisible(exp, records, v, q);
    }
  }

  /** Some seen request of the cohort names id. */
  ghost predicate CohortNames(exp: Expectation, records: seq<Decoded>, cohort: uint32, id: uint64) {
    exists q :: Seen(exp, records, q) && q.cohort == cohort && Names(records, q, id)
  }

  lemma IdsOnRecords(exp: Expectation, records: seq<Decoded>, visible: Paths, cohort: uint32, id: uint64)
    requires Shown(exp, records, visible)
    ensures id in EnvelopeIds(visible, cohort) <==> CohortNames(exp, records, cohort, id)
  {
    hide JoinOf, Seen, PathOf, Names;
    if id in EnvelopeIds(visible, cohort) {
      var q :| q in visible && q.cohort == cohort && visible[q].envelopeID != 0 && visible[q].envelopeID == id;
      InPaths(records, q);
      NamesOnPath(records, q, id);
    }
    if CohortNames(exp, records, cohort, id) {
      var q :| Seen(exp, records, q) && q.cohort == cohort && Names(records, q, id);
      NamesOnPath(records, q, id);
    }
  }

  lemma InPaths(records: seq<Decoded>, q: LogicalRequest)
    ensures q in JoinOf(records) <==> Recorded(records, q)
    ensures forall exp :: Seen(exp, records, q) ==> q in JoinOf(records)
  {
    hide JoinOf, Lost;
    InJoin(records, q);
  }

  /** The cohort's seen requests name exactly one envelope. */
  ghost predicate NamesOne(exp: Expectation, records: seq<Decoded>, cohort: uint32) {
    exists id :: CohortNames(exp, records, cohort, id)
                 && forall other :: CohortNames(exp, records, cohort, other) ==> other == id
  }

  lemma OneElement(s: set<uint64>)
    ensures |s| == 1 <==> exists x :: x in s && forall y :: y in s ==> y == x
  {
    if |s| == 1 {
      var x :| x in s;
      assert |s - {x}| == 0;
      assert s == {x};
    }
    if x :| x in s && forall y :: y in s ==> y == x {
      assert s == {x};
    }
  }

  lemma AggregationPart(exp: Expectation, paths: Paths, v: Verdict)
    requires Judges(exp, paths, v)
    ensures forall d :: d in v.cohorts.aggregation <==> AggregationDefect(exp, Without(paths, v.failures.Keys), d)
  {
    hide PathsJudged, Diagnoses, AggregationDefect, AdapterJudged, ExecutionsJudged, ConservationJudged, FanOutJudged;
  }

  /** The aggregation findings on the paths of formed cohorts. */
  lemma AggregationNamed(exp: Expectation, paths: Paths, v: Verdict, cohort: uint32, s: Stage, id: uint64)
    requires Judges(exp, paths, v)
    ensures var (visible, found) := (Without(paths, v.failures.Keys), v.cohorts.aggregation);
            && (EnvelopeCardinality(cohort) in found <==>
                  exp.cell in {F10, F11D, F11P} && cohort in Cohorts(visible) && |EnvelopeIds(visible, cohort)| != 1)
            && (StageDisagreement(cohort, s) in found <==>
                  && exp.cell in {F10, F11D, F11P} && s in {4, 5, 6, 12, 13} && cohort in Cohorts(visible)
                  && |Values(visible, cohort, s)| > 1)
            && (SharedEnvelope(id) in found <==> exp.cell in {F10, F11D, F11P} && id != 0 && |Owners(visible, id)| > 1)
  {
    hide Judges, Cohorts, EnvelopeIds, Values, Owners, Without;
    AggregationPart(exp, paths, v);
  }

  /** A formed cohort of an A=on cell is named unless its requests name exactly one envelope among them. */
  lemma CardinalityExactly(exp: Expectation, records: seq<Decoded>, v: Verdict, cohort: uint32)
    requires Judges(exp, JoinOf(records), v)
    ensures EnvelopeCardinality(cohort) in v.cohorts.aggregation <==>
              && exp.cell in {F10, F11D, F11P} && (exists q :: Seen(exp, records, q) && q.cohort == cohort)
              && !NamesOne(exp, records, cohort)
  {
    AggregationNamed(exp, JoinOf(records), v, cohort, 1, 0);
    VisibleIsShown(exp, records, v);
    hide JoinOf, Judges, Seen, PathOf, Shown, NamesOne, EnvelopeIds, Cohorts;
    IdsAreNames(exp, records, Without(JoinOf(records), v.failures.Keys), cohort);
  }

  lemma IdsAreNames(exp: Expectation, records: seq<Decoded>, visible: Paths, cohort: uint32)
    requires Shown(exp, records, visible)
    ensures NamesOne(exp, records, cohort) <==> |EnvelopeIds(visible, cohort)| == 1
    ensures cohort in Cohorts(visible) <==> exists q :: Seen(exp, records, q) && q.cohort == cohort
  {
    hide Seen, CohortNames, EnvelopeIds;
    forall id ensures id in EnvelopeIds(visible, cohort) <==> CohortNames(exp, records, cohort, id) {
      IdsOnRecords(exp, records, visible, cohort, id);
    }
    OneElement(EnvelopeIds(visible, cohort));
  }

  /** Two seen requests of the cohort have different values of s, each on the last record to carry it. */
  ghost predicate TwoValues(exp: Expectation, records: seq<Decoded>, cohort: uint32, s: Stage) {
    exists q, r, i, j ::
      && Seen(exp, records, q) && Seen(exp, records, r) && q.cohort == r.cohort == cohort
      && LastToCarry(records, q, s, i) && LastToCarry(records, r, s, j)
      && records[i].record.ts[s] != records[j].record.ts[s]
  }

  lemma ValueOnRecords(records: seq<Decoded>, q: LogicalRequest, s: Stage) returns (i: nat)
    requires s in PathOf(JoinOf(records), q).presence
    ensures LastToCarry(records, q, s, i) && PathOf(JoinOf(records), q).ts[s] == records[i].record.ts[s]
  {
    hide JoinOf, PathOf, SomeCarries;
    StagePresent(records, q, s);
    i := LastCarrier(records, q, s);
    StageValue(records, q, s, i);
  }

  lemma ValueIs(records: seq<Decoded>, q: LogicalRequest, s: Stage, i: int)
    requires LastToCarry(records, q, s, i)
    ensures s in PathOf(JoinOf(records), q).presence
    ensures 0 <= i < |records| && PathOf(JoinOf(records), q).ts[s] == records[i].record.ts[s]
  {
    hide JoinOf, PathOf, MaskHas;
    assert Of(records, q, i);
    StagePresent(records, q, s);
    StageValue(records, q, s, i);
  }

  lemma ValuesOnRecords(exp: Expectation, records: seq<Decoded>, visible: Paths, cohort: uint32, s: Stage)
    requires Shown(exp, records, visible)
    ensures |Values(visible, cohort, s)| > 1 <==> TwoValues(exp, records, cohort, s)
  {
    hide Values, Shown, TwoValues;
    if TwoValues(exp, records, cohort, s) {
      var x, y := CarriedValues(exp, records, visible, cohort, s);
    }
    if x, y :| x in Values(visible, cohort, s) && y in Values(visible, cohort, s) && x != y {
      ValuesCarried(exp, records, visible, cohort, s, x, y);
    }
    TwoOf(Values(visible, cohort, s));
  }

  lemma CarriedValues(exp: Expectation, records: seq<Decoded>, visible: Paths, cohort: uint32, s: Stage)
    returns (x: int64, y: int64)
    requires Shown(exp, records, visible) && TwoValues(exp, records, cohort, s)
    ensures x in Values(visible, cohort, s) && y in Values(visible, cohort, s) && x != y
  {
    hide JoinOf, Seen, PathOf, MaskHas, Values, Shown;
    var q, r, i, j :| Seen(exp, records, q) && Seen(exp, records, r) && q.cohort == r.cohort == cohort
                      && LastToCarry(records, q, s, i) && LastToCarry(records, r, s, j)
                      && records[i].record.ts[s] != records[j].record.ts[s];
    x, y := records[i].record.ts[s], records[j].record.ts[s];
    hide LastToCarry;
    ValueSeen(exp, records, visible, s, q, i);
    ValueSeen(exp, records, visible, s, r, j);
  }

  lemma ValueSeen(exp: Expectation, records: seq<Decoded>, visible: Paths, s: Stage, q: LogicalRequest, i: int)
    requires Shown(exp, records, visible) && Seen(exp, records, q) && LastToCarry(records, q, s, i)
    ensures 0 <= i < |records| && records[i].record.ts[s] in Values(visible, q.cohort, s)
  {
    hide JoinOf, Seen, PathOf, LastToCarry;
    ValueIs(records, q, s, i);
    assert q in visible;
  }

  lemma ValuesCarried(exp: Expectation, records: seq<Decoded>, visible: Paths, cohort: uint32, s: Stage, x: int64,
                      y: int64)
    requires Shown(exp, records, visible) && x in Values(visible, cohort, s)
    requires y in Values(visible, cohort, s) && x != y
    ensures TwoValues(exp, records, cohort, s)
  {
    hide JoinOf, Seen, PathOf, MaskHas;
    var q :| q in visible && q.cohort == cohort && s in visible[q].presence && visible[q].ts[s] == x;
    var r :| r in visible && r.cohort == cohort && s in visible[r].presence && visible[r].ts[s] == y;
    var i := ValueOnRecords(records, q, s);
    var j := ValueOnRecords(records, r, s);
  }

  /** A stage that describes the envelope is named where two members of a formed cohort carry different values of it. */
  lemma DisagreementExactly(exp: Expectation, records: seq<Decoded>, v: Verdict, cohort: uint32, s: Stage)
    requires Judges(exp, JoinOf(records), v)
    ensures StageDisagreement(cohort, s) in v.cohorts.aggregation <==>
            exp.cell in {F10, F11D, F11P} && s in {4, 5, 6, 12, 13} && TwoValues(exp, records, cohort, s)
  {
    AggregationNamed(exp, JoinOf(records), v, cohort, s, 0);
    VisibleIsShown(exp, records, v);
    hide JoinOf, Judges, Seen, PathOf, TwoValues, LastToCarry, Values;
    var visible := Without(JoinOf(records), v.failures.Keys);
    ValuesOnRecords(exp, records, visible, cohort, s);
    SomeValue(visible, cohort, s);
  }

  lemma SomeValue(paths: Paths, cohort: uint32, s: Stage)
    ensures |Values(paths, cohort, s)| > 1 ==> cohort in Cohorts(paths)
  {
    if |Values(paths, cohort, s)| > 1 {
      var x :| x in Values(paths, cohort, s);
    }
  }

  /** Requests of two formed cohorts name the envelope. */
  ghost predicate TwoCohortsName(exp: Expectation, records: seq<Decoded>, id: uint64) {
    exists q, r :: Seen(exp, records, q) && Seen(exp, records, r) && q.cohort != r.cohort
                   && Names(records, q, id) && Names(records, r, id)
  }

  /** An envelope is named as shared if and only if requests of two formed cohorts name it. */
  lemma SharedExactly(exp: Expectation, records: seq<Decoded>, v: Verdict, id: uint64)
    requires Judges(exp, JoinOf(records), v)
    ensures SharedEnvelope(id) in v.cohorts.aggregation <==>
            exp.cell in {F10, F11D, F11P} && TwoCohortsName(exp, records, id)
  {
    AggregationNamed(exp, JoinOf(records), v, 0, 1, id);
    VisibleIsShown(exp, records, v);
    hide JoinOf, Judges, Seen, PathOf, TwoCohortsName, Owners;
    OwnersOnRecords(exp, records, Without(JoinOf(records), v.failures.Keys), id);
  }

  lemma OwnersOnRecords(exp: Expectation, records: seq<Decoded>, visible: Paths, id: uint64)
    requires Shown(exp, records, visible)
    ensures id != 0 && |Owners(visible, id)| > 1 <==> TwoCohortsName(exp, records, id)
  {
    hide JoinOf, Seen, PathOf, Names;
    var owners := Owners(visible, id);
    if TwoCohortsName(exp, records, id) {
      var q, r :| Seen(exp, records, q) && Seen(exp, records, r) && q.cohort != r.cohort
                  && Names(records, q, id) && Names(records, r, id);
      NamesOnPath(records, q, id);
      NamesOnPath(records, r, id);
      assert q.cohort in owners && r.cohort in owners;
    }
    if id != 0 {
      if c, e :| c in owners && e in owners && c != e {
        var q :| q in visible && visible[q].envelopeID == id && q.cohort == c;
        var r :| r in visible && visible[r].envelopeID == id && r.cohort == e;
        InPaths(records, q);
        InPaths(records, r);
        NamesOnPath(records, q, id);
        NamesOnPath(records, r, id);
      }
    }
    TwoOf(owners);
  }

  /* ---- Whom the reports cover ---- */

  /** The last records to carry the send and the completion of q have them in order. */
  ghost predicate WentOut(records: seq<Decoded>, q: LogicalRequest) {
    exists i, j :: LastToCarry(records, q, CLIENT_SEND, i) && LastToCarry(records, q, CLIENT_RECV, j)
                   && records[i].record.ts[CLIENT_SEND] <= records[j].record.ts[CLIENT_RECV]
  }

  lemma InFlightOnRecords(records: seq<Decoded>, q: LogicalRequest)
    ensures q in JoinOf(records) && Conservation.InFlight(PathOf(JoinOf(records), q)) <==> WentOut(records, q)
  {
    hide JoinOf, SomeCarries, PathOf;
    InJoin(records, q);
    StagePresent(records, q, CLIENT_SEND);
    StagePresent(records, q, CLIENT_RECV);
    if SomeCarries(records, q, CLIENT_SEND) && SomeCarries(records, q, CLIENT_RECV) {
      var i := LastCarrier(records, q, CLIENT_SEND);
      var j := LastCarrier(records, q, CLIENT_RECV);
      LastIsOne(records, q, CLIENT_SEND, i);
      LastIsOne(records, q, CLIENT_RECV, j);
      StageValue(records, q, CLIENT_SEND, i);
      StageValue(records, q, CLIENT_RECV, j);
    } else {
      if !SomeCarries(records, q, CLIENT_SEND) { NoneLast(records, q, CLIENT_SEND); }
      if !SomeCarries(records, q, CLIENT_RECV) { NoneLast(records, q, CLIENT_RECV); }
    }
  }

  /** Every cohort with a request that went out and came back is accounted for, whether or not it formed. */
  lemma AccountsExactly(exp: Expectation, records: seq<Decoded>, v: Verdict, cohort: uint32)
    requires Judges(exp, JoinOf(records), v) && !exp.cell.UnknownCell?
    ensures cohort in v.cohorts.accounts <==> exists q: LogicalRequest :: q.cohort == cohort && WentOut(records, q)
  {
    AccountsAre(exp, JoinOf(records), v, cohort);
    hide JoinOf, Judges, WentOut, Conservation.InFlight;
    forall q: LogicalRequest
      ensures q in JoinOf(records) && Conservation.InFlight(PathOf(JoinOf(records), q)) <==> WentOut(records, q)
    {
      InFlightOnRecords(records, q);
    }
  }

  lemma AccountsAre(exp: Expectation, paths: Paths, v: Verdict, cohort: uint32)
    requires Judges(exp, paths, v) && !exp.cell.UnknownCell?
    ensures cohort in v.cohorts.accounts <==>
            exists q :: q in paths && q.cohort == cohort && Conservation.InFlight(paths[q])
  {
    assert Chain(exp.cell).Some?;
    hide PathsJudged, Diagnoses, AggregationDefect, AdapterJudged, ExecutionsJudged, FanOutJudged, Chain,
         Conservation.AccountOf, Conservation.InFlight, Conservation.ConservationDefect;
    if cohort in v.cohorts.accounts {
      SomeInFlight(v.cohorts.accounts[cohort], Chain(exp.cell).value, paths, cohort);
    }
  }

  lemma SomeInFlight(a: Conservation.CohortAccount, spans: seq<Span>, paths: Paths, cohort: uint32)
    requires Conservation.AccountOf(a, spans, paths, cohort)
    ensures exists q :: q in paths && q.cohort == cohort && Conservation.InFlight(paths[q])
  {
    hide Conservation.InFlight, Conservation.CohortTimes, Conservation.Total;
    var members := Conservation.Members(a.order, paths);
    var i := SomeMemberInFlight(members);
    assert a.order[i] in a.order;
  }

  lemma {:induction false} SomeMemberInFlight(members: seq<Joined>) returns (i: nat)
    requires Conservation.Intervals(members) != []
    ensures i < |members| && Conservation.InFlight(members[i])
  {
    hide Conservation.InFlight;
    var n := |members| - 1;
    if Conservation.InFlight(members[n]) { i := n; } else { i := SomeMemberInFlight(members[..n]); }
  }

  /**
   The execution of every cohort in which a request was computed is laid out, whether or not it formed,
   unless V is on.
   */
  lemma LayoutsExactly(exp: Expectation, records: seq<Decoded>, v: Verdict, cohort: uint32)
    requires Judges(exp, JoinOf(records), v)
    ensures cohort in v.cohorts.layouts <==>
              && exp.cell !in {F01, F11D, F11P}
              && exists q: LogicalRequest :: q.cohort == cohort && Recorded(records, q)
                   && SomeCarries(records, q, COMPUTE_START) && SomeCarries(records, q, COMPUTE_END)
  {
    LayoutsAre(exp, JoinOf(records), v, cohort);
    hide JoinOf, Judges, SomeCarries;
    forall q: LogicalRequest
      ensures q in JoinOf(records) <==> Recorded(records, q)
      ensures COMPUTE_START in PathOf(JoinOf(records), q).presence <==> SomeCarries(records, q, COMPUTE_START)
      ensures COMPUTE_END in PathOf(JoinOf(records), q).presence <==> SomeCarries(records, q, COMPUTE_END)
    {
      InJoin(records, q);
      StagePresent(records, q, COMPUTE_START);
      StagePresent(records, q, COMPUTE_END);
    }
  }

  lemma LayoutsAre(exp: Expectation, paths: Paths, v: Verdict, cohort: uint32)
    requires Judges(exp, paths, v)
    ensures cohort in v.cohorts.layouts <==>
              && exp.cell !in {F01, F11D, F11P}
              && exists q :: q in paths && q.cohort == cohort && Executions.Executed(paths[q])
  {
    hide PathsJudged, Diagnoses, AggregationDefect, AdapterJudged, ConservationJudged, FanOutJudged;
    if exp.cell !in {F01, F11D, F11P} {
      var orders :| Executions.Reported(paths, Executions.Executing(paths), orders, v.cohorts.layouts,
                                        v.cohorts.execution);
      hide ExecutionsJudged;
    }
  }

  /* ---- Executions in turn ---- */

  /** The request's path has the start of its computation, stage 9, and its end, stage 10. */
  predicate Computed(paths: Paths, q: LogicalRequest) {
    q in paths && 9 in paths[q].presence && 10 in paths[q].presence
  }

  /** Of two requests of a cohort, one was done when, or before, the other began. */
  predicate InTurn(paths: Paths, q: LogicalRequest, r: LogicalRequest)
    requires q in paths && r in paths
  {
    paths[q].ts[10] <= paths[r].ts[9] || paths[r].ts[10] <= paths[q].ts[9]
  }

  /** An instantaneous computation began with one that went on. */
  predicate BeganWith(paths: Paths, q: LogicalRequest, r: LogicalRequest)
    requires q in paths && r in paths
  {
    paths[q].ts[9] == paths[q].ts[10] == paths[r].ts[9] < paths[r].ts[10]
  }

  ghost predicate AllInTurn(paths: Paths) {
    forall q, r :: Computed(paths, q) && Computed(paths, r) && q != r && q.cohort == r.cohort ==> InTurn(paths, q, r)
  }

  ghost predicate NoneBeganWith(paths: Paths) {
    forall q, r :: Computed(paths, q) && Computed(paths, r) && q.cohort == r.cohort ==> !BeganWith(paths, q, r)
  }

  /** The request began while another of its cohort was being computed. */
  ghost predicate BeganDuring(paths: Paths, q: LogicalRequest) {
    && Computed(paths, q)
    && exists r :: Computed(paths, r) && r != q && r.cohort == q.cohort
                   && paths[r].ts[9] <= paths[q].ts[9] < paths[r].ts[10]
  }

  /**
   At V=off, where no computation ends before it starts: naming nothing means that any two requests
   of a cohort were computed in turn, and no less where no instantaneous one began with one that went
   on; and whoever is named began while another of its cohort was being computed.
   */
  lemma TurnsExactly(exp: Expectation, paths: Paths, v: Verdict)
    requires Judges(exp, paths, v) && exp.cell !in {F01, F11D, F11P}
    requires forall q :: Computed(paths, q) ==> paths[q].ts[9] <= paths[q].ts[10]
    ensures v.cohorts.execution == [] ==> AllInTurn(paths)
    ensures NoneBeganWith(paths) ==> (v.cohorts.execution == [] <==> AllInTurn(paths))
    ensures forall q :: Overlapping(q) in v.cohorts.execution ==> BeganDuring(paths, q)
  {
    var orders := ExecutionOrders(exp, paths, v);
    TurnsAre(paths);
    assert Executions.ForwardPaths(paths);
    hide *;
    Executions.ReportMeans(paths, orders, v.cohorts.layouts, v.cohorts.execution);
    forall q | Overlapping(q) in v.cohorts.execution ensures BeganDuring(paths, q) {
      NamedInOrders(paths, orders, v.cohorts.layouts, v.cohorts.execution, q);
    }
  }

  lemma NamedInOrders(paths: Paths, orders: map<uint32, seq<Executions.Window>>,
                      layouts: map<uint32, Executions.Layout>,
                      found: seq<Defect>, q: LogicalRequest)
    requires Executions.Reported(paths, Executions.Executing(paths), orders, layouts, found) && Overlapping(q) in found
    ensures BeganDuring(paths, q)
  {
    hide BeganDuring, Executions.NamedIn, Executions.LaidOut, Executions.Ordered, Executions.Executing;
    var c :| c in orders && Executions.NamedIn(orders[c], Overlapping(q));
    NamedOverlaps(paths, orders[c], c, q);
  }

  lemma ExecutionOrders(exp: Expectation, paths: Paths, v: Verdict)
    returns (orders: map<uint32, seq<Executions.Window>>)
    requires Judges(exp, paths, v) && exp.cell !in {F01, F11D, F11P}
    ensures Executions.Reported(paths, Executions.Executing(paths), orders, v.cohorts.layouts, v.cohorts.execution)
  {
    hide PathsJudged, Diagnoses, AggregationDefect, AdapterJudged, ConservationJudged, FanOutJudged,
         Executions.Reported;
    orders :| Executions.Reported(paths, Executions.Executing(paths), orders, v.cohorts.layouts, v.cohorts.execution);
  }

  lemma TurnsAre(paths: Paths)
    ensures Executions.OneAtATime(paths) <==> AllInTurn(paths)
    ensures Executions.ClearStarts(paths) <==> NoneBeganWith(paths)
  {
  }

  lemma NamedOverlaps(paths: Paths, w: seq<Executions.Window>, cohort: uint32, q: LogicalRequest)
    requires Executions.Ordered(w, paths, cohort) && Executions.NamedIn(w, Overlapping(q))
    ensures BeganDuring(paths, q)
  {
    var k :| 0 < k < |w| && Executions.Gap(w, k) < 0 && Overlapping(q) == Overlapping(w[k].q);
    var r := w[k - 1].q;
    assert w[k] in multiset(w) && w[k - 1] in multiset(w);
    if r == q {
      assert w[k] == w[k - 1];
      OnceMeansDistinct(w, k - 1, k);
    }
    assert Computed(paths, r);
  }

  /** Process e's claim to a dispatch is named where the request's cohort formed and its path names an envelope. */
  lemma ForeignExactly(exp: Expectation, records: seq<Decoded>, v: Verdict, q: LogicalRequest, e: Emitter)
    requires Judges(exp, JoinOf(records), v)
    ensures ForeignDispatch(q, e) in v.cohorts.fanOut <==>
              && exp.cell !in {D0, UnknownCell} && (exp.cell in {F10, F11D, F11P} ==> exp.maxDispatchSkew > 0)
              && e != 3 && Seen(exp, records, q) && (exists id :: Names(records, q, id))
              && exists i :: Of(records, q, i) && records[i].record.emitter == e && records[i].record.hasDispatch
  {
    ForeignPart(exp, JoinOf(records), v, q, e);
    SeenIsVisible(exp, records, v, q);
    hide JoinOf, Judges, Seen, Names, PathOf;
    ClaimOnRecords(records, q, e);
    NamesSome(records, q);
    InPaths(records, q);
  }

  lemma NamesSome(records: seq<Decoded>, q: LogicalRequest)
    ensures (exists id :: Names(records, q, id)) <==> q in JoinOf(records) && PathOf(JoinOf(records), q).envelopeID != 0
  {
    hide JoinOf, PathOf, Names;
    NamesOnPath(records, q, PathOf(JoinOf(records), q).envelopeID);
    if id :| Names(records, q, id) {
      NamesOnPath(records, q, id);
    }
  }

  lemma ClaimOnRecords(records: seq<Decoded>, q: LogicalRequest, e: Emitter)
    ensures e in PathOf(JoinOf(records), q).dispatchBySource <==>
            exists i :: Of(records, q, i) && records[i].record.emitter == e && records[i].record.hasDispatch
  {
    hide JoinOf, PathOf;
    NothingUnseen(records, q, e);
    if k :| Of(records, q, k) && records[k].record.emitter == e && records[k].record.hasDispatch {
      var i := LastSuch(records, q, (r: Record) => r.emitter == e && r.hasDispatch, k);
      assert LastDispatchedBy(records, q, e, i);
      DispatchedMeans(records, q, e, i);
    }
  }

  lemma ForeignPart(exp: Expectation, paths: Paths, v: Verdict, q: LogicalRequest, e: Emitter)
    requires Judges(exp, paths, v)
    ensures var visible := Without(paths, v.failures.Keys);
            ForeignDispatch(q, e) in v.cohorts.fanOut <==>
              && exp.cell !in {D0, UnknownCell} && (exp.cell in {F10, F11D, F11P} ==> exp.maxDispatchSkew > 0)
              && e != 3 && q in visible && visible[q].envelopeID != 0 && e in visible[q].dispatchBySource
  {
    hide PathsJudged, Diagnoses, AggregationDefect, AdapterJudged, ConservationJudged, ExecutionsJudged,
         FanOut.ReleaseOf,
         Without;
  }

  /* ---- The backend's counts ---- */

  /** The contamination check names nothing if and only if the backend counted exactly this run. */
  lemma ContaminationExactly(exp: Expectation, paths: Paths, v: Verdict)
    requires Judges(exp, paths, v)
    ensures v.paths.contamination == [] <==>
              && exp.executionCountDelta == exp.executions % TWO_64
              && exp.inferenceCountDelta == (exp.cohortCount * exp.cohortSize) % TWO_64
              && (forall size :: size in exp.batchSizeHistogram ==> size == exp.batchSize % TWO_64)
              && (exp.executions > 0 ==> exp.batchSizeHistogram != map[])
  {
    ContaminationPart(exp, paths, v);
    hide Judges, ContaminationDefect;
    NoneIn(v.paths.contamination);
    NoneContaminated(exp);
  }

  lemma NoneContaminated(exp: Expectation)
    ensures (forall d :: !ContaminationDefect(exp, d)) <==>
              && exp.executionCountDelta == exp.executions % TWO_64
              && exp.inferenceCountDelta == (exp.cohortCount * exp.cohortSize) % TWO_64
              && (forall size :: size in exp.batchSizeHistogram ==> size == exp.batchSize % TWO_64)
              && (exp.executions > 0 ==> exp.batchSizeHistogram != map[])
  {
    assert |exp.batchSizeHistogram| == 0 <==> exp.batchSizeHistogram == map[];
    assert !ContaminationDefect(exp, ExecutionCount) <==> exp.executionCountDelta == exp.executions % TWO_64;
    assert !ContaminationDefect(exp, InferenceCount) <==>
           exp.inferenceCountDelta == (exp.cohortCount * exp.cohortSize) % TWO_64;
    assert forall size :: !ContaminationDefect(exp, Coalesced(size)) <==>
                          (size in exp.batchSizeHistogram ==> size == exp.batchSize % TWO_64);
    assert !ContaminationDefect(exp, NoHistogram) <==> (exp.executions > 0 ==> |exp.batchSizeHistogram| > 0);
  }

  lemma ContaminationPart(exp: Expectation, paths: Paths, v: Verdict)
    requires Judges(exp, paths, v)
    ensures forall d :: d in v.paths.contamination <==> ContaminationDefect(exp, d)
  {
    hide CohortsJudged, Diagnoses, IntegrityDefect, RuleDefect, ContaminationDefect;
  }

  /** A run passes if and only if no check names anything. */
  lemma PassedExactly(exp: Expectation, paths: Paths, v: Verdict)
    requires Judges(exp, paths, v)
    ensures v.passed <==> forall d ::
              && d !in v.paths.integrity && d !in v.paths.clock && d !in v.paths.presence && d !in v.paths.ownership
              && d !in v.paths.ordering && d !in v.paths.membership && d !in v.paths.contamination
              && d !in v.cohorts.aggregation && d !in v.cohorts.formation && d !in v.cohorts.adapter
              && d !in v.cohorts.conservation && d !in v.cohorts.execution && d !in v.cohorts.fanOut
  {
    hide PathsJudged, CohortsJudged, Diagnoses;
    NoPathFindings(v.paths);
    NoCohortFindings(v.cohorts);
  }

  lemma NoneIn(found: seq<Defect>)
    ensures found == [] <==> forall d :: d !in found
  {
    if found != [] {
      assert found[0] in found;
    }
  }

  lemma NoPathFindings(p: PathFindings)
    ensures p.None() <==> forall d ::
              && d !in p.integrity && d !in p.clock && d !in p.presence && d !in p.ownership && d !in p.ordering
              && d !in p.membership && d !in p.contamination
  {
    NoneIn(p.integrity);
    NoneIn(p.clock);
    NoneIn(p.presence);
    NoneIn(p.ownership);
    NoneIn(p.ordering);
    NoneIn(p.membership);
    NoneIn(p.contamination);
  }

  lemma NoCohortFindings(c: CohortFindings)
    ensures c.None() <==> forall d ::
              && d !in c.aggregation && d !in c.formation && d !in c.adapter && d !in c.conservation
              && d !in c.execution && d !in c.fanOut
  {
    NoneIn(c.aggregation);
    NoneIn(c.formation);
    NoneIn(c.adapter);
    NoneIn(c.conservation);
    NoneIn(c.execution);
    NoneIn(c.fanOut);
  }
}
