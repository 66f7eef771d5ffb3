/**
 What a verdict means (internal/validate/validate.go, internal/validate/aggregation.go): a
 run that passes at F10 with batch size 1 is the run its cell claims, stated on the records
 themselves as far as the join keeps them.
 */
module Soundness {
  import opened Identity
  import opened Schema
  import opened Chains
  import opened Joins
  import opened PathMeaning
  import opened Checks
  import opened Aggregation
  import opened Verdict
  import Executions
  import Conservation
  import FanOut

  function PathOfRun(records: seq<Decoded>, q: LogicalRequest): Joined {
    PathOf(JoinOf(records), q)
  }

  /** A verdict without findings names no defect of any check. */
  lemma PassedNamesNothing(exp: Expectation, paths: Paths, v: Verdict)
    requires Judges(exp, paths, v) && v.passed && !exp.cell.UnknownCell?
    ensures v.failures == map[] && Without(paths, v.failures.Keys) == paths
    ensures forall d :: !IntegrityDefect(exp, paths, d) && !ContaminationDefect(exp, d)
    ensures forall d :: !AggregationDefect(exp, paths, d)
    ensures forall d :: !RuleDefect(exp, ClockRule, paths, d)
    ensures forall d :: !RuleDefect(exp, OwnershipRule, paths, d)
    ensures forall d :: !RuleDefect(exp, MembershipRule, paths, d)
    ensures forall d :: !RuleDefect(exp, PresenceRule(Topology(exp.cell).value), paths, d)
    ensures forall d :: !RuleDefect(exp, OrderingRule(Chain(exp.cell).value), paths, d)
  {
    hide IntegrityDefect, ContaminationDefect, AggregationDefect, RuleDefect, Diagnoses, ConservationJudged,
         FanOutJudged, ExecutionsJudged, AdapterJudged;
    forall c ensures c !in v.failures {
      assert FormationFailed(c) !in v.cohorts.formation;
    }
    assert v.failures == map[];
    assert Without(paths, {}) == paths;
    assert v.failures.Keys == {};
    forall d
      ensures !IntegrityDefect(exp, paths, d) && !ContaminationDefect(exp, d) && !AggregationDefect(exp, paths, d)
    {
      assert d !in v.paths.integrity && d !in v.paths.contamination && d !in v.cohorts.aggregation;
    }
    forall d ensures !RuleDefect(exp, ClockRule, paths, d) { assert d !in v.paths.clock; }
    forall d ensures !RuleDefect(exp, OwnershipRule, paths, d) { assert d !in v.paths.ownership; }
    forall d ensures !RuleDefect(exp, MembershipRule, paths, d) { assert d !in v.paths.membership; }
    forall d
      ensures !RuleDefect(exp, PresenceRule(Topology(exp.cell).value), paths, d)
    {
      assert d !in v.paths.presence;
    }
    forall d ensures !RuleDefect(exp, OrderingRule(Chain(exp.cell).value), paths, d) { assert d !in v.paths.ordering; }
  }

  /* ---- Requests ---- */

  /** Exactly the scheduled requests are in the evidence, each once per process, each finished well. */
  ghost predicate ExactlyScheduled(exp: Expectation, records: seq<Decoded>) {
    && exp.droppedRecords == 0
    && (forall q :: Recorded(records, q) <==> Scheduled(exp, q))
    && (forall q, e :: CountOf(records, q, e) <= 1)
    && (forall d :: d in records ==> StatusRank(d.record.status) <= StatusRank(STATUS_OK))
  }

  lemma IntegrityMeans(exp: Expectation, records: seq<Decoded>)
    requires forall d :: !IntegrityDefect(exp, JoinOf(records), d)
    ensures ExactlyScheduled(exp, records)
  {
    hide JoinOf, Scheduled, PathOf, CountOf;
    var paths := JoinOf(records);
    assert !IntegrityDefect(exp, paths, DroppedRecords);
    forall q ensures (q in paths <==> Scheduled(exp, q)) && (Recorded(records, q) <==> Scheduled(exp, q)) {
      InJoin(records, q);
      assert IntegrityAt(paths, q, MissingRequest(q)) <==> q !in paths;
      assert !IntegrityDefect(exp, paths, MissingRequest(q)) && !IntegrityDefect(exp, paths, Unscheduled(q));
    }
    forall q, e ensures CountOf(records, q, e) <= 1 {
      CountsOnce(exp, records, q, e);
    }
    forall d | d in records ensures StatusRank(d.record.status) <= StatusRank(STATUS_OK) {
      FinishedWell(exp, records, d);
    }
  }

  lemma CountsOnce(exp: Expectation, records: seq<Decoded>, q: LogicalRequest, e: Emitter)
    requires forall d :: !IntegrityDefect(exp, JoinOf(records), d)
    ensures CountOf(records, q, e) <= 1
  {
    hide JoinOf, Scheduled, CountOf;
    var paths := JoinOf(records);
    EmittersMean(records, q, e);
    if q in paths {
      assert !IntegrityDefect(exp, paths, Unscheduled(q)) && !IntegrityDefect(exp, paths, DuplicateRecord(q, e));
      assert IntegrityAt(paths, q, DuplicateRecord(q, e)) <==> e in paths[q].emitters && paths[q].emitters[e] > 1;
    }
  }

  lemma FinishedWell(exp: Expectation, records: seq<Decoded>, d: Decoded)
    requires (forall x :: !IntegrityDefect(exp, JoinOf(records), x)) && d in records
    ensures StatusRank(d.record.status) <= StatusRank(STATUS_OK)
  {
    hide JoinOf, Scheduled;
    var paths := JoinOf(records);
    var q := d.record.Request();
    var i :| 0 <= i < |records| && records[i] == d;
    assert Of(records, q, i);
    InJoin(records, q);
    StatusMeans(records, q);
    assert !IntegrityDefect(exp, paths, Unscheduled(q)) && !IntegrityDefect(exp, paths, RequestFailed(q));
    assert IntegrityAt(paths, q, RequestFailed(q)) <==> paths[q].status != STATUS_OK;
  }

  /* ---- Clocks and schemas ---- */

  /** No request's records mix clock domains, and where the run names its own every record is of it. */
  ghost predicate OneClock(exp: Expectation, records: seq<Decoded>) {
    && (forall i, j ::
         0 <= i < |records| && 0 <= j < |records| && records[i].record.Request() == records[j].record.Request() ==>
          records[i].header.clockDomain == records[j].header.clockDomain)
    && (exp.clockDomain != [] ==> forall i :: 0 <= i < |records| ==> records[i].header.clockDomain == exp.clockDomain)
  }

  lemma ClockMeans(exp: Expectation, records: seq<Decoded>)
    requires forall d :: !RuleDefect(exp, ClockRule, JoinOf(records), d)
    ensures OneClock(exp, records)
  {
    hide JoinOf, RuleDefect;
    forall i | 0 <= i < |records|
      ensures exp.clockDomain != [] ==> records[i].header.clockDomain == exp.clockDomain
      ensures forall j :: 0 <= j < |records| && records[i].record.Request() == records[j].record.Request() ==>
                records[i].header.clockDomain == records[j].header.clockDomain
    {
      ClockOfRequest(exp, records, records[i].record.Request(), i);
    }
  }

  lemma ClockOfRequest(exp: Expectation, records: seq<Decoded>, q: LogicalRequest, i: nat)
    requires (forall d :: !RuleDefect(exp, ClockRule, JoinOf(records), d)) && Of(records, q, i)
    ensures exp.clockDomain != [] ==> records[i].header.clockDomain == exp.clockDomain
    ensures forall j :: Of(records, q, j) ==> records[i].header.clockDomain == records[j].header.clockDomain
  {
    hide JoinOf;
    var paths, x := JoinOf(records), records[i].header.clockDomain;
    PathAt(records, q);
    DomainsMean(records, q);
    var domains := paths[q].domains;
    assert x in domains;
    assert !RuleDefect(exp, ClockRule, paths, MixedDomains(q));
    assert !RuleDefect(exp, ClockRule, paths, ForeignDomain(q, x));
    assert !RuleAt(exp, ClockRule, paths[q], MixedDomains(q)) && !RuleAt(exp, ClockRule, paths[q], ForeignDomain(q, x));
    forall j | Of(records, q, j) ensures x == records[j].header.clockDomain {
      AtMostOne(domains, x, records[j].header.clockDomain);
    }
  }

  /** No request's records mix schema versions. */
  ghost predicate OneSchemaEach(records: seq<Decoded>) {
    forall i, j ::
      0 <= i < |records| && 0 <= j < |records| && records[i].record.Request() == records[j].record.Request() ==>
      records[i].schemaVersion == records[j].schemaVersion
  }

  lemma SchemasMean(exp: Expectation, records: seq<Decoded>)
    requires forall d :: !IntegrityDefect(exp, JoinOf(records), d)
    ensures OneSchemaEach(records)
  {
    hide JoinOf, Scheduled;
    var paths := JoinOf(records);
    forall i, j | 0 <= i < |records| && 0 <= j < |records| && records[i].record.Request() == records[j].record.Request()
      ensures records[i].schemaVersion == records[j].schemaVersion
    {
      var q := records[i].record.Request();
      assert Of(records, q, i) && Of(records, q, j);
      PathAt(records, q);
      DomainsMean(records, q);
      assert !IntegrityDefect(exp, paths, Unscheduled(q)) && !IntegrityDefect(exp, paths, MixedSchemas(q));
      assert IntegrityAt(paths, q, MixedSchemas(q)) <==> |paths[q].schemaVersions| > 1;
      AtMostOne(paths[q].schemaVersions, records[i].schemaVersion, records[j].schemaVersion);
    }
  }

  lemma AtMostOne<T>(s: set<T>, x: T, y: T)
    requires |s| <= 1 && x in s && y in s
    ensures x == y
  {
    assert |s - {x}| == |s| - 1;
    assert s - {x} == {};
  }

  /** The backend's own counts are the run's: its executions, its requests, and no batch of another size. */
  ghost predicate NotContaminated(exp: Expectation) {
    && exp.executionCountDelta == ToUint64(exp.executions)
    && exp.inferenceCountDelta == (exp.cohortCount * exp.cohortSize) % TWO_64
    && (forall size :: size in exp.batchSizeHistogram ==> size == ToUint64(exp.batchSize))
    && (exp.executions > 0 ==> |exp.batchSizeHistogram| > 0)
  }

  lemma ContaminationMeans(exp: Expectation)
    requires forall d :: !ContaminationDefect(exp, d)
    ensures NotContaminated(exp)
  {
    assert !ContaminationDefect(exp, ExecutionCount) && !ContaminationDefect(exp, InferenceCount);
    assert !ContaminationDefect(exp, NoHistogram);
    forall size | size in exp.batchSizeHistogram ensures size == ToUint64(exp.batchSize) {
      assert !ContaminationDefect(exp, Coalesced(size));
    }
  }

  /* ---- Paths ---- */

  lemma PathAt(records: seq<Decoded>, q: LogicalRequest)
    requires Recorded(records, q)
    ensures q in JoinOf(records) && JoinOf(records)[q] == PathOfRun(records, q) && PathOfRun(records, q).request == q
  {
    hide JoinOf;
    InJoin(records, q);
  }

  /** Every stage of the cell's path was recorded for every request, and no other stage. */
  ghost predicate WholePaths(exp: Expectation, records: seq<Decoded>)
    requires Topology(exp.cell).Some?
  {
    forall q, s: Stage :: Recorded(records, q) ==> (SomeCarries(records, q, s) <==> s in Topology(exp.cell).value)
  }

  lemma PresenceMeans(exp: Expectation, records: seq<Decoded>)
    requires Topology(exp.cell).Some?
    requires forall d :: !RuleDefect(exp, PresenceRule(Topology(exp.cell).value), JoinOf(records), d)
    ensures WholePaths(exp, records)
  {
    hide JoinOf, Topology, SomeCarries;
    var paths, rule := JoinOf(records), PresenceRule(Topology(exp.cell).value);
    forall q, s: Stage | Recorded(records, q)
      ensures SomeCarries(records, q, s) <==> s in Topology(exp.cell).value
    {
      PathAt(records, q);
      StagePresent(records, q, s);
      assert !RuleDefect(exp, rule, paths, MissingTimestamp(q, s));
      assert !RuleDefect(exp, rule, paths, UnexpectedStage(q, s));
      assert !RuleAt(exp, rule, paths[q], MissingTimestamp(q, s));
      assert !RuleAt(exp, rule, paths[q], UnexpectedStage(q, s));
    }
  }

  /** The last record to carry a stage was written by the process that owns it. */
  ghost predicate LastOwned(exp: Expectation, records: seq<Decoded>) {
    forall q, s: Stage, i :: LastToCarry(records, q, s, i) ==> s in OwnedStages(exp.cell, records[i].record.emitter)
  }

  lemma OwnershipMeans(exp: Expectation, records: seq<Decoded>)
    requires forall d :: !RuleDefect(exp, OwnershipRule, JoinOf(records), d)
    ensures LastOwned(exp, records)
  {
    hide JoinOf, OwnedStages, SomeCarries;
    var paths := JoinOf(records);
    forall q, s: Stage, i | LastToCarry(records, q, s, i)
      ensures s in OwnedStages(exp.cell, records[i].record.emitter)
    {
      assert Of(records, q, i);
      PathAt(records, q);
      StageValue(records, q, s, i);
      Carrying(records, q, s, i);
      StagePresent(records, q, s);
      assert !RuleDefect(exp, OwnershipRule, paths, WrongOwner(q, s));
      assert !RuleAt(exp, OwnershipRule, paths[q], WrongOwner(q, s));
    }
  }

  /** Every stage of the cell's path was written, for every request, by the process that owns it. */
  ghost predicate OwnersWrote(exp: Expectation, records: seq<Decoded>)
    requires Topology(exp.cell).Some?
  {
    forall q, s: Stage :: Recorded(records, q) && s in Topology(exp.cell).value ==>
      exists i :: Of(records, q, i) && records[i].record.Has(s) && s in OwnedStages(exp.cell, records[i].record.emitter)
  }

  lemma OwnersWroteThem(exp: Expectation, records: seq<Decoded>)
    requires Topology(exp.cell).Some? && WholePaths(exp, records) && LastOwned(exp, records)
    ensures OwnersWrote(exp, records)
  {
    hide OwnedStages, Topology, MaskHas;
    forall q, s: Stage | Recorded(records, q) && s in Topology(exp.cell).value
      ensures exists i :: Of(records, q, i)
                && records[i].record.Has(s) && s in OwnedStages(exp.cell, records[i].record.emitter)
    {
      assert SomeCarries(records, q, s);
      var i := LastCarrier(records, q, s);
      assert Of(records, q, i);
    }
  }

  lemma Carrying(records: seq<Decoded>, q: LogicalRequest, s: Stage, i: int)
    requires Of(records, q, i) && records[i].record.Has(s)
    ensures SomeCarries(records, q, s)
  {
  }

  /** No request's joined timestamps go backwards along the chain. */
  ghost predicate NeverBackwards(exp: Expectation, records: seq<Decoded>)
    requires Chain(exp.cell).Some?
  {
    forall q, span :: Recorded(records, q) && span in Chain(exp.cell).value ==>
      !Backwards(PathOfRun(records, q), span)
  }

  lemma OrderingMeans(exp: Expectation, records: seq<Decoded>)
    requires Chain(exp.cell).Some?
    requires forall d :: !RuleDefect(exp, OrderingRule(Chain(exp.cell).value), JoinOf(records), d)
    ensures NeverBackwards(exp, records)
  {
    hide JoinOf, Chain, PathOfRun, Backwards;
    var paths, rule := JoinOf(records), OrderingRule(Chain(exp.cell).value);
    forall q, span | Recorded(records, q) && span in Chain(exp.cell).value
      ensures !Backwards(PathOfRun(records, q), span)
    {
      PathAt(records, q);
      assert !RuleDefect(exp, rule, paths, NonMonotonic(q, span));
      assert !RuleAt(exp, rule, paths[q], NonMonotonic(q, span));
    }
  }

  /** The last records to carry the two ends of a span of one request are in its order. */
  ghost predicate LastsForward(exp: Expectation, records: seq<Decoded>)
    requires Chain(exp.cell).Some?
  {
    forall q, span, i, j ::
      span in Chain(exp.cell).value
      && LastToCarry(records, q, span.start, i) && LastToCarry(records, q, span.end, j) ==>
      records[i].record.ts[span.start] <= records[j].record.ts[span.end]
  }

  lemma ForwardOnRecords(exp: Expectation, records: seq<Decoded>)
    requires Chain(exp.cell).Some? && NeverBackwards(exp, records)
    ensures LastsForward(exp, records)
  {
    hide JoinOf, Chain, MaskHas;
    forall q, span, i, j |
      span in Chain(exp.cell).value && LastToCarry(records, q, span.start, i) && LastToCarry(records, q, span.end, j)
      ensures records[i].record.ts[span.start] <= records[j].record.ts[span.end]
    {
      assert Of(records, q, i) && Of(records, q, j);
      StageValue(records, q, span.start, i);
      StageValue(records, q, span.end, j);
      StagePresent(records, q, span.start);
      StagePresent(records, q, span.end);
      assert !Backwards(PathOfRun(records, q), span);
    }
  }

  /** Every request's execution attested exactly its own uid. */
  ghost predicate OwnUidOnly(records: seq<Decoded>) {
    forall q :: Recorded(records, q) ==> PathOfRun(records, q).membership == [Uid(q)]
  }

  lemma MembershipAlone(exp: Expectation, records: seq<Decoded>)
    requires exp.batchSize == 1
    requires forall d :: !RuleDefect(exp, MembershipRule, JoinOf(records), d)
    ensures OwnUidOnly(records)
  {
    hide JoinOf, Uid, PathOfRun, SourcesDiffer, MemberAt;
    var paths := JoinOf(records);
    forall q | Recorded(records, q) ensures PathOfRun(records, q).membership == [Uid(q)] {
      PathAt(records, q);
      forall d ensures !MembershipAt(exp, paths[q], d) {
        assert !RuleDefect(exp, MembershipRule, paths, d);
        assert !RuleAt(exp, MembershipRule, paths[q], d);
      }
      assert !MembershipAt(exp, paths[q], NothingAttested(q)) && !MembershipAt(exp, paths[q], SelfMissing(q));
      assert !MembershipAt(exp, paths[q], WrongCardinality(q));
    }
  }

  /** Some record of the request attests, and each that does attests exactly the request's own uid. */
  ghost predicate AttestAlone(records: seq<Decoded>) {
    forall q :: Recorded(records, q) ==>
      && (exists i :: Of(records, q, i) && records[i].record.membership != [])
      && (forall i :: Of(records, q, i) && records[i].record.membership != [] ==>
            records[i].record.membership == [Uid(q)])
  }

  /** The last record to attest counts one member, and the last to state a batch size states one, for every request. */
  ghost predicate LastsOfOne(records: seq<Decoded>) {
    && (forall q, i :: LastToAttest(records, q, i) ==> records[i].record.membershipCount == 1)
    && (forall q, i :: LastToSize(records, q, i) ==> records[i].record.batchSize == 1)
    && (forall q :: Recorded(records, q) ==> exists i :: Of(records, q, i) && records[i].record.batchSize > 0)
  }

  lemma AttestedOnRecords(exp: Expectation, records: seq<Decoded>)
    requires exp.batchSize == 1 && OwnUidOnly(records) && forall q, e :: CountOf(records, q, e) <= 1
    requires forall d :: !RuleDefect(exp, MembershipRule, JoinOf(records), d)
    ensures AttestAlone(records)
  {
    hide JoinOf, Uid, CountOf, RuleDefect;
    forall q | Recorded(records, q)
      ensures exists i :: Of(records, q, i) && records[i].record.membership != []
    {
      NothingUnsaid(records, q);
    }
    forall q, i | Recorded(records, q) && Of(records, q, i) && records[i].record.membership != []
      ensures records[i].record.membership == [Uid(q)]
    {
      SourcesAgree(exp, records, q, i);
    }
  }

  /** The sources' agreement carries what the join settled on to every record that attests. */
  lemma SourcesAgree(exp: Expectation, records: seq<Decoded>, q: LogicalRequest, i: nat)
    requires OwnUidOnly(records) && forall q, e :: CountOf(records, q, e) <= 1
    requires forall d :: !RuleDefect(exp, MembershipRule, JoinOf(records), d)
    requires Of(records, q, i) && records[i].record.membership != []
    ensures records[i].record.membership == [Uid(q)]
  {
    hide JoinOf, Uid, CountOf;
    var paths := JoinOf(records);
    PathAt(records, q);
    var last := LastSuch(records, q, (r: Record) => r.membership != [], i);
    assert LastToAttest(records, q, last);
    MembershipMeans(records, q, last);
    OnlyBy(records, q, i);
    OnlyBy(records, q, last);
    var e, f := records[i].record.emitter, records[last].record.emitter;
    AttestedMeans(records, q, e, i);
    AttestedMeans(records, q, f, last);
    assert !RuleDefect(exp, MembershipRule, paths, SourcesDisagree(q));
    assert !RuleAt(exp, MembershipRule, paths[q], SourcesDisagree(q));
    assert !SourcesDiffer(paths[q].membershipBySource);
    SameSingle(records[i].record.membership, Uid(q));
  }

  lemma SameSingle(m: seq<int64>, u: int64)
    requires multiset(m) == multiset([u])
    ensures m == [u]
  {
    assert |multiset(m)| == |m| == 1;
    assert m[0] in multiset(m);
  }

  /** Where each process wrote at most once for a request, its record is its last. */
  lemma OnlyBy(records: seq<Decoded>, q: LogicalRequest, i: nat)
    requires Of(records, q, i) && forall e :: CountOf(records, q, e) <= 1
    ensures forall k :: i < k < |records| && Of(records, q, k) ==>
            records[k].record.emitter != records[i].record.emitter
  {
    hide CountOf;
    CountPair(records, q, records[i].record.emitter, i);
  }

  lemma {:induction false} CountPair(records: seq<Decoded>, q: LogicalRequest, e: Emitter, i: nat)
    requires i < |records| && Of(records, q, i) && records[i].record.emitter == e
    ensures CountOf(records, q, e) >= 1
    ensures forall j :: i < j < |records| && Of(records, q, j) && records[j].record.emitter == e ==>
            CountOf(records, q, e) >= 2
  {
    var n := |records| - 1;
    if i < n {
      var before := records[..n];
      CountPair(before, q, e, i);
      forall j | i < j < |records| && Of(records, q, j) && records[j].record.emitter == e
        ensures CountOf(records, q, e) >= 2
      {
        if j < n {
          assert Of(before, q, j) && before[j] == records[j];
        }
      }
    }
  }

  lemma SinglesOnRecords(exp: Expectation, records: seq<Decoded>)
    requires exp.batchSize == 1 && OwnUidOnly(records)
    requires forall d :: !RuleDefect(exp, MembershipRule, JoinOf(records), d)
    ensures LastsOfOne(records)
  {
    hide JoinOf, Uid, RuleDefect, MemberAt, SourcesDiffer;
    forall q | Recorded(records, q)
      ensures PathOfRun(records, q).membershipCount == 1 && PathOfRun(records, q).batchSize == 1
    {
      SingleAt(exp, records, q);
    }
    forall q, i | LastToAttest(records, q, i) ensures records[i].record.membershipCount == 1 {
      assert Of(records, q, i);
      MembershipMeans(records, q, i);
      assert PathOfRun(records, q).membershipCount == 1;
    }
    forall q, i | LastToSize(records, q, i) ensures records[i].record.batchSize == 1 {
      assert Of(records, q, i);
      BatchSizeMeans(records, q, i);
      assert PathOfRun(records, q).batchSize == 1;
    }
    forall q | Recorded(records, q) ensures exists i :: Of(records, q, i) && records[i].record.batchSize > 0 {
      assert PathOfRun(records, q).batchSize == 1;
      NothingUnsaid(records, q);
    }
  }

  lemma SingleAt(exp: Expectation, records: seq<Decoded>, q: LogicalRequest)
    requires exp.batchSize == 1 && OwnUidOnly(records) && Recorded(records, q)
    requires forall d :: !RuleDefect(exp, MembershipRule, JoinOf(records), d)
    ensures PathOfRun(records, q).membershipCount == 1 && PathOfRun(records, q).batchSize == 1
  {
    hide JoinOf, Uid, MemberAt, SourcesDiffer;
    var paths := JoinOf(records);
    PathAt(records, q);
    assert !RuleDefect(exp, MembershipRule, paths, Truncated(q));
    assert !RuleDefect(exp, MembershipRule, paths, WrongBatchSize(q));
    assert !RuleAt(exp, MembershipRule, paths[q], Truncated(q));
    assert !RuleAt(exp, MembershipRule, paths[q], WrongBatchSize(q));
  }

  /* ---- Envelopes ---- */

  /** Each cohort reports one envelope and one value of every stage that describes it; no envelope has two cohorts. */
  ghost predicate OneEnvelopeEach(records: seq<Decoded>) {
    && (forall q :: Recorded(records, q) ==> ReportsEnvelope(records, q.cohort))
    && (forall q, r :: Recorded(records, q) && Recorded(records, r) ==>
          EnvelopesAgree(PathOfRun(records, q), PathOfRun(records, r)))
  }

  ghost predicate ReportsEnvelope(records: seq<Decoded>, cohort: uint32) {
    exists q :: Recorded(records, q) && q.cohort == cohort && PathOfRun(records, q).envelopeID != 0
  }

  ghost predicate EnvelopesAgree(a: Joined, b: Joined) {
    && (a.request.cohort == b.request.cohort ==>
          && (a.envelopeID != 0 && b.envelopeID != 0 ==> a.envelopeID == b.envelopeID)
          && (forall s :: s in ENVELOPE_STAGES && s in a.presence && s in b.presence ==> a.ts[s] == b.ts[s]))
    && (a.envelopeID != 0 && a.envelopeID == b.envelopeID ==> a.request.cohort == b.request.cohort)
  }

  lemma AggregationMeans(exp: Expectation, records: seq<Decoded>)
    requires exp.cell.AggregatesEnvelopes() && forall d :: !AggregationDefect(exp, JoinOf(records), d)
    ensures OneEnvelopeEach(records)
  {
    hide JoinOf, PathOfRun, EnvelopesAgree, ReportsEnvelope;
    forall q | Recorded(records, q) ensures ReportsEnvelope(records, q.cohort) {
      CohortReports(exp, records, q);
    }
    forall q, r | Recorded(records, q) && Recorded(records, r)
      ensures EnvelopesAgree(PathOfRun(records, q), PathOfRun(records, r))
    {
      PairAgrees(exp, records, q, r);
    }
  }

  /**
   The same on the records: some record of each cohort names an envelope; the last records of any
   two requests to name one name the same exactly when the requests are of one cohort; and the
   last of one cohort's to carry a stage of the envelope carry one value of it.
   */
  ghost predicate LastsShareEnvelope(records: seq<Decoded>) {
    && (forall q :: Recorded(records, q) ==>
          exists i :: 0 <= i < |records| && records[i].record.cohort == q.cohort && records[i].record.envelopeID != 0)
    && (forall q, r, i, j :: LastToName(records, q, i) && LastToName(records, r, j) ==>
          (q.cohort == r.cohort <==> records[i].record.envelopeID == records[j].record.envelopeID))
    && (forall q: LogicalRequest, r: LogicalRequest, s: Stage, i, j ::
          s in ENVELOPE_STAGES && q.cohort == r.cohort
          && LastToCarry(records, q, s, i) && LastToCarry(records, r, s, j) ==>
            records[i].record.ts[s] == records[j].record.ts[s])
  }

  lemma SomeNamer(records: seq<Decoded>, q: LogicalRequest)
    requires OneEnvelopeEach(records) && Recorded(records, q)
    ensures exists i :: 0 <= i < |records| && records[i].record.cohort == q.cohort && records[i].record.envelopeID != 0
  {
    hide JoinOf, MaskHas, EnvelopesAgree;
    assert ReportsEnvelope(records, q.cohort);
    var r :| Recorded(records, r) && r.cohort == q.cohort && PathOfRun(records, r).envelopeID != 0;
    NothingUnsaid(records, r);
    var i :| Of(records, r, i) && records[i].record.envelopeID != 0;
    assert records[i].record.cohort == q.cohort;
  }

  lemma EnvelopeOnRecords(records: seq<Decoded>)
    requires OneEnvelopeEach(records)
    ensures LastsShareEnvelope(records)
  {
    hide JoinOf, MaskHas, OneEnvelopeEach, Recorded;
    forall q | Recorded(records, q)
      ensures exists i :: 0 <= i < |records|
                && records[i].record.cohort == q.cohort && records[i].record.envelopeID != 0
    {
      SomeNamer(records, q);
    }
    forall q, r, i, j | LastToName(records, q, i) && LastToName(records, r, j)
      ensures q.cohort == r.cohort <==> records[i].record.envelopeID == records[j].record.envelopeID
    {
      NamersAgree(records, q, r, i, j);
    }
    forall q: LogicalRequest, r: LogicalRequest, s: Stage, i, j |
      s in ENVELOPE_STAGES && q.cohort == r.cohort && LastToCarry(records, q, s, i) && LastToCarry(records, r, s, j)
      ensures records[i].record.ts[s] == records[j].record.ts[s]
    {
      CarriersAgree(records, q, r, s, i, j);
    }
  }

  lemma NamersAgree(records: seq<Decoded>, q: LogicalRequest, r: LogicalRequest, i: nat, j: nat)
    requires OneEnvelopeEach(records) && LastToName(records, q, i) && LastToName(records, r, j)
    ensures q.cohort == r.cohort <==> records[i].record.envelopeID == records[j].record.envelopeID
  {
    hide JoinOf;
    assert Of(records, q, i) && Of(records, r, j);
    EnvelopeMeans(records, q, i);
    EnvelopeMeans(records, r, j);
    PathAt(records, q);
    PathAt(records, r);
    assert EnvelopesAgree(PathOfRun(records, q), PathOfRun(records, r));
  }

  lemma CarriersAgree(records: seq<Decoded>, q: LogicalRequest, r: LogicalRequest, s: Stage, i: nat, j: nat)
    requires OneEnvelopeEach(records) && LastToCarry(records, q, s, i) && LastToCarry(records, r, s, j)
    requires s in ENVELOPE_STAGES && q.cohort == r.cohort
    ensures records[i].record.ts[s] == records[j].record.ts[s]
  {
    hide JoinOf, MaskHas;
    assert Of(records, q, i) && Of(records, r, j);
    StageValue(records, q, s, i);
    StageValue(records, r, s, j);
    StagePresent(records, q, s);
    StagePresent(records, r, s);
    PathAt(records, q);
    PathAt(records, r);
    assert EnvelopesAgree(PathOfRun(records, q), PathOfRun(records, r));
  }

  lemma CohortReports(exp: Expectation, records: seq<Decoded>, q: LogicalRequest)
    requires exp.cell.AggregatesEnvelopes()
    requires (forall d :: !AggregationDefect(exp, JoinOf(records), d)) && Recorded(records, q)
    ensures ReportsEnvelope(records, q.cohort)
  {
    hide JoinOf;
    var paths := JoinOf(records);
    PathAt(records, q);
    assert !AggregationDefect(exp, paths, EnvelopeCardinality(q.cohort));
    assert |EnvelopeIds(paths, q.cohort)| == 1;
    var id :| id in EnvelopeIds(paths, q.cohort);
    var r :| r in paths && r.cohort == q.cohort && paths[r].envelopeID != 0 && paths[r].envelopeID == id;
    InJoin(records, r);
  }

  lemma PairAgrees(exp: Expectation, records: seq<Decoded>, q: LogicalRequest, r: LogicalRequest)
    requires exp.cell.AggregatesEnvelopes() && (forall d :: !AggregationDefect(exp, JoinOf(records), d))
    requires Recorded(records, q) && Recorded(records, r)
    ensures EnvelopesAgree(PathOfRun(records, q), PathOfRun(records, r))
  {
    hide JoinOf, AggregationDefect;
    var paths := JoinOf(records);
    PathAt(records, q);
    PathAt(records, r);
    if q.cohort == r.cohort {
      CohortAgrees(exp, paths, q, r);
    }
    if paths[q].envelopeID != 0 && paths[q].envelopeID == paths[r].envelopeID {
      OneCohortEach(exp, paths, q, r);
    }
  }

  lemma CohortAgrees(exp: Expectation, paths: Paths, q: LogicalRequest, r: LogicalRequest)
    requires exp.cell.AggregatesEnvelopes() && (forall d :: !AggregationDefect(exp, paths, d))
    requires q in paths && r in paths && q.cohort == r.cohort
    ensures paths[q].envelopeID != 0 && paths[r].envelopeID != 0 ==> paths[q].envelopeID == paths[r].envelopeID
    ensures forall s :: s in ENVELOPE_STAGES && s in paths[q].presence && s in paths[r].presence ==>
            paths[q].ts[s] == paths[r].ts[s]
  {
    hide AggregationDefect;
    if paths[q].envelopeID != 0 && paths[r].envelopeID != 0 {
      AtMostOneNamed(exp, paths, q);
      AtMostOne(EnvelopeIds(paths, q.cohort), paths[q].envelopeID, paths[r].envelopeID);
    }
    forall s | s in ENVELOPE_STAGES && s in paths[q].presence && s in paths[r].presence
      ensures paths[q].ts[s] == paths[r].ts[s]
    {
      AtMostOneValue(exp, paths, q, s);
      AtMostOne(Values(paths, q.cohort, s), paths[q].ts[s], paths[r].ts[s]);
    }
  }

  lemma AtMostOneNamed(exp: Expectation, paths: Paths, q: LogicalRequest)
    requires exp.cell.AggregatesEnvelopes() && (forall d :: !AggregationDefect(exp, paths, d)) && q in paths
    ensures |EnvelopeIds(paths, q.cohort)| == 1
  {
    hide EnvelopeIds;
    assert q.cohort in Cohorts(paths);
    assert !AggregationDefect(exp, paths, EnvelopeCardinality(q.cohort));
  }

  lemma AtMostOneValue(exp: Expectation, paths: Paths, q: LogicalRequest, s: Stage)
    requires exp.cell.AggregatesEnvelopes() && (forall d :: !AggregationDefect(exp, paths, d))
    requires q in paths && s in ENVELOPE_STAGES
    ensures |Values(paths, q.cohort, s)| <= 1
  {
    hide Values;
    assert q.cohort in Cohorts(paths);
    assert !AggregationDefect(exp, paths, StageDisagreement(q.cohort, s));
  }

  lemma OneCohortEach(exp: Expectation, paths: Paths, q: LogicalRequest, r: LogicalRequest)
    requires exp.cell.AggregatesEnvelopes() && (forall d :: !AggregationDefect(exp, paths, d))
    requires q in paths && r in paths && paths[q].envelopeID != 0 && paths[q].envelopeID == paths[r].envelopeID
    ensures q.cohort == r.cohort
  {
    assert !AggregationDefect(exp, paths, SharedEnvelope(paths[q].envelopeID));
    AtMostOne(Owners(paths, paths[q].envelopeID), q.cohort, r.cohort);
  }

  /* ---- Time ---- */

  /** Executions of one cohort never overlapped. */
  lemma ExecutionsMean(exp: Expectation, records: seq<Decoded>, f: CohortFindings)
    requires ExecutionsJudged(exp, JoinOf(records), f) && f.execution == [] && !exp.cell.VectorizesCompute()
    requires Chain(exp.cell).Some? && Span(SComp, COMPUTE_START, COMPUTE_END, true) in Chain(exp.cell).value
    requires NeverBackwards(exp, records)
    ensures Executions.OneAtATime(JoinOf(records))
  {
    hide JoinOf, Executions.OneAtATime, Executions.ClearStarts, Executions.Reported, Chain, PathOfRun;
    var paths := JoinOf(records);
    var span := Span(SComp, COMPUTE_START, COMPUTE_END, true);
    forall q | q in paths && Executions.Executed(paths[q])
      ensures paths[q].ts[COMPUTE_START] <= paths[q].ts[COMPUTE_END]
    {
      InJoin(records, q);
      PathAt(records, q);
      assert !Backwards(PathOfRun(records, q), span);
    }
    assert Executions.ForwardPaths(paths);
    var orders :| Executions.Reported(paths, Executions.Executing(paths), orders, f.layouts, f.execution);
    Executions.ReportMeans(paths, orders, f.layouts, f.execution);
  }

  /** No cohort leaves more of its makespan unnamed than the tolerance allows. */
  ghost predicate WithinTolerance(exp: Expectation, paths: Paths, accounts: map<uint32, Conservation.CohortAccount>)
    requires Chain(exp.cell).Some?
  {
    && (forall q :: q in paths && Conservation.InFlight(paths[q]) ==> q.cohort in accounts)
    && (forall c :: c in accounts ==>
          && Conservation.AccountOf(accounts[c], Chain(exp.cell).value, paths, c)
          && !Conservation.Exceeds(exp, accounts[c].residual, accounts[c].interval.makespan))
  }

  lemma ConservationMeans(exp: Expectation, paths: Paths, f: CohortFindings)
    requires ConservationJudged(exp, paths, f) && f.conservation == [] && exp.cell.AggregatesEnvelopes()
    ensures WithinTolerance(exp, paths, f.accounts)
  {
    hide Conservation.AccountOf, Conservation.InFlight, Conservation.Exceeds;
    forall c | c in f.accounts
      ensures !Conservation.Exceeds(exp, f.accounts[c].residual, f.accounts[c].interval.makespan)
    {
      assert CohortResidual(c) !in f.conservation;
    }
  }

  /** Every envelope's members were released within the bound, and the adapter's own account of it is true. */
  ghost predicate ReleasedTogether(exp: Expectation, paths: Paths, releases: map<uint64, FanOut.Release>) {
    && exp.maxDispatchSkew > 0
    && (forall q :: q in paths && paths[q].envelopeID != 0 ==> paths[q].envelopeID in releases)
    && (forall id :: id in releases ==> FanOut.ReleaseOf(releases[id], paths, id) && TrueRelease(exp, releases[id]))
  }

  predicate TrueRelease(exp: Expectation, r: FanOut.Release) {
    && r.evidence.Some? && r.evidence.value.dispatched == |r.order| && r.evidence.value.skewNanos == r.observedSkew
    && r.observedSkew <= exp.maxDispatchSkew && (|r.order| > 1 ==> r.overlapped)
  }

  lemma FanOutMeans(exp: Expectation, paths: Paths, f: CohortFindings)
    requires FanOutJudged(exp, paths, f) && f.fanOut == [] && exp.cell.AggregatesEnvelopes()
    ensures ReleasedTogether(exp, paths, f.releases)
  {
    hide FanOut.ReleaseOf, FanOut.ForeignAt, FanOut.ReleaseDefect, TrueRelease;
    forall id | id in f.releases ensures TrueRelease(exp, f.releases[id]) {
      var r := f.releases[id];
      forall d ensures !FanOut.ReleaseDefect(exp, id, r, d) {
        assert d !in f.fanOut;
        assert !FanOut.FanOutDefect(exp, paths, f.releases, d);
      }
      TrueWhenNothingNamed(exp, id, r);
    }
  }

  lemma TrueWhenNothingNamed(exp: Expectation, id: uint64, r: FanOut.Release)
    requires exp.maxDispatchSkew > 0 && forall d :: !FanOut.ReleaseDefect(exp, id, r, d)
    ensures TrueRelease(exp, r)
  {
    assert !FanOut.ReleaseDefect(exp, id, r, NoDispatchEvidence(id));
    assert !FanOut.ReleaseDefect(exp, id, r, MiscountedRelease(id));
    assert !FanOut.ReleaseDefect(exp, id, r, MisreportedSkew(id));
    assert !FanOut.ReleaseDefect(exp, id, r, SkewExceeds(id));
    assert !FanOut.ReleaseDefect(exp, id, r, SerialRelease(id));
  }

  /* ---- The verdict ---- */

  /** What the last record to say each thing says, in a run that passed at F10 with batch size 1. */
  ghost predicate SoundRecords(exp: Expectation, records: seq<Decoded>)
    requires Chain(exp.cell).Some? && Topology(exp.cell).Some?
  {
    && ExactlyScheduled(exp, records) && OneClock(exp, records) && OneSchemaEach(records)
    && WholePaths(exp, records) && LastOwned(exp, records) && OwnersWrote(exp, records) && LastsForward(exp, records)
    && LastsShareEnvelope(records) && AttestAlone(records) && LastsOfOne(records)
  }

  /**
   A pass at F10 with batch size 1 means: exactly the scheduled requests were recorded, at most
   once per process and none unsuccessfully, under one clock and one schema each; every request
   carries every stage of the path, each written by its owner, by it last, and none going backwards;
   each cohort travelled as one envelope of its own with one value of each stage that describes
   it; every record that attests members attests its own request alone, and no two executions of
   a cohort overlapped; the backend counted the run's executions and no others; every release
   stayed within its bound and every cohort's unnamed time within tolerance.
   */
  lemma VerdictSound(exp: Expectation, records: seq<Decoded>, v: Verdict)
    requires Judges(exp, JoinOf(records), v) && v.passed && exp.cell == F10 && exp.batchSize == 1
    ensures Chain(exp.cell).Some? && Topology(exp.cell).Some? && SoundRecords(exp, records) && NotContaminated(exp)
    ensures NeverBackwards(exp, records) && OneEnvelopeEach(records) && OwnUidOnly(records)
    ensures Executions.OneAtATime(JoinOf(records)) && WithinTolerance(exp, JoinOf(records), v.cohorts.accounts)
    ensures ReleasedTogether(exp, JoinOf(records), v.cohorts.releases)
  {
    hide JoinOf, Judges, IntegrityDefect, AggregationDefect, RuleDefect, ContaminationDefect, Chain, Topology,
         ExactlyScheduled, WholePaths, LastOwned, NeverBackwards, OneEnvelopeEach, OwnUidOnly, WithinTolerance,
         ReleasedTogether, ExecutionsJudged, ConservationJudged, FanOutJudged, Executions.OneAtATime, SoundRecords,
         NotContaminated;
    KnownCell(exp.cell);
    PassedNamesNothing(exp, JoinOf(records), v);
    RecordsSound(exp, records);
    ContaminationMeans(exp);
    PassedParts(exp, JoinOf(records), v);
    ExecutionsMean(exp, records, v.cohorts);
    ConservationMeans(exp, JoinOf(records), v.cohorts);
    FanOutMeans(exp, JoinOf(records), v.cohorts);
  }

  /** The checks of single paths and of envelopes together. */
  lemma RecordsSound(exp: Expectation, records: seq<Decoded>)
    requires exp.cell.AggregatesEnvelopes() && exp.batchSize == 1 && Chain(exp.cell).Some? && Topology(exp.cell).Some?
    requires forall d :: !IntegrityDefect(exp, JoinOf(records), d) && !AggregationDefect(exp, JoinOf(records), d)
    requires forall d :: !RuleDefect(exp, ClockRule, JoinOf(records), d)
    requires forall d :: !RuleDefect(exp, OwnershipRule, JoinOf(records), d)
    requires forall d :: !RuleDefect(exp, MembershipRule, JoinOf(records), d)
    requires forall d :: !RuleDefect(exp, PresenceRule(Topology(exp.cell).value), JoinOf(records), d)
    requires forall d :: !RuleDefect(exp, OrderingRule(Chain(exp.cell).value), JoinOf(records), d)
    ensures SoundRecords(exp, records) && NeverBackwards(exp, records)
    ensures OneEnvelopeEach(records) && OwnUidOnly(records)
  {
    hide JoinOf, IntegrityDefect, AggregationDefect, RuleDefect, Chain, Topology, WholePaths, LastOwned, NeverBackwards,
         OneEnvelopeEach, OwnUidOnly, OneClock, OneSchemaEach, LastsForward, LastsShareEnvelope, AttestAlone,
         LastsOfOne, CountOf, OwnersWrote;
    IntegrityMeans(exp, records);
    SchemasMean(exp, records);
    ClockMeans(exp, records);
    PresenceMeans(exp, records);
    OwnershipMeans(exp, records);
    OwnersWroteThem(exp, records);
    OrderingMeans(exp, records);
    ForwardOnRecords(exp, records);
    AggregationMeans(exp, records);
    EnvelopeOnRecords(records);
    MembershipAlone(exp, records);
    AttestedOnRecords(exp, records);
    SinglesOnRecords(exp, records);
  }

  lemma PassedParts(exp: Expectation, paths: Paths, v: Verdict)
    requires Judges(exp, paths, v) && v.passed && Without(paths, v.failures.Keys) == paths
    ensures ExecutionsJudged(exp, paths, v.cohorts) && v.cohorts.execution == []
    ensures ConservationJudged(exp, paths, v.cohorts) && v.cohorts.conservation == []
    ensures FanOutJudged(exp, paths, v.cohorts) && v.cohorts.fanOut == []
  {
    hide ExecutionsJudged, ConservationJudged, FanOutJudged, AdapterJudged, PathsJudged, Diagnoses;
  }

  lemma KnownCell(cell: Cell)
    requires cell == F10
    ensures Chain(cell).Some? && Topology(cell).Some?
    ensures Span(SComp, COMPUTE_START, COMPUTE_END, true) in Chain(cell).value
  {
    assert Chain(cell).value[8] == Span(SComp, COMPUTE_START, COMPUTE_END, true);
  }
}
