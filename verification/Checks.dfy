/**
 The validator's per-request checks (internal/validate/validate.go). Each check returns the
 defects it names, and its contract says exactly which those are; a check passes when it
 names none.
 */
module Checks {
  import opened Identity
  import opened Schema
  import opened Chains
  import opened Joins

  datatype Expectation = Expectation(
    cell: Cell,
    clockDomain: Bytes,
    cohortSize: int64,
    cohortCount: int64,
    firstCohortID: uint32,
    batchSize: int64,
    executions: int64,
    toleranceNum: nat,        // ToleranceFraction as a ratio
    toleranceDen: nat,
    maxAdapterDispatchWait: int64,
    maxDispatchSkew: int64,
    executionCountDelta: uint64,
    inferenceCountDelta: uint64,
    batchSizeHistogram: map<uint64, uint64>,
    droppedRecords: uint64)

  /** A finding. Where the source's kinds coincide for different findings they are told apart here. */
  datatype Defect =
    | DroppedRecords
    | MissingRequest(q: LogicalRequest)
    | DuplicateRecord(q: LogicalRequest, emitter: Emitter)
    | MixedSchemas(q: LogicalRequest)
    | RequestFailed(q: LogicalRequest)
    | Unscheduled(q: LogicalRequest)
    | MixedDomains(q: LogicalRequest)
    | ForeignDomain(q: LogicalRequest, domain: Bytes)
    | MissingTimestamp(q: LogicalRequest, s: Stage)
    | UnexpectedStage(q: LogicalRequest, s: Stage)
    | WrongOwner(q: LogicalRequest, s: Stage)
    | NonMonotonic(q: LogicalRequest, span: Span)
    | NoChain
    | SourcesDisagree(q: LogicalRequest)
    | NothingAttested(q: LogicalRequest)
    | Truncated(q: LogicalRequest)
    | SelfMissing(q: LogicalRequest)
    | OwnUidEcho(q: LogicalRequest)
    | WrongCardinality(q: LogicalRequest)
    | WrongBatchSize(q: LogicalRequest)
    | ForeignCohort(q: LogicalRequest, uid: int64)
    | OrdinalOutside(q: LogicalRequest, uid: int64)
    | ExecutionCount | InferenceCount | Coalesced(size: uint64) | NoHistogram
    | EnvelopeCardinality(cohort: uint32)
    | StageDisagreement(cohort: uint32, s: Stage)
    | SharedEnvelope(envelope: uint64)
    | FormationFailed(cohort: uint32)
    | Overlapping(q: LogicalRequest)
    | NoBound
    | ForeignDispatch(q: LogicalRequest, emitter: Emitter)
    | NoDispatchEvidence(envelope: uint64)
    | MiscountedRelease(envelope: uint64)
    | MisreportedSkew(envelope: uint64)
    | SkewExceeds(envelope: uint64)
    | SerialRelease(envelope: uint64)
    | WaitExceeds(q: LogicalRequest)
    | LeftTogether(cohort: uint32)
    | Residual(q: LogicalRequest)
    | CohortResidual(cohort: uint32)

  /** Joined.Stage's second result, and its first. */
  predicate Carries(j: Joined, s: Stage) {
    s in j.presence
  }

  /* ---- What was scheduled ---- */

  function ScheduledAt(exp: Expectation, c: int, o: int): LogicalRequest {
    LogicalRequest((exp.firstCohortID + c) % TWO_32, o % TWO_32)
  }

  ghost predicate Scheduled(exp: Expectation, q: LogicalRequest) {
    exists c, o :: 0 <= c < exp.cohortCount && 0 <= o < exp.cohortSize && q == ScheduledAt(exp, c, o)
  }

  /** Expectation.Requests. */
  method Requests(exp: Expectation) returns (requests: set<LogicalRequest>)
    ensures forall q :: q in requests <==> Scheduled(exp, q)
  {
    requests := {};
    var c: int := 0;
    while c < exp.cohortCount
      invariant 0 <= c && (c <= exp.cohortCount || c == 0)
      invariant forall q :: q in requests <==>
        exists b, o :: 0 <= b < c && 0 <= o < exp.cohortSize && q == ScheduledAt(exp, b, o)
    {
      var o: int := 0;
      while o < exp.cohortSize
        invariant 0 <= o && (o <= exp.cohortSize || o == 0)
        invariant forall q :: q in requests <==>
          || (exists b, p :: 0 <= b < c && 0 <= p < exp.cohortSize && q == ScheduledAt(exp, b, p))
          || (exists p :: 0 <= p < o && q == ScheduledAt(exp, c, p))
      {
        requests := requests + {ScheduledAt(exp, c, o)};
        o := o + 1;
      }
      c := c + 1;
    }
  }

  /* ---- Record integrity ---- */

  /** What is wrong with the records of request q. */
  predicate IntegrityAt(paths: Paths, q: LogicalRequest, d: Defect) {
    match d
    case MissingRequest(r) => r == q && q !in paths
    case DuplicateRecord(r, e) => r == q && q in paths && e in paths[q].emitters && paths[q].emitters[e] > 1
    case MixedSchemas(r) => r == q && q in paths && |paths[q].schemaVersions| > 1
    case RequestFailed(r) => r == q && q in paths && paths[q].status != STATUS_OK
    case _ => false
  }

  ghost predicate IntegrityDefect(exp: Expectation, paths: Paths, d: Defect) {
    || (d == DroppedRecords && exp.droppedRecords > 0)
    || (exists q :: Scheduled(exp, q) && IntegrityAt(paths, q, d))
    || (d.Unscheduled? && d.q in paths && !Scheduled(exp, d.q))
  }

  /** What checkRecordIntegrity says of one scheduled request. */
  method IntegrityOf(paths: Paths, q: LogicalRequest) returns (defects: seq<Defect>)
    ensures forall d :: d in defects <==> IntegrityAt(paths, q, d)
  {
    defects := [];
    if q !in paths {
      return [MissingRequest(q)];
    }
    var emitters := paths[q].emitters.Keys;
    while emitters != {}
      invariant emitters <= paths[q].emitters.Keys
      invariant forall d :: d in defects <==>
        && d.DuplicateRecord? && d.q == q && d.emitter in paths[q].emitters.Keys - emitters
        && paths[q].emitters[d.emitter] > 1
      decreases |emitters|
    {
      var e :| e in emitters;
      if paths[q].emitters[e] > 1 {
        defects := defects + [DuplicateRecord(q, e)];
      }
      emitters := emitters - {e};
    }
    if |paths[q].schemaVersions| > 1 {
      defects := defects + [MixedSchemas(q)];
    }
    if paths[q].status != STATUS_OK {
      defects := defects + [RequestFailed(q)];
    }
  }

  /** The scheduled requests' defects. */
  method ScheduledDefects(paths: Paths, scheduled: set<LogicalRequest>) returns (defects: seq<Defect>)
    ensures forall d :: d in defects <==> exists q :: q in scheduled && IntegrityAt(paths, q, d)
  {
    hide IntegrityAt;
    defects := [];
    var left := scheduled;
    while left != {}
      invariant left <= scheduled
      invariant forall d :: d in defects <==> exists q :: q in scheduled && q !in left && IntegrityAt(paths, q, d)
      decreases |left|
    {
      var q :| q in left;
      var found := IntegrityOf(paths, q);
      defects := defects + found;
      left := left - {q};
    }
  }

  /** Requests nobody expected. */
  method Strays(paths: Paths, scheduled: set<LogicalRequest>) returns (defects: seq<Defect>)
    ensures forall d :: d in defects <==> d.Unscheduled? && d.q in paths && d.q !in scheduled
  {
    defects := [];
    var left := paths.Keys;
    while left != {}
      invariant left <= paths.Keys
      invariant forall d :: d in defects <==> d.Unscheduled? && d.q in paths && d.q !in left && d.q !in scheduled
      decreases |left|
    {
      var q :| q in left;
      if q !in scheduled {
        defects := defects + [Unscheduled(q)];
      }
      left := left - {q};
    }
  }

  /** checkRecordIntegrity. */
  method CheckRecordIntegrity(exp: Expectation, paths: Paths) returns (defects: seq<Defect>)
    ensures forall d :: d in defects <==> IntegrityDefect(exp, paths, d)
  {
    hide IntegrityAt, Scheduled;
    defects := if exp.droppedRecords > 0 then [DroppedRecords] else [];
    var scheduled := Requests(exp);
    var found := ScheduledDefects(paths, scheduled);
    var strays := Strays(paths, scheduled);
    defects := defects + found + strays;
  }

  /* ---- Clock domain ---- */

  predicate ClockAt(exp: Expectation, j: Joined, d: Defect) {
    match d
    case MixedDomains(q) => q == j.request && |j.domains| > 1
    case ForeignDomain(q, x) =>
      q == j.request && |j.domains| <= 1 && exp.clockDomain != [] && x in j.domains && x != exp.clockDomain
    case _ => false
  }

  /** The loop body of checkClockDomain. */
  method ClockOf(exp: Expectation, j: Joined) returns (defects: seq<Defect>)
    ensures forall d :: d in defects <==> ClockAt(exp, j, d)
  {
    defects := [];
    if |j.domains| > 1 {
      return [MixedDomains(j.request)];
    }
    if exp.clockDomain == [] {
      return;
    }
    var left := j.domains;
    while left != {}
      invariant left <= j.domains
      invariant forall d :: d in defects <==>
        && d.ForeignDomain? && d.q == j.request && d.domain in j.domains
        && d.domain !in left && d.domain != exp.clockDomain
      decreases |left|
    {
      var x :| x in left;
      if x != exp.clockDomain {
        defects := defects + [ForeignDomain(j.request, x)];
      }
      left := left - {x};
    }
  }

  /* ---- Presence ---- */

  predicate PresenceAt(topology: set<Stage>, j: Joined, d: Defect) {
    match d
    case MissingTimestamp(q, s) => q == j.request && s in topology && s !in j.presence
    case UnexpectedStage(q, s) => q == j.request && s in j.presence && s !in topology
    case _ => false
  }

  /** The loop body of checkPresence. */
  method PresenceOf(topology: set<Stage>, j: Joined) returns (defects: seq<Defect>)
    ensures forall d :: d in defects <==> PresenceAt(topology, j, d)
  {
    defects := [];
    for s := 1 to STAGE_COUNT + 1
      invariant forall d :: d in defects <==> PresenceAt(topology, j, d) && d.s < s
    {
      if s in topology && s !in j.presence {
        defects := defects + [MissingTimestamp(j.request, s)];
      }
      if s in j.presence && s !in topology {
        defects := defects + [UnexpectedStage(j.request, s)];
      }
    }
  }

  /* ---- Ownership ---- */

  predicate OwnershipAt(exp: Expectation, j: Joined, d: Defect) {
    match d
    case WrongOwner(q, s) => q == j.request && s in j.presence && s !in OwnedStages(exp.cell, j.stageEmitter[s])
    case _ => false
  }

  /** The loop body of checkStageOwnership. */
  method OwnershipOf(exp: Expectation, j: Joined) returns (defects: seq<Defect>)
    ensures forall d :: d in defects <==> OwnershipAt(exp, j, d)
  {
    hide OwnedStages;
    defects := [];
    for s := 1 to STAGE_COUNT + 1
      invariant forall d :: d in defects <==> OwnershipAt(exp, j, d) && d.s < s
    {
      if s in j.presence && s !in OwnedStages(exp.cell, j.stageEmitter[s]) {
        defects := defects + [WrongOwner(j.request, s)];
      }
    }
  }

  /* ---- Ordering ---- */

  /** Both ends are present and the end comes first. */
  predicate Backwards(j: Joined, span: Span) {
    span.start in j.presence && span.end in j.presence && j.ts[span.end] < j.ts[span.start]
  }

  predicate OrderingAt(spans: seq<Span>, j: Joined, d: Defect) {
    match d
    case NonMonotonic(q, span) => q == j.request && span in spans && Backwards(j, span)
    case _ => false
  }

  /** The loop body of checkOrdering. */
  method OrderingOf(spans: seq<Span>, j: Joined) returns (defects: seq<Defect>)
    ensures forall d :: d in defects <==> OrderingAt(spans, j, d)
  {
    hide Backwards;
    defects := [];
    for i := 0 to |spans|
      invariant forall d :: d in defects <==>
        d.NonMonotonic? && d.q == j.request && d.span in spans[..i] && Backwards(j, d.span)
    {
      assert spans[..i + 1] == spans[..i] + [spans[i]];
      if Backwards(j, spans[i]) {
        defects := defects + [NonMonotonic(j.request, spans[i])];
      }
    }
    assert spans[..|spans|] == spans;
  }

  /* ---- Membership ---- */

  type Tallies = map<int64, int>

  function Tally(counts: Tallies, u: int64): int {
    if u in counts then counts[u] else 0
  }

  /** After i uids the tally of u is `base`, with u's occurrences among them added or taken away. */
  ghost predicate Tallied(counts: Tallies, base: multiset<int64>, up: bool, uids: Uids, i: nat)
    requires i <= |uids|
  {
    forall u: int64 ::
      Tally(counts, u) == (if up then base[u] + multiset(uids[..i])[u] else base[u] as int - multiset(uids[..i])[u])
  }

  function Counted(counts: Tallies, up: bool, u: int64): Tallies {
    counts[u := if up then Tally(counts, u) + 1 else Tally(counts, u) - 1]
  }

  lemma TallyOne(counts: Tallies, base: multiset<int64>, up: bool, uids: Uids, i: nat)
    requires i < |uids| && Tallied(counts, base, up, uids, i)
    ensures Tallied(Counted(counts, up, uids[i]), base, up, uids, i + 1)
  {
    assert uids[..i + 1] == uids[..i] + [uids[i]];
    var next := Counted(counts, up, uids[i]);
    forall u: int64
      ensures Tally(next, u)
           == (if up then base[u] + multiset(uids[..i + 1])[u] else base[u] as int - multiset(uids[..i + 1])[u])
    {
      assert Tally(next, u) == Tally(counts, u) + if u != uids[i] then 0 else if up then 1 else -1;
    }
  }

  /** sameUIDSet: a counting comparison, insensitive to order but not to repetition. */
  method SameUidSet(a: Uids, b: Uids) returns (same: bool)
    ensures same <==> multiset(a) == multiset(b)
  {
    if |a| != |b| {
      assert |multiset(a)| == |a| && |multiset(b)| == |b|;
      return false;
    }
    var counts: Tallies := map[];
    for i := 0 to |a|
      invariant Tallied(counts, multiset{}, true, a, i)
    {
      TallyOne(counts, multiset{}, true, a, i);
      hide Tallied;
      counts := Counted(counts, true, a[i]);
    }
    assert a[..|a|] == a;
    assert Tallied(counts, multiset(a), false, b, 0);
    for i := 0 to |b|
      invariant Tallied(counts, multiset(a), false, b, i)
      invariant forall u: int64 :: multiset(b[..i])[u] <= multiset(a)[u]
    {
      TallyOne(counts, multiset(a), false, b, i);
      counts := Counted(counts, false, b[i]);
      assert b[..i + 1] == b[..i] + [b[i]];
      if counts[b[i]] < 0 {
        assert Tally(counts, b[i]) < 0;
        assert b == b[..i + 1] + b[i + 1..];
        assert multiset(b)[b[i]] >= multiset(b[..i + 1])[b[i]] > multiset(a)[b[i]];
        return false;
      }
      assert Tally(counts, b[i]) >= 0;
    }
    assert b[..|b|] == b;
    CoveredIsEqual(a, b);
    same := true;
  }

  lemma CoveredIsEqual(a: Uids, b: Uids)
    requires |a| == |b| && forall u: int64 :: multiset(a)[u] >= multiset(b)[u]
    ensures multiset(a) == multiset(b)
  {
    assert multiset(b) <= multiset(a);
    assert multiset(a) == multiset(b) + (multiset(a) - multiset(b));
    assert |multiset(a)| == |a| && |multiset(b)| == |b|;
    assert |multiset(a) - multiset(b)| == 0;
  }

  ghost predicate SourcesDiffer(bySource: map<Emitter, Uids>) {
    exists e, f :: e in bySource && f in bySource && multiset(bySource[e]) != multiset(bySource[f])
  }

  /** disagreeingSources, as the comparison it makes: some two sources attested different sets. */
  method DisagreeingSources(bySource: map<Emitter, Uids>) returns (differ: bool)
    ensures differ <==> SourcesDiffer(bySource)
  {
    var left := bySource.Keys;
    while left != {}
      invariant left <= bySource.Keys
      invariant forall e, f :: e in bySource && e !in left && f in bySource ==>
                multiset(bySource[e]) == multiset(bySource[f])
      decreases |left|
    {
      var e :| e in left;
      left := left - {e};
      var others := left;
      while others != {}
        invariant others <= left
        invariant forall f :: f in left && f !in others ==> multiset(bySource[e]) == multiset(bySource[f])
        decreases |others|
      {
        var f :| f in others;
        var same := SameUidSet(bySource[e], bySource[f]);
        if !same {
          return true;
        }
        others := others - {f};
      }
    }
    differ := false;
  }

  /** The attested uids of a set of the expected size, one by one. */
  predicate MemberAt(exp: Expectation, j: Joined, d: Defect) {
    match d
    case ForeignCohort(q, u) => q == j.request && u in j.membership && UidRequest(u).cohort != q.cohort
    case OrdinalOutside(q, u) =>
      q == j.request && u in j.membership && UidRequest(u).cohort == q.cohort && UidRequest(u).ordinal >= exp.cohortSize
    case _ => false
  }

  ghost predicate MembershipAt(exp: Expectation, j: Joined, d: Defect) {
    var n := |j.membership|;
    var echo := exp.batchSize > 1 && n == 1 && Uid(j.request) in j.membership;
    match d
    case SourcesDisagree(q) => q == j.request && SourcesDiffer(j.membershipBySource)
    case NothingAttested(q) => q == j.request && n == 0
    case Truncated(q) => q == j.request && n > 0 && j.membershipCount != n
    case SelfMissing(q) => q == j.request && n > 0 && Uid(q) !in j.membership
    case OwnUidEcho(q) => q == j.request && n > 0 && n != exp.batchSize && echo
    case WrongCardinality(q) => q == j.request && n > 0 && n != exp.batchSize && !echo
    case WrongBatchSize(q) => q == j.request && n > 0 && n == exp.batchSize && j.batchSize != exp.batchSize
    case ForeignCohort(_, _) => n > 0 && n == exp.batchSize && MemberAt(exp, j, d)
    case OrdinalOutside(_, _) => n > 0 && n == exp.batchSize && MemberAt(exp, j, d)
    case _ => false
  }

  method MembersOf(exp: Expectation, j: Joined) returns (defects: seq<Defect>)
    ensures forall d :: d in defects <==> MemberAt(exp, j, d)
    ensures forall d :: d in defects ==> d.ForeignCohort? || d.OrdinalOutside?
  {
    hide UidRequest;
    defects := [];
    for i := 0 to |j.membership|
      invariant forall d :: d in defects <==> MemberAt(exp, j, d) && d.uid in j.membership[..i]
    {
      var u := j.membership[i];
      assert j.membership[..i + 1] == j.membership[..i] + [u];
      if UidRequest(u).cohort != j.request.cohort {
        defects := defects + [ForeignCohort(j.request, u)];
      } else if UidRequest(u).ordinal >= exp.cohortSize {
        defects := defects + [OrdinalOutside(j.request, u)];
      }
    }
    assert j.membership[..|j.membership|] == j.membership;
  }

  /** The loop body of checkMembership. */
  method MembershipOf(exp: Expectation, j: Joined) returns (defects: seq<Defect>)
    ensures forall d :: d in defects <==> MembershipAt(exp, j, d)
  {
    hide Uid, MemberAt, SourcesDiffer;
    defects := [];
    var differ := DisagreeingSources(j.membershipBySource);
    if differ {
      defects := [SourcesDisagree(j.request)];
    }
    if |j.membership| == 0 {
      return defects + [NothingAttested(j.request)];
    }
    if j.membershipCount != |j.membership| {
      defects := defects + [Truncated(j.request)];
    }
    var containsSelf := Uid(j.request) in j.membership;
    if !containsSelf {
      defects := defects + [SelfMissing(j.request)];
    }
    if |j.membership| != exp.batchSize {
      return defects + [if exp.batchSize > 1 && |j.membership| == 1 && containsSelf then OwnUidEcho(j.request)
                        else WrongCardinality(j.request)];
    }
    if j.batchSize != exp.batchSize {
      defects := defects + [WrongBatchSize(j.request)];
    }
    var members := MembersOf(exp, j);
    defects := defects + members;
  }

  /* ---- Every path ---- */

  /** The checks that judge each request's path on its own. */
  datatype Rule =
    | ClockRule
    | PresenceRule(topology: set<Stage>)
    | OwnershipRule
    | OrderingRule(spans: seq<Span>)
    | MembershipRule

  ghost predicate RuleAt(exp: Expectation, rule: Rule, j: Joined, d: Defect) {
    match rule
    case ClockRule => ClockAt(exp, j, d)
    case PresenceRule(topology) => PresenceAt(topology, j, d)
    case OwnershipRule => OwnershipAt(exp, j, d)
    case OrderingRule(spans) => OrderingAt(spans, j, d)
    case MembershipRule => MembershipAt(exp, j, d)
  }

  ghost predicate RuleDefect(exp: Expectation, rule: Rule, paths: Paths, d: Defect) {
    exists q :: q in paths && RuleAt(exp, rule, paths[q], d)
  }

  method RuleOf(exp: Expectation, rule: Rule, j: Joined) returns (defects: seq<Defect>)
    ensures forall d :: d in defects <==> RuleAt(exp, rule, j, d)
  {
    hide ClockAt, PresenceAt, OwnershipAt, OrderingAt, MembershipAt;
    match rule
    case ClockRule => defects := ClockOf(exp, j);
    case PresenceRule(topology) => defects := PresenceOf(topology, j);
    case OwnershipRule => defects := OwnershipOf(exp, j);
    case OrderingRule(spans) => defects := OrderingOf(spans, j);
    case MembershipRule => defects := MembershipOf(exp, j);
  }

  /** The loop checkClockDomain, checkPresence, checkStageOwnership, checkOrdering and checkMembership share. */
  method CheckPaths(exp: Expectation, rule: Rule, paths: Paths) returns (defects: seq<Defect>)
    ensures forall d :: d in defects <==> RuleDefect(exp, rule, paths, d)
  {
    hide RuleAt;
    defects := [];
    var left := paths.Keys;
    while left != {}
      invariant left <= paths.Keys
      invariant forall d :: d in defects <==> exists q :: q in paths && q !in left && RuleAt(exp, rule, paths[q], d)
      decreases |left|
    {
      var q :| q in left;
      var found := RuleOf(exp, rule, paths[q]);
      defects := defects + found;
      left := left - {q};
    }
  }

  /* ---- Contamination ---- */

  predicate ContaminationDefect(exp: Expectation, d: Defect) {
    match d
    case ExecutionCount => exp.executionCountDelta != ToUint64(exp.executions)
    case InferenceCount => exp.inferenceCountDelta != (exp.cohortCount * exp.cohortSize) % TWO_64
    case Coalesced(size) => size in exp.batchSizeHistogram && size != ToUint64(exp.batchSize)
    case NoHistogram => |exp.batchSizeHistogram| == 0 && exp.executions > 0
    case _ => false
  }

  /** checkContamination. */
  method CheckContamination(exp: Expectation) returns (defects: seq<Defect>)
    ensures forall d :: d in defects <==> ContaminationDefect(exp, d)
  {
    var sizes := exp.batchSizeHistogram.Keys;
    defects := [];
    while sizes != {}
      invariant sizes <= exp.batchSizeHistogram.Keys
      invariant forall d :: d in defects <==>
        d.Coalesced? && d.size in exp.batchSizeHistogram && d.size !in sizes && d.size != ToUint64(exp.batchSize)
      decreases |sizes|
    {
      var size :| size in sizes;
      if size != ToUint64(exp.batchSize) {
        defects := defects + [Coalesced(size)];
      }
      sizes := sizes - {size};
    }
    if exp.executionCountDelta != ToUint64(exp.executions) {
      defects := defects + [ExecutionCount];
    }
    if exp.inferenceCountDelta != (exp.cohortCount * exp.cohortSize) % TWO_64 {
      defects := defects + [InferenceCount];
    }
    if |exp.batchSizeHistogram| == 0 && exp.executions > 0 {
      defects := defects + [NoHistogram];
    }
  }
}
