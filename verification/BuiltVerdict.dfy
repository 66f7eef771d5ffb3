/**
 The verdict on a run built for F10 (internal/testkit/fixtures.go, internal/validate/validate.go):
 the checks find nothing wrong with it but, where the injected delays ask for it, its unnamed
 time and its fan-out; and every other injected delay is what the cohort's decomposition returns.
 */
module BuiltVerdict {
  import opened Identity
  import opened Schema
  import opened Wire
  import opened Chains
  import opened Joins
  import opened Conservation
  import opened Fixtures
  import opened Bundles
  import opened BuiltRuns
  import opened Sorting
  import C = Checks
  import A = Aggregation
  import V = Verdict
  import E = Executions
  import F = FanOut
  import CP = CleanPaths
  import R = Residuals
  import Coverage

  /** The expectation Build puts beside the records. */
  ghost predicate ExpectsRun(exp: C.Expectation, spec: Spec, run: seq<Cohort>, h: RunHeader) {
    && exp.cell == F10 && exp.clockDomain in {[], h.clockDomain} && exp.batchSize == 1 && exp.droppedRecords == 0
    && exp.cohortSize == spec.cohortSize && exp.cohortCount == |run|
    && (forall k :: 0 <= k < |run| ==> run[k].id == (exp.firstCohortID + k) % TWO_32)
    && forall d :: !C.ContaminationDefect(exp, d)
  }

  /** What is known of the records' join. */
  ghost predicate Ready(exp: C.Expectation, spec: Spec, run: seq<Cohort>, h: RunHeader, paths: Paths) {
    RunBuilt(spec, run) && Represents(paths, run, h) && ExpectsRun(exp, spec, run, h)
  }

  /** And that it has a path for each of the parts. */
  ghost predicate Whole4(run: seq<Cohort>, h: RunHeader, paths: Paths) {
    Sized(run) && Joined4(F10, h, Parts(run), paths)
  }

  lemma CohortOf(spec: Spec, run: seq<Cohort>, k: nat)
    requires RunBuilt(spec, run) && k < |run|
    ensures AggregateOk(spec, run[k].start, true, run[k].env, run[k].out) && |run[k].out| == spec.cohortSize
    ensures 0 < |run[k].out| <= MAX_ORDINAL + 1 && run[k].envelope != 0
    ensures run[k].dispatch.dispatched == |run[k].out| && run[k].dispatch.skewNanos == SkewOf(spec, |run[k].out|)
  {
    assert CohortBuilt(spec, run[k]);
  }

  lemma MemberOf(paths: Paths, run: seq<Cohort>, h: RunHeader, q: LogicalRequest) returns (k: nat)
    requires Represents(paths, run, h) && q in paths
    ensures k < |run| && q.cohort == run[k].id && q.ordinal < |run[k].out|
  {
    k :| 0 <= k < |run| && q.cohort == run[k].id && q.ordinal < |run[k].out|;
  }

  /* ---- Requests ---- */

  /** What was scheduled at place o of cohort k is member o of the k-th cohort built. */
  lemma ScheduledMember(exp: C.Expectation, spec: Spec, run: seq<Cohort>, h: RunHeader, paths: Paths, k: nat, o: nat)
    requires Ready(exp, spec, run, h, paths) && k < |run| && o < spec.cohortSize
    ensures o < |run[k].out| && C.ScheduledAt(exp, k, o) == LogicalRequest(run[k].id, o)
    ensures C.ScheduledAt(exp, k, o) in paths
  {
    hide Represents, RunBuilt, AggregateOk;
    CohortOf(spec, run, k);
    PathOfMember(paths, run, h, k, o);
  }

  lemma ScheduledIsIn(exp: C.Expectation, spec: Spec, run: seq<Cohort>, h: RunHeader, paths: Paths, q: LogicalRequest)
    requires Ready(exp, spec, run, h, paths)
    ensures C.Scheduled(exp, q) <==> q in paths
  {
    hide Represents, RunBuilt, C.ScheduledAt, AggregateOk;
    if C.Scheduled(exp, q) {
      var c, o :| 0 <= c < exp.cohortCount && 0 <= o < exp.cohortSize && q == C.ScheduledAt(exp, c, o);
      ScheduledMember(exp, spec, run, h, paths, c, o);
    }
    if q in paths {
      var k := MemberOf(paths, run, h, q);
      CohortOf(spec, run, k);
      ScheduledMember(exp, spec, run, h, paths, k, q.ordinal);
      assert q == C.ScheduledAt(exp, k, q.ordinal);
    }
  }

  lemma BuiltSound(exp: C.Expectation, spec: Spec, run: seq<Cohort>, k: nat, o: nat)
    requires exp.cell == F10 && exp.cohortSize == spec.cohortSize && RunBuilt(spec, run)
    requires k < |run| && o < |run[k].out| <= TWO_32
    ensures CP.SoundPart(exp, PartOf(run[k], o))
  {
    hide Uid, UidRequest, AggregateOk, RunBuilt, Recovers;
    CohortOf(spec, run, k);
    UidInvertible(PartOf(run[k], o).q);
    SharedVisits(F10);
    AggregateRecovers(spec, run[k].start, true, run[k].env, run[k].out);
    hide Chain, SharedChain;
  }

  lemma BuiltSoundParts(exp: C.Expectation, spec: Spec, run: seq<Cohort>)
    requires exp.cell == F10 && exp.cohortSize == spec.cohortSize && RunBuilt(spec, run) && Sized(run)
    ensures forall i :: 0 <= i < |Parts(run)| ==> CP.SoundPart(exp, Parts(run)[i])
  {
    hide CP.SoundPart, PartOf, Parts, CohortBuilt;
    var parts := Parts(run);
    forall i | 0 <= i < |parts| ensures CP.SoundPart(exp, parts[i]) {
      InParts(run, parts[i]);
      assert parts[i] in parts;
      var k, o :| 0 <= k < |run| && 0 <= o < |run[k].out| && parts[i] == PartOf(run[k], o);
      BuiltSound(exp, spec, run, k, o);
    }
  }

  lemma BuiltAsScheduled(exp: C.Expectation, spec: Spec, run: seq<Cohort>, h: RunHeader, paths: Paths)
    requires Ready(exp, spec, run, h, paths) && Whole4(run, h, paths)
    ensures CP.AsScheduled(exp, Parts(run))
  {
    var parts := Parts(run);
    forall q ensures C.Scheduled(exp, q) <==> exists i :: 0 <= i < |parts| && parts[i].q == q {
      ScheduledIsIn(exp, spec, run, h, paths, q);
      hide Ready, C.Scheduled, PutTogether;
    }
  }

  /** The paths of a built run are clean. */
  lemma BuiltClean(exp: C.Expectation, spec: Spec, run: seq<Cohort>, h: RunHeader, paths: Paths)
    requires Ready(exp, spec, run, h, paths) && Whole4(run, h, paths)
    ensures CP.Clean(exp, h, Parts(run), paths)
  {
    hide CP.SoundPart, CP.AsScheduled, Joined4, Parts, RunBuilt, Represents;
    BuiltAsScheduled(exp, spec, run, h, paths);
    BuiltSoundParts(exp, spec, run);
  }

  /* ---- Envelopes ---- */

  lemma OneEnvelope(spec: Spec, run: seq<Cohort>, h: RunHeader, paths: Paths, k: nat)
    requires RunBuilt(spec, run) && Represents(paths, run, h) && k < |run|
    ensures A.EnvelopeIds(paths, run[k].id) == {run[k].envelope}
    ensures A.Owners(paths, run[k].envelope) == {run[k].id}
  {
    hide Represents, AggregateOk;
    CohortOf(spec, run, k);
    PathOfMember(paths, run, h, k, 0);
    forall q | q in paths
      ensures q.cohort == run[k].id <==> paths[q].envelopeID == run[k].envelope
    {
      var l := MemberOf(paths, run, h, q);
      PathOfMember(paths, run, h, l, q.ordinal);
      assert l < k ==> run[l].id != run[k].id && run[l].envelope != run[k].envelope;
      assert k < l ==> run[k].id != run[l].id && run[k].envelope != run[l].envelope;
    }
    assert LogicalRequest(run[k].id, 0) in paths;
  }

  lemma OneValue(spec: Spec, run: seq<Cohort>, h: RunHeader, paths: Paths, k: nat, s: Stage)
    requires RunBuilt(spec, run) && Represents(paths, run, h) && k < |run| && s in ENVELOPE_STAGES
    ensures |A.Values(paths, run[k].id, s)| <= 1
  {
    hide Represents;
    CohortOf(spec, run, k);
    var c := run[k];
    forall t | t in A.Values(paths, c.id, s) ensures t == c.out[0][s] as int {
      var q :| q in paths && q.cohort == c.id && s in paths[q].presence && paths[q].ts[s] == t;
      var l := MemberOf(paths, run, h, q);
      assert l == k;
      PathOfMember(paths, run, h, k, q.ordinal);
      MemberTimes(spec, c.start, true, c.env, c.out, q.ordinal);
      MemberTimes(spec, c.start, true, c.env, c.out, 0);
    }
    OneAtMost(A.Values(paths, c.id, s), c.out[0][s]);
  }

  lemma OneAtMost(values: set<int64>, t: int)
    requires forall v :: v in values ==> v as int == t
    ensures |values| <= 1
  {
    if values != {} {
      var v :| v in values;
      assert values == {v};
    }
  }

  lemma AggregationClean(exp: C.Expectation, spec: Spec, run: seq<Cohort>, h: RunHeader, paths: Paths, d: C.Defect)
    requires Ready(exp, spec, run, h, paths)
    ensures !A.AggregationDefect(exp, paths, d)
  {
    hide Represents, RunBuilt, A.EnvelopeIds, A.Values, A.Owners;
    if (d.EnvelopeCardinality? || d.StageDisagreement?) && d.cohort in A.Cohorts(paths) {
      var q :| q in paths && q.cohort == d.cohort;
      var k := MemberOf(paths, run, h, q);
      OneEnvelope(spec, run, h, paths, k);
      if d.StageDisagreement? && d.s in ENVELOPE_STAGES { OneValue(spec, run, h, paths, k, d.s); }
    }
    if d.SharedEnvelope? && d.envelope != 0 && |A.Owners(paths, d.envelope)| > 1 {
      var q := SomeOwner(paths, d.envelope);
      var k := MemberOf(paths, run, h, q);
      PathOfMember(paths, run, h, k, q.ordinal);
      OneEnvelope(spec, run, h, paths, k);
    }
  }

  lemma SomeOwner(paths: Paths, id: uint64) returns (q: LogicalRequest)
    requires |A.Owners(paths, id)| > 1
    ensures q in paths && paths[q].envelopeID == id
  {
    var c :| c in A.Owners(paths, id);
    q :| q in paths && paths[q].envelopeID == id && q.cohort == c;
  }

  /** Every cohort was sealed, so none is taken for one that never formed. */
  lemma NoneFailed(exp: C.Expectation, spec: Spec, run: seq<Cohort>, h: RunHeader, paths: Paths, failures: A.Failures)
    requires Ready(exp, spec, run, h, paths) && A.Diagnoses(failures, exp, paths)
    ensures failures == map[]
  {
    hide Represents, RunBuilt;
    forall c: uint32 ensures c !in failures {
      if A.NeverFormed(exp, paths, c) {
        assert A.SomeMember(paths, c, A.Held);
        var q :| q in paths && q.cohort == c && A.Held(paths[q]);
        var k := MemberOf(paths, run, h, q);
        PathOfMember(paths, run, h, k, q.ordinal);
        assert false;
      }
    }
  }

  /* ---- Executions ---- */

  /** Members of one cohort executed one after the other, each for the injected time. */
  lemma WindowsApart(spec: Spec, c: Cohort, i: nat, j: nat)
    requires CohortBuilt(spec, c) && i < j < |c.out|
    ensures COMPUTE_START in c.out[i] && COMPUTE_END in c.out[i] && COMPUTE_START in c.out[j] && COMPUTE_END in c.out[j]
    ensures c.out[i][COMPUTE_END] <= c.out[j][COMPUTE_START]
    ensures c.out[i][COMPUTE_END] == c.out[i][COMPUTE_START] + spec.Delay(SComp)
    ensures c.out[j][COMPUTE_END] == c.out[j][COMPUTE_START] + spec.Delay(SComp)
  {
    hide ArrivedAt, CarriedBy, Envelops, Serialized;
    forall o | 0 <= o < |c.out|
      ensures COMPUTE_START in c.out[o] && COMPUTE_END in c.out[o]
      ensures c.out[o][COMPUTE_END] == c.out[o][COMPUTE_START] + spec.Delay(SComp)
    {
      MemberTimes(spec, c.start, true, c.env, c.out, o);
    }
    assert Serialized(spec, c.out);
    TurnsAre(spec, c);
    InTurnApart(Windows(c.out, c.id), spec.Delay(SComp), i, j);
  }

  lemma TurnsAre(spec: Spec, c: Cohort)
    requires Serialized(spec, c.out) && |c.out| <= TWO_32
    requires forall o :: 0 <= o < |c.out| ==>
               && COMPUTE_START in c.out[o] && COMPUTE_END in c.out[o]
               && c.out[o][COMPUTE_END] == c.out[o][COMPUTE_START] + spec.Delay(SComp)
    ensures InTurn(Windows(c.out, c.id), spec.Delay(SComp))
  {
    var w := Windows(c.out, c.id);
    forall i | 0 <= i < |w| - 1 ensures w[i].end <= w[i + 1].start {
      assert After(spec, c.out[i], c.out[i + 1]);
    }
  }

  lemma ExecutionsApart(exp: C.Expectation, spec: Spec, run: seq<Cohort>, h: RunHeader, paths: Paths, q: LogicalRequest,
                        r: LogicalRequest)
    requires Ready(exp, spec, run, h, paths) && q in paths && r in paths
    requires q.cohort == r.cohort && q.ordinal < r.ordinal
    ensures var (x, y) := (E.WindowOf(paths[q], q), E.WindowOf(paths[r], r));
            x.end <= y.start && x.start <= x.end == x.start + spec.Delay(SComp) && y.end == y.start + spec.Delay(SComp)
  {
    hide Represents, ExpectsRun, CohortBuilt;
    var k := MemberOf(paths, run, h, q);
    var l := MemberOf(paths, run, h, r);
    assert k == l;
    PathOfMember(paths, run, h, k, q.ordinal);
    PathOfMember(paths, run, h, k, r.ordinal);
    WindowsApart(spec, run[k], q.ordinal, r.ordinal);
  }

  lemma ExecutesForward(exp: C.Expectation, spec: Spec, run: seq<Cohort>, h: RunHeader, paths: Paths, q: LogicalRequest)
    requires Ready(exp, spec, run, h, paths) && q in paths
    ensures E.WindowOf(paths[q], q).end == E.WindowOf(paths[q], q).start + spec.Delay(SComp)
  {
    hide Represents, ExpectsRun, ArrivedAt, CarriedBy;
    var k := MemberOf(paths, run, h, q);
    CohortOf(spec, run, k);
    PathOfMember(paths, run, h, k, q.ordinal);
    MemberTimes(spec, run[k].start, true, run[k].env, run[k].out, q.ordinal);
  }

  lemma ExecutionsClean(exp: C.Expectation, spec: Spec, run: seq<Cohort>, h: RunHeader, paths: Paths,
                        f: V.CohortFindings)
    requires Ready(exp, spec, run, h, paths) && V.ExecutionsJudged(exp, paths, f)
    ensures f.execution == []
  {
    hide E.Reported, E.WindowOf, Represents, RunBuilt;
    forall q | q in paths ensures E.WindowOf(paths[q], q).end == E.WindowOf(paths[q], q).start + spec.Delay(SComp) {
      ExecutesForward(exp, spec, run, h, paths, q);
    }
    forall q, r | q in paths && r in paths && q != r && q.cohort == r.cohort
      ensures E.Disjoint(E.WindowOf(paths[q], q), E.WindowOf(paths[r], r))
    {
      if q.ordinal < r.ordinal { ExecutionsApart(exp, spec, run, h, paths, q, r); }
      if r.ordinal < q.ordinal { ExecutionsApart(exp, spec, run, h, paths, r, q); }
    }
    WindowsForward(paths, spec.Delay(SComp));
    var orders :| E.Reported(paths, E.Executing(paths), orders, f.layouts, f.execution);
    E.ReportMeans(paths, orders, f.layouts, f.execution);
  }

  lemma WindowsForward(paths: Paths, d: nat)
    requires forall q :: q in paths ==> E.WindowOf(paths[q], q).end == E.WindowOf(paths[q], q).start + d
    ensures E.ForwardPaths(paths) && E.ClearStarts(paths)
  {
    forall q | q in paths ensures paths[q].ts[COMPUTE_START] <= paths[q].ts[COMPUTE_END] {
      assert E.WindowOf(paths[q], q).end >= E.WindowOf(paths[q], q).start;
    }
  }

  /* ---- The unnamed time ---- */

  /** The time no named stage covers: unpacking and packing at the adapter. */
  function Unnamed(spec: Spec): nat {
    spec.Delay(AdapterUnpack) + spec.Delay(ResponsePack)
  }

  lemma {:induction false} Rises(s: seq<int>, i: nat, j: nat)
    requires Increasing(s) && i <= j < |s|
    ensures s[j] - s[i] >= j - i
    decreases j
  {
    if i < j { Rises(s, i, j - 1); }
  }

  /** The requests of a cohort in order are its ordinals in order. */
  lemma OrdinalsInOrder(order: seq<LogicalRequest>, id: uint32, size: nat)
    requires A.Ascending(order) && size <= TWO_32
    requires forall q :: q in order <==> q.cohort == id && q.ordinal < size
    ensures |order| == size && forall o :: 0 <= o < size ==> order[o] == LogicalRequest(id, o)
  {
    var all := seq(size, o requires 0 <= o < size => LogicalRequest(id, o));
    forall q ensures q in order <==> q in all {
      if q.cohort == id && q.ordinal < size { assert all[q.ordinal] == q; }
    }
    SameThings(order, all);
    var ordinals: seq<int> := seq(size, o requires 0 <= o < size => order[o].ordinal);
    forall o | 0 <= o < size ensures order[o] in order {
    }
    assert Increasing(ordinals);
    forall o | 0 <= o < size ensures order[o] == LogicalRequest(id, o) {
      Rises(ordinals, 0, o);
      Rises(ordinals, o, size - 1);
      assert order[size - 1] in order;
    }
  }

  /** A list of the cohort's requests in order lists the construction's instants in order. */
  lemma CarriesThem(paths: Paths, spec: Spec, run: seq<Cohort>, h: RunHeader, k: nat, order: seq<LogicalRequest>)
    requires RunBuilt(spec, run) && Represents(paths, run, h) && k < |run| && CohortOrder(order, paths, run[k].id)
    ensures |order| == |run[k].out| && forall o :: 0 <= o < |order| ==> order[o] == LogicalRequest(run[k].id, o)
    ensures CarriesTimes(Members(order, paths), run[k].out)
  {
    hide Represents, AggregateOk, A.Ascending;
    CohortOf(spec, run, k);
    forall q: LogicalRequest ensures q in order <==> q.cohort == run[k].id && q.ordinal < |run[k].out| {
      if q in order {
        var l := MemberOf(paths, run, h, q);
        assert l == k;
      }
      if q.cohort == run[k].id && q.ordinal < |run[k].out| { PathOfMember(paths, run, h, k, q.ordinal); }
    }
    OrdinalsInOrder(order, run[k].id, |run[k].out|);
    forall o | 0 <= o < |order|
      ensures forall s: Stage ::
        s in paths[order[o]].presence && s in run[k].out[o] && paths[order[o]].ts[s] == run[k].out[o][s]
    {
      PathOfMember(paths, run, h, k, o);
    }
  }

  /** From the first send to the answer all members share. */
  function Whole(c: Cohort): int {
    if |c.out| > 0 && CLIENT_SEND in c.out[0] && CLIENT_RECV in c.out[0]
    then c.out[0][CLIENT_RECV] - c.out[0][CLIENT_SEND] else 0
  }

  lemma WholeIs(spec: Spec, c: Cohort, members: seq<Joined>, at: Times)
    requires CohortBuilt(spec, c) && CarriesTimes(members, c.out) && CohortTimes(members, at)
    ensures CLIENT_SEND in at && CLIENT_RECV in at && at[CLIENT_RECV] - at[CLIENT_SEND] == Whole(c)
  {
    hide CohortTimes, CarriesTimes, Serialized, Envelops, ExecutedAt;
    forall o | 0 <= o < |c.out|
      ensures CLIENT_SEND in c.out[o] && CLIENT_RECV in c.out[o] && CLIENT_RECV in c.out[0] && CLIENT_SEND in c.out[0]
      ensures c.out[o][CLIENT_RECV] == c.out[0][CLIENT_RECV] && c.out[0][CLIENT_SEND] <= c.out[o][CLIENT_SEND]
    {
      MemberTimes(spec, c.start, true, c.env, c.out, o);
      MemberTimes(spec, c.start, true, c.env, c.out, 0);
      Staggered(spec.memberStagger, 0, o);
    }
    SharedAt(members, c.out, at, CLIENT_RECV, c.out[0][CLIENT_RECV]);
    FirstAt(members, c.out, at, CLIENT_SEND);
  }

  lemma BuiltInOrder(spec: Spec, c: Cohort, members: seq<Joined>)
    requires CohortBuilt(spec, c) && CarriesTimes(members, c.out)
    ensures InOrder(members, SharedChain(true))
  {
    AggregateRecovers(spec, c.start, true, c.env, c.out);
    hide AggregateOk, SharedChain;
    forall i, k | 0 <= i < |members| && 0 <= k < |SharedChain(true)|
      ensures SpanInOrder(members[i], SharedChain(true)[k])
    {
      var span := SharedChain(true)[k];
      assert Measured(span, c.out[i]) && Duration(span, c.out[i]) >= 0;
    }
  }

  /**
   What the validator's own account of a built cohort says: every span but formation and execution
   took exactly its injected delay, the makespan is the whole way, and the residual is the time
   no stage names.
   */
  lemma DelaysRecovered(exp: C.Expectation, spec: Spec, run: seq<Cohort>, h: RunHeader, paths: Paths, k: nat,
                        a: CohortAccount)
    requires Ready(exp, spec, run, h, paths) && k < |run| && AccountOf(a, SharedChain(true), paths, run[k].id)
    ensures Complete(SharedChain(true), a.at)
    ensures forall n :: 0 <= n < |SharedChain(true)| ==>
              && Measured(SharedChain(true)[n], a.at)
              && (SharedChain(true)[n].name !in {WForm, SComp} ==>
                    Duration(SharedChain(true)[n], a.at) == spec.Delay(SharedChain(true)[n].name))
    ensures a.interval.makespan == Whole(run[k]) && a.residual == Unnamed(spec)
  {
    hide Represents, AggregateOk, CohortTimes, CarriesTimes, SharedChain, InOrder, Total, Coverage.Makespan,
         Coverage.Instants, Coverage.SumOfSpans, Intervals, ExpectsRun;
    var c, members := run[k], Members(a.order, paths);
    CohortOf(spec, run, k);
    CarriesThem(paths, spec, run, h, k, a.order);
    forall n | 0 <= n < |SharedChain(true)|
      ensures Measured(SharedChain(true)[n], a.at)
      ensures SharedChain(true)[n].name !in {WForm, SComp} ==>
                Duration(SharedChain(true)[n], a.at) == spec.Delay(SharedChain(true)[n].name)
    {
      CohortRecovers(spec, c.start, true, c.env, c.out, members, a.at, n);
    }
    ResidualsAre(spec, c, members, a, paths);
  }

  lemma UnaccountedIs(spec: Spec, at: Times)
    requires Complete(SharedChain(true), at)
    requires forall n :: 0 <= n < |SharedChain(true)| && SharedChain(true)[n].name !in {WForm, SComp} ==>
               Duration(SharedChain(true)[n], at) == spec.Delay(SharedChain(true)[n].name)
    ensures Unaccounted(SharedChain(true), at) == Unnamed(spec)
  {
    hide SharedChain, Total, PreCycle;
    R.UnnamedSpans(true, 5);
    R.UnnamedSpans(true, 10);
    assert Measured(SharedChain(true)[5], at) && Measured(SharedChain(true)[10], at);
    R.SharedUnnamed(true, at, 14);
  }

  lemma ResidualsAre(spec: Spec, c: Cohort, members: seq<Joined>, a: CohortAccount, paths: Paths)
    requires CohortBuilt(spec, c) && AccountOf(a, SharedChain(true), paths, c.id)
    requires members == Members(a.order, paths) && members != [] && CarriesTimes(members, c.out)
    requires Complete(SharedChain(true), a.at)
    requires forall n :: 0 <= n < |SharedChain(true)| && SharedChain(true)[n].name !in {WForm, SComp} ==>
               Duration(SharedChain(true)[n], a.at) == spec.Delay(SharedChain(true)[n].name)
    ensures a.interval.makespan == Whole(c) && a.residual == Unnamed(spec)
  {
    BuiltInOrder(spec, c, members);
    UnaccountedIs(spec, a.at);
    SharedVisits(F10);
    hide AggregateOk, CohortTimes, CarriesTimes, SharedChain, Chain, InOrder, Total, Coverage.Makespan,
         Coverage.Instants, Coverage.SumOfSpans, Intervals, Whole, CohortBuilt, Unnamed, Accounted, Unaccounted, Linked,
         ChainStages, CohortOrder, Complete;
    ReportedResidual(a, F10, paths, c.id);
    MakespanIsPathSpan(F10, members, a.at);
    WholeIs(spec, c, members, a.at);
  }

  /** The reports on a built run's cohorts: one for each, and what they find named. */
  ghost predicate Accounts(exp: C.Expectation, run: seq<Cohort>, paths: Paths, f: V.CohortFindings) {
    && (forall c :: c in f.accounts ==> AccountOf(f.accounts[c], SharedChain(true), paths, c))
    && (forall k :: 0 <= k < |run| ==> run[k].id in f.accounts)
    && (forall d :: d in f.conservation <==>
          && d.CohortResidual? && d.cohort in f.accounts
          && Exceeds(exp, f.accounts[d.cohort].residual, f.accounts[d.cohort].interval.makespan))
  }

  lemma JudgedShared(exp: C.Expectation, paths: Paths, f: V.CohortFindings)
    requires exp.cell == F10 && V.ConservationJudged(exp, paths, f)
    ensures forall c :: c in f.accounts ==> AccountOf(f.accounts[c], SharedChain(true), paths, c)
    ensures forall q :: q in paths && InFlight(paths[q]) ==> q.cohort in f.accounts
    ensures forall d :: d in f.conservation <==> ConservationDefect(exp, SharedChain(true), paths, f.accounts, d)
  {
    SharedVisits(F10);
    hide AccountOf, ConservationDefect, InFlight, SharedChain, Chain;
  }

  lemma ResidualNamed(exp: C.Expectation, spans: seq<Span>, paths: Paths, accounts: map<uint32, CohortAccount>,
                      d: C.Defect)
    requires exp.cell == F10
    ensures ConservationDefect(exp, spans, paths, accounts, d) <==>
              && d.CohortResidual? && d.cohort in accounts
              && Exceeds(exp, accounts[d.cohort].residual, accounts[d.cohort].interval.makespan)
  {
    hide Exceeds, RequestExceeds;
  }

  lemma AccountsAre(exp: C.Expectation, spec: Spec, run: seq<Cohort>, h: RunHeader, paths: Paths, f: V.CohortFindings)
    requires exp.cell == F10 && RunBuilt(spec, run) && Represents(paths, run, h) && V.ConservationJudged(exp, paths, f)
    ensures Accounts(exp, run, paths, f)
  {
    hide Represents, RunBuilt, AccountOf, Exceeds, SharedChain, InFlight, ConservationDefect, V.ConservationJudged;
    JudgedShared(exp, paths, f);
    forall k | 0 <= k < |run| ensures run[k].id in f.accounts {
      BuiltInFlight(spec, run, h, paths, k);
    }
    forall d: C.Defect
      ensures d in f.conservation <==>
                && d.CohortResidual? && d.cohort in f.accounts
                && Exceeds(exp, f.accounts[d.cohort].residual, f.accounts[d.cohort].interval.makespan)
    {
      ResidualNamed(exp, SharedChain(true), paths, f.accounts, d);
    }
  }

  lemma ResidualOf(exp: C.Expectation, spec: Spec, run: seq<Cohort>, h: RunHeader, paths: Paths, f: V.CohortFindings,
                   k: nat)
    requires Ready(exp, spec, run, h, paths) && Accounts(exp, run, paths, f) && k < |run|
    ensures C.CohortResidual(run[k].id) in f.conservation <==> Exceeds(exp, Unnamed(spec), Whole(run[k]))
  {
    hide Represents, RunBuilt, AccountOf, Exceeds, Whole, Unnamed, SharedChain, ExpectsRun;
    DelaysRecovered(exp, spec, run, h, paths, k, f.accounts[run[k].id]);
  }

  /** Nothing is named of the built cohorts' time exactly where the unnamed part is within tolerance. */
  lemma ConservationOf(exp: C.Expectation, spec: Spec, run: seq<Cohort>, h: RunHeader, paths: Paths,
                       f: V.CohortFindings)
    requires Ready(exp, spec, run, h, paths) && V.ConservationJudged(exp, paths, f)
    ensures f.conservation == [] <==> forall k :: 0 <= k < |run| ==> !Exceeds(exp, Unnamed(spec), Whole(run[k]))
  {
    assert exp.cell == F10;
    hide Represents, RunBuilt, AccountOf, Exceeds, Whole, Unnamed, SharedChain, V.ConservationJudged, ExpectsRun;
    AccountsAre(exp, spec, run, h, paths, f);
    forall k | 0 <= k < |run|
      ensures C.CohortResidual(run[k].id) in f.conservation <==> Exceeds(exp, Unnamed(spec), Whole(run[k]))
    {
      ResidualOf(exp, spec, run, h, paths, f, k);
    }
    if f.conservation != [] {
      NamedCohort(exp, run, h, paths, f, f.conservation[0]);
    }
  }

  /** Whatever is named of the cohorts' time is named of a cohort of the run. */
  lemma NamedCohort(exp: C.Expectation, run: seq<Cohort>, h: RunHeader, paths: Paths, f: V.CohortFindings, d: C.Defect)
    requires Represents(paths, run, h) && Accounts(exp, run, paths, f) && d in f.conservation
    ensures exists k :: 0 <= k < |run| && d == C.CohortResidual(run[k].id)
  {
    hide Represents, AccountOf, Exceeds, SharedChain;
    AccountHasMember(f.accounts[d.cohort], SharedChain(true), paths, d.cohort);
    var q :| q in paths && q.cohort == d.cohort;
    var k := MemberOf(paths, run, h, q);
    assert d == C.CohortResidual(run[k].id);
  }

  lemma SomeCollected(members: seq<Joined>)
    requires Intervals(members) != []
    ensures members != []
  {
  }

  lemma AccountHasMember(a: CohortAccount, spans: seq<Span>, paths: Paths, c: uint32)
    requires AccountOf(a, spans, paths, c)
    ensures exists q :: q in paths && q.cohort == c
  {
    hide CohortTimes, Coverage.Makespan, Coverage.Instants, Coverage.SumOfSpans, Total;
    SomeCollected(Members(a.order, paths));
    assert a.order[0] in a.order;
  }

  lemma BuiltInFlight(spec: Spec, run: seq<Cohort>, h: RunHeader, paths: Paths, k: nat)
    requires RunBuilt(spec, run) && Represents(paths, run, h) && k < |run|
    ensures LogicalRequest(run[k].id, 0) in paths && InFlight(paths[LogicalRequest(run[k].id, 0)])
  {
    hide Represents;
    CohortOf(spec, run, k);
    PathOfMember(paths, run, h, k, 0);
    MemberTimes(spec, run[k].start, true, run[k].env, run[k].out, 0);
    WindowForward(spec, run[k]);
  }

  lemma WindowForward(spec: Spec, c: Cohort)
    requires CohortBuilt(spec, c)
    ensures CLIENT_SEND in c.out[0] && CLIENT_RECV in c.out[0] && c.out[0][CLIENT_SEND] <= c.out[0][CLIENT_RECV]
  {
    hide Serialized;
    MemberTimes(spec, c.start, true, c.env, c.out, 0);
  }

  /* ---- The fan-out ---- */

  /** How long the first member's submission takes. */
  function Service(spec: Spec): nat {
    spec.Delay(XReqHop3) + spec.Delay(QBackend) + spec.Delay(SComp) + spec.Delay(XRespHop1)
  }

  /** Submissions a stagger apart, each taking at least d, the first exactly. */
  ghost predicate Staggers(w: seq<Coverage.Interval>, first: int, stagger: nat, d: nat) {
    && (forall o :: 0 <= o < |w| ==> w[o].start == first + o * stagger && w[o].end >= w[o].start + d)
    && (w != [] ==> w[0].end == first + d)
  }

  /**
   They are found overlapping exactly when the stagger is shorter than the first one takes, however they
   are sorted.
   */
  lemma OverlapOfStaggered(w: seq<Coverage.Interval>, v: seq<Coverage.Interval>, first: int, stagger: nat, d: nat)
    requires Staggers(w, first, stagger, d) && multiset(v) == multiset(w) && Coverage.ByStart(v)
    requires |w| < 2 || stagger > 0 || d > 0
    ensures (|v| < 2 || F.Chained(v)) <==> |w| < 2 || stagger < d
  {
    assert |multiset(v)| == |multiset(w)|;
    if |w| >= 2 {
      if stagger < d {
        forall i | 0 < i < |v| ensures v[i].start < v[i - 1].end {
          FollowsClosely(w, v, first, stagger, d, i);
        }
      } else {
        var k, l := TwoPlaces(v, w, 0, 1);
        FirstIsFirst(w, v, first, stagger, d, k);
        Staggered(stagger, 1, l);
        assert v[1].start >= v[0].end;
      }
    }
  }

  lemma FollowsClosely(w: seq<Coverage.Interval>, v: seq<Coverage.Interval>, first: int, stagger: nat, d: nat, i: nat)
    requires Staggers(w, first, stagger, d) && stagger < d
    requires multiset(v) == multiset(w) && Coverage.ByStart(v) && 0 < i < |v|
    ensures v[i].start < v[i - 1].end
  {
    var k, l := TwoPlaces(v, w, i - 1, i);
    Staggered(stagger, 0, k);
    if l > 0 && stagger > 0 {
      assert w[l - 1].start == w[l].start - stagger by {
        assert l * stagger == (l - 1) * stagger + stagger;
      }
      assert w[l - 1] in multiset(v);
      var j :| 0 <= j < |v| && v[j] == w[l - 1];
      assert j < i;
    } else {
      assert l * stagger == 0;
    }
  }

  lemma FirstIsFirst(w: seq<Coverage.Interval>, v: seq<Coverage.Interval>, first: int, stagger: nat, d: nat, k: nat)
    requires Staggers(w, first, stagger, d) && 0 < stagger && d <= stagger
    requires multiset(v) == multiset(w) && Coverage.ByStart(v)
    requires v != [] && k < |w| && w[k] == v[0]
    ensures k == 0
  {
    assert w[0] in multiset(v);
    var j :| 0 <= j < |v| && v[j] == w[0];
    if k > 0 {
      Staggered(stagger, 1, k);
      assert false;
    }
  }

  lemma {:induction false} AllSubmitted(members: seq<Joined>, out: seq<Times>)
    requires CarriesTimes(members, out)
    ensures |F.Submissions(members)| == |members|
    ensures forall o :: 0 <= o < |members| ==>
              F.Submissions(members)[o] == Coverage.Interval(out[o][ADAPTER_DISPATCH], out[o][ADAPTER_RESULT])
  {
    if members != [] {
      var n := |members| - 1;
      assert CarriesTimes(members[..n], out[..n]);
      AllSubmitted(members[..n], out[..n]);
      assert ADAPTER_DISPATCH in members[n].presence && ADAPTER_RESULT in members[n].presence;
    }
  }

  lemma SubmissionsStagger(spec: Spec, c: Cohort, members: seq<Joined>)
    requires CohortBuilt(spec, c) && CarriesTimes(members, c.out)
    ensures ADAPTER_DISPATCH in c.out[0]
    ensures Staggers(F.Submissions(members), c.out[0][ADAPTER_DISPATCH], spec.dispatchStagger, Service(spec))
  {
    AllSubmitted(members, c.out);
    hide F.Submissions, CarriesTimes, Serialized, Envelops, ArrivedAt, CarriedBy;
    forall o | 0 <= o < |c.out|
      ensures ADAPTER_DISPATCH in c.out[o] && ADAPTER_RESULT in c.out[o] && ADAPTER_DISPATCH in c.out[0]
      ensures c.out[o][ADAPTER_DISPATCH] == c.out[0][ADAPTER_DISPATCH] + o * spec.dispatchStagger
      ensures c.out[o][ADAPTER_RESULT] >= c.out[o][ADAPTER_DISPATCH] + Service(spec)
      ensures o == 0 ==> c.out[o][ADAPTER_RESULT] == c.out[o][ADAPTER_DISPATCH] + Service(spec)
    {
      MemberTimes(spec, c.start, true, c.env, c.out, o);
      Submitted(spec, c.start, c.env, c.out, o);
    }
    assert 0 * spec.dispatchStagger == 0;
  }

  lemma SpreadBetween(xs: seq<int>, lo: int, hi: int)
    requires lo in xs && hi in xs && forall x :: x in xs ==> lo <= x <= hi
    ensures F.SpreadOf(xs) == hi - lo
  {
  }

  /** The observed submissions are the members' own. */
  lemma ObservedAre(c: Cohort, members: seq<Joined>, x: int)
    requires CarriesTimes(members, c.out)
    ensures x in F.Observed(members, ADAPTER_DISPATCH) <==>
              exists o :: 0 <= o < |c.out| && ADAPTER_DISPATCH in c.out[o] && c.out[o][ADAPTER_DISPATCH] == x
  {
    hide F.Observed;
    F.ObservedMeans(members, ADAPTER_DISPATCH, x);
    if exists o :: 0 <= o < |c.out| && ADAPTER_DISPATCH in c.out[o] && c.out[o][ADAPTER_DISPATCH] == x {
      var o :| 0 <= o < |c.out| && ADAPTER_DISPATCH in c.out[o] && c.out[o][ADAPTER_DISPATCH] == x;
      assert members[o] in members && ADAPTER_DISPATCH in members[o].presence;
    }
    if exists j :: j in members && ADAPTER_DISPATCH in j.presence && j.ts[ADAPTER_DISPATCH] == x {
      var j :| j in members && ADAPTER_DISPATCH in j.presence && j.ts[ADAPTER_DISPATCH] == x;
      var o :| 0 <= o < |members| && members[o] == j;
      assert ADAPTER_DISPATCH in c.out[o];
    }
  }

  lemma SkewObserved(spec: Spec, c: Cohort, members: seq<Joined>)
    requires CohortBuilt(spec, c) && CarriesTimes(members, c.out)
    ensures F.SpreadOf(F.Observed(members, ADAPTER_DISPATCH)) == SkewOf(spec, |c.out|)
  {
    hide F.Observed, F.SpreadOf, CohortBuilt, CarriesTimes, AggregateOk;
    BuiltAs(spec, c);
    var xs, n := F.Observed(members, ADAPTER_DISPATCH), |c.out| - 1;
    Submitted(spec, c.start, c.env, c.out, n);
    ObservedAre(c, members, c.out[0][ADAPTER_DISPATCH]);
    ObservedAre(c, members, c.out[n][ADAPTER_DISPATCH]);
    forall x | x in xs ensures c.out[0][ADAPTER_DISPATCH] <= x <= c.out[n][ADAPTER_DISPATCH] {
      ObservedAre(c, members, x);
      var o :| 0 <= o < |c.out| && ADAPTER_DISPATCH in c.out[o] && c.out[o][ADAPTER_DISPATCH] == x;
      Submitted(spec, c.start, c.env, c.out, o);
    }
    SpreadBetween(xs, c.out[0][ADAPTER_DISPATCH], c.out[n][ADAPTER_DISPATCH]);
  }

  lemma BuiltAs(spec: Spec, c: Cohort)
    requires CohortBuilt(spec, c)
    ensures AggregateOk(spec, c.start, true, c.env, c.out) && c.out != []
  {
  }

  /** Submissions take time, or do not start together: where the sort puts equal starts makes no difference. */
  predicate SortDecides(spec: Spec) {
    spec.cohortSize < 2 || spec.dispatchStagger > 0 || Service(spec) > 0
  }

  /** What is read back of a built cohort's release. */
  lemma ReleaseRead(exp: C.Expectation, spec: Spec, run: seq<Cohort>, h: RunHeader, paths: Paths, k: nat, r: F.Release)
    requires Ready(exp, spec, run, h, paths) && k < |run| && F.ReleaseOf(r, paths, run[k].envelope)
    ensures |r.order| == |run[k].out| == spec.cohortSize && r.evidence == Some(run[k].dispatch)
    ensures r.observedSkew == SkewOf(spec, |run[k].out|)
    ensures ADAPTER_DISPATCH in run[k].out[0] && |F.Submissions(Members(r.order, paths))| == |r.order|
    ensures Staggers(F.Submissions(Members(r.order, paths)), run[k].out[0][ADAPTER_DISPATCH], spec.dispatchStagger,
                     Service(spec))
  {
    hide Represents, AggregateOk, F.Observed, F.SpreadOf, F.Submissions, F.Chained, A.Ascending, ExpectsRun, SkewOf,
         Service;
    var c, members := run[k], Members(r.order, paths);
    CohortOf(spec, run, k);
    forall q | q in paths ensures q.cohort == c.id <==> paths[q].envelopeID == c.envelope {
      EnvelopeTells(spec, run, h, paths, k, q);
    }
    CarriesThem(paths, spec, run, h, k, r.order);
    PathOfMember(paths, run, h, k, 0);
    assert members[0] == paths[LogicalRequest(c.id, 0)];
    SkewObserved(spec, c, members);
    SubmissionsStagger(spec, c, members);
    AllSubmitted(members, c.out);
  }

  lemma ReleaseOverlaps(exp: C.Expectation, spec: Spec, run: seq<Cohort>, h: RunHeader, paths: Paths, k: nat,
                        r: F.Release)
    requires Ready(exp, spec, run, h, paths) && k < |run| && F.ReleaseOf(r, paths, run[k].envelope) && SortDecides(spec)
    ensures r.overlapped <==> spec.cohortSize < 2 || spec.dispatchStagger < Service(spec)
  {
    hide Ready, F.Observed, F.SpreadOf, F.Submissions, F.Chained, Staggers, Service;
    ReleaseRead(exp, spec, run, h, paths, k, r);
    OverlapOfStaggered(F.Submissions(Members(r.order, paths)), r.windows, run[k].out[0][ADAPTER_DISPATCH],
                       spec.dispatchStagger, Service(spec));
  }

  lemma EnvelopeTells(spec: Spec, run: seq<Cohort>, h: RunHeader, paths: Paths, k: nat, q: LogicalRequest)
    requires RunBuilt(spec, run) && Represents(paths, run, h) && k < |run| && q in paths
    ensures q.cohort == run[k].id <==> paths[q].envelopeID == run[k].envelope
  {
    hide Represents, CohortBuilt;
    var l := MemberOf(paths, run, h, q);
    PathOfMember(paths, run, h, l, q.ordinal);
    assert l < k ==> run[l].id != run[k].id && run[l].envelope != run[k].envelope;
    assert k < l ==> run[k].id != run[l].id && run[k].envelope != run[l].envelope;
  }

  /** Whether the adapter's releases, as built, are found within bounds and overlapping. */
  ghost predicate FanOutPasses(exp: C.Expectation, spec: Spec) {
    && SkewOf(spec, spec.cohortSize) <= exp.maxDispatchSkew
    && (spec.cohortSize < 2 || spec.dispatchStagger < Service(spec))
  }

  ghost predicate Faultless(exp: C.Expectation, id: uint64, r: F.Release) {
    forall d :: !F.ReleaseDefect(exp, id, r, d)
  }

  lemma ReleaseClean(exp: C.Expectation, spec: Spec, run: seq<Cohort>, h: RunHeader, paths: Paths, k: nat, r: F.Release)
    requires Ready(exp, spec, run, h, paths) && k < |run| && F.ReleaseOf(r, paths, run[k].envelope) && SortDecides(spec)
    requires exp.maxDispatchSkew > 0
    ensures Faultless(exp, run[k].envelope, r) <==> FanOutPasses(exp, spec)
  {
    hide Ready, F.ReleaseOf, Service, SkewOf, SortDecides, Staggers, F.Submissions;
    ReleaseRead(exp, spec, run, h, paths, k, r);
    ReleaseOverlaps(exp, spec, run, h, paths, k, r);
    assert Ready(exp, spec, run, h, paths) ==> RunBuilt(spec, run) by { ReadyParts(exp, spec, run, h, paths); }
    hide RunBuilt;
    CohortOf(spec, run, k);
    hide AggregateOk;
    var id := run[k].envelope;
    assert F.ReleaseDefect(exp, id, r, C.SkewExceeds(id)) <==> SkewOf(spec, spec.cohortSize) > exp.maxDispatchSkew;
    assert F.ReleaseDefect(exp, id, r, C.SerialRelease(id)) <==>
      !(spec.cohortSize < 2 || spec.dispatchStagger < Service(spec));
  }

  /** Two submissions that start together and take no time are not linked. */
  lemma InstantNotLinked(w: seq<Coverage.Interval>, first: int)
    requires Staggers(w, first, 0, 0) && |w| >= 2
    ensures !F.Linked(w)
  {
    assert w[0].end == w[0].start == w[1].start;
    assert F.MayFollow(w, 0, 1);
  }

  lemma InstantReleaseUnlinked(exp: C.Expectation, spec: Spec, run: seq<Cohort>, h: RunHeader, paths: Paths, k: nat,
                               r: F.Release)
    requires Ready(exp, spec, run, h, paths) && k < |run| && F.ReleaseOf(r, paths, run[k].envelope)
    requires !SortDecides(spec)
    ensures |r.order| > 1 && r.evidence.Some? && !F.Linked(F.Submissions(Members(r.order, paths)))
  {
    hide Ready, F.Submissions, F.Linked, Staggers, F.Chained, F.Observed, F.SpreadOf;
    ReleaseRead(exp, spec, run, h, paths, k, r);
    InstantNotLinked(F.Submissions(Members(r.order, paths)), run[k].out[0][ADAPTER_DISPATCH]);
  }

  /**
   Whatever the delays: a release is found faultless in every order its ties may be sorted into if
   and only if the fan-out passes.
   */
  lemma ReleaseInEveryOrder(exp: C.Expectation, spec: Spec, run: seq<Cohort>, h: RunHeader, paths: Paths, k: nat,
                            r: F.Release)
    requires Ready(exp, spec, run, h, paths) && k < |run| && F.ReleaseOf(r, paths, run[k].envelope)
    requires exp.maxDispatchSkew > 0
    ensures (forall s :: F.ReleaseOf(s, paths, run[k].envelope) ==> Faultless(exp, run[k].envelope, s)) <==>
            FanOutPasses(exp, spec)
  {
    hide Ready, F.ReleaseOf, SkewOf, Staggers, F.Submissions, F.ReleaseDefect, F.Linked;
    var id := run[k].envelope;
    if SortDecides(spec) {
      forall s | F.ReleaseOf(s, paths, id) ensures Faultless(exp, id, s) <==> FanOutPasses(exp, spec) {
        ReleaseClean(exp, spec, run, h, paths, k, s);
      }
    } else {
      InstantReleaseUnlinked(exp, spec, run, h, paths, k, r);
      F.EveryReleaseDecided(exp, paths, id, r);
    }
  }

  lemma ReadyParts(exp: C.Expectation, spec: Spec, run: seq<Cohort>, h: RunHeader, paths: Paths)
    requires Ready(exp, spec, run, h, paths)
    ensures RunBuilt(spec, run) && Represents(paths, run, h) && ExpectsRun(exp, spec, run, h)
  {
  }

  lemma NoForeign(exp: C.Expectation, spec: Spec, run: seq<Cohort>, h: RunHeader, paths: Paths, d: C.Defect)
    requires Ready(exp, spec, run, h, paths)
    ensures !F.ForeignAt(paths, d)
  {
    hide Represents, RunBuilt, ExpectsRun;
    if d.ForeignDispatch? && d.q in paths {
      var k := MemberOf(paths, run, h, d.q);
      PathOfMember(paths, run, h, k, d.q.ordinal);
    }
  }

  /** The releases judged are the cohorts' own. */
  lemma ReleasesAre(exp: C.Expectation, spec: Spec, run: seq<Cohort>, h: RunHeader, paths: Paths, id: uint64)
    requires Ready(exp, spec, run, h, paths)
    ensures (id != 0 && exists q :: q in paths && paths[q].envelopeID == id) <==>
            exists k :: 0 <= k < |run| && run[k].envelope == id
  {
    hide Represents, RunBuilt, ExpectsRun, AggregateOk;
    if exists q :: q in paths && paths[q].envelopeID == id {
      var q :| q in paths && paths[q].envelopeID == id;
      var k := MemberOf(paths, run, h, q);
      PathOfMember(paths, run, h, k, q.ordinal);
    }
    if exists k :: 0 <= k < |run| && run[k].envelope == id {
      var k :| 0 <= k < |run| && run[k].envelope == id;
      CohortOf(spec, run, k);
      PathOfMember(paths, run, h, k, 0);
    }
  }

  lemma FanOutBranch(exp: C.Expectation, paths: Paths, f: V.CohortFindings)
    requires exp.cell == F10 && V.FanOutJudged(exp, paths, f)
    ensures exp.maxDispatchSkew <= 0 ==> f.fanOut != []
    ensures exp.maxDispatchSkew > 0 ==>
              && (forall id :: id in f.releases <==> id != 0 && exists q :: q in paths && paths[q].envelopeID == id)
              && (forall id :: id in f.releases ==> F.ReleaseOf(f.releases[id], paths, id))
              && (forall d :: d in f.fanOut <==> F.FanOutDefect(exp, paths, f.releases, d))
  {
    hide F.ReleaseOf, F.FanOutDefect;
  }

  /** The releases reported are the cohorts' own, each read from its members. */
  ghost predicate ReleasesOf(releases: map<uint64, F.Release>, run: seq<Cohort>, paths: Paths) {
    && (forall id :: id in releases <==> exists k :: 0 <= k < |run| && run[k].envelope == id)
    && (forall id :: id in releases ==> F.ReleaseOf(releases[id], paths, id))
  }

  lemma ReleasesListed(exp: C.Expectation, spec: Spec, run: seq<Cohort>, h: RunHeader, paths: Paths,
                       f: V.CohortFindings)
    requires Ready(exp, spec, run, h, paths) && exp.cell == F10
    requires V.FanOutJudged(exp, paths, f) && exp.maxDispatchSkew > 0
    ensures ReleasesOf(f.releases, run, paths)
  {
    hide Ready, F.ReleaseOf, F.FanOutDefect, V.FanOutJudged;
    FanOutBranch(exp, paths, f);
    forall id ensures id in f.releases <==> exists k :: 0 <= k < |run| && run[k].envelope == id {
      ReleasesAre(exp, spec, run, h, paths, id);
    }
  }

  /** The release of this envelope is reported, and found fault with unless the fan-out passes. */
  ghost predicate ReleaseVerdict(exp: C.Expectation, spec: Spec, releases: map<uint64, F.Release>, id: uint64) {
    id in releases && (Faultless(exp, id, releases[id]) <==> FanOutPasses(exp, spec))
  }

  lemma ReleasesClean(exp: C.Expectation, spec: Spec, run: seq<Cohort>, h: RunHeader, paths: Paths,
                      releases: map<uint64, F.Release>, k: nat)
    requires Ready(exp, spec, run, h, paths) && ReleasesOf(releases, run, paths)
    requires SortDecides(spec) && exp.maxDispatchSkew > 0 && k < |run|
    ensures ReleaseVerdict(exp, spec, releases, run[k].envelope)
  {
    hide Ready, F.ReleaseOf, F.ReleaseDefect, FanOutPasses, Faultless, SortDecides;
    assert run[k].envelope in releases;
    ReleaseClean(exp, spec, run, h, paths, k, releases[run[k].envelope]);
  }

  lemma FanOutOf(exp: C.Expectation, spec: Spec, run: seq<Cohort>, h: RunHeader, paths: Paths, f: V.CohortFindings)
    requires Ready(exp, spec, run, h, paths) && exp.cell == F10 && V.FanOutJudged(exp, paths, f)
    requires run == [] || SortDecides(spec)
    ensures f.fanOut == [] <==> exp.maxDispatchSkew > 0 && (run == [] || FanOutPasses(exp, spec))
  {
    hide Ready, F.ReleaseDefect, F.FanOutDefect, FanOutPasses, SortDecides, V.FanOutJudged, ReleasesOf, ReleaseVerdict;
    FanOutBranch(exp, paths, f);
    if exp.maxDispatchSkew > 0 {
      ReleasesListed(exp, spec, run, h, paths, f);
      forall k | 0 <= k < |run| ensures ReleaseVerdict(exp, spec, f.releases, run[k].envelope) {
        ReleasesClean(exp, spec, run, h, paths, f.releases, k);
      }
      FanOutNamed(exp, spec, run, h, paths, f);
    }
  }

  lemma FanOutNamed(exp: C.Expectation, spec: Spec, run: seq<Cohort>, h: RunHeader, paths: Paths, f: V.CohortFindings)
    requires Ready(exp, spec, run, h, paths) && forall d :: d in f.fanOut <==> F.FanOutDefect(exp, paths, f.releases, d)
    requires ReleasesOf(f.releases, run, paths)
    requires forall k :: 0 <= k < |run| ==> ReleaseVerdict(exp, spec, f.releases, run[k].envelope)
    ensures f.fanOut == [] <==> run == [] || FanOutPasses(exp, spec)
  {
    hide Ready, F.ReleaseDefect, F.ReleaseOf, F.ForeignAt, FanOutPasses;
    if f.fanOut != [] {
      var d := f.fanOut[0];
      assert F.FanOutDefect(exp, paths, f.releases, d);
      NoForeign(exp, spec, run, h, paths, d);
      var id :| id in f.releases && F.ReleaseDefect(exp, id, f.releases[id], d);
      var k :| 0 <= k < |run| && run[k].envelope == id;
      assert ReleaseVerdict(exp, spec, f.releases, run[k].envelope);
    }
    if run != [] && !FanOutPasses(exp, spec) {
      assert ReleaseVerdict(exp, spec, f.releases, run[0].envelope);
      var d :| F.ReleaseDefect(exp, run[0].envelope, f.releases[run[0].envelope], d);
      assert F.FanOutDefect(exp, paths, f.releases, d);
      assert d in f.fanOut;
    }
  }

  /* ---- The verdict ---- */

  lemma JudgedParts(exp: C.Expectation, paths: Paths, v: V.Verdict)
    requires exp.cell == F10 && V.Judges(exp, paths, v) && v.failures == map[]
    ensures V.PathsJudged(exp, paths, paths, v.paths) && V.ExecutionsJudged(exp, paths, v.cohorts)
    ensures V.ConservationJudged(exp, paths, v.cohorts) && V.FanOutJudged(exp, paths, v.cohorts)
    ensures v.cohorts.adapter == v.cohorts.formation == []
    ensures forall d :: d in v.cohorts.aggregation <==> A.AggregationDefect(exp, paths, d)
    ensures v.passed <==> v.paths.None() && v.cohorts.None()
  {
    hide A.AggregationDefect, A.Diagnoses, V.ConservationJudged, V.FanOutJudged, V.ExecutionsJudged, V.PathsJudged;
    assert v.failures.Keys == {} && A.Without(paths, {}) == paths;
    HeadIn(v.cohorts.formation);
  }

  lemma WholeSized(run: seq<Cohort>, h: RunHeader, paths: Paths)
    requires Whole4(run, h, paths)
    ensures Sized(run)
  {
  }

  lemma NothingElseNamed(exp: C.Expectation, spec: Spec, run: seq<Cohort>, h: RunHeader, paths: Paths, v: V.Verdict)
    requires Ready(exp, spec, run, h, paths) && Whole4(run, h, paths) && exp.cell == F10 && V.Judges(exp, paths, v)
    ensures v.failures == map[] && v.paths.None()
    ensures v.cohorts.aggregation == v.cohorts.formation == v.cohorts.adapter == v.cohorts.execution == []
    ensures V.ConservationJudged(exp, paths, v.cohorts) && V.FanOutJudged(exp, paths, v.cohorts)
    ensures v.passed <==> v.cohorts.conservation == [] && v.cohorts.fanOut == []
  {
    hide Ready, Whole4, A.AggregationDefect, V.ConservationJudged, V.FanOutJudged, V.ExecutionsJudged, V.PathsJudged,
         V.CohortsJudged, CP.Clean;
    assert Sized(run) by { WholeSized(run, h, paths); }
    NoneFailed(exp, spec, run, h, paths, v.failures);
    JudgedParts(exp, paths, v);
    hide V.Judges;
    BuiltClean(exp, spec, run, h, paths);
    CP.PathsClean(exp, h, Parts(run), paths, v.paths);
    forall d: C.Defect ensures !A.AggregationDefect(exp, paths, d) {
      AggregationClean(exp, spec, run, h, paths, d);
    }
    HeadIn(v.cohorts.aggregation);
    ExecutionsClean(exp, spec, run, h, paths, v.cohorts);
  }

  /**
   The verdict on a built run, from its split records: it passes if and only if the adapter's
   unnamed time is within tolerance of every cohort's makespan, a skew bound is set, and the
   fan-out keeps to it with submissions that overlap. Whatever else the delays are, nothing else
   is found.
   */
  lemma BuiltVerdictExact(exp: C.Expectation, spec: Spec, run: seq<Cohort>, h: RunHeader, v: V.Verdict)
    requires RunBuilt(spec, run) && FitsRun(run) && ExpectsRun(exp, spec, run, h)
    requires run == [] || SortDecides(spec)
    requires V.Judges(exp, JoinOf(Evidence(F10, h, Parts(run))), v)
    ensures v.passed <==>
              && (forall k :: 0 <= k < |run| ==> !Exceeds(exp, Unnamed(spec), Whole(run[k])))
              && exp.maxDispatchSkew > 0 && (run == [] || FanOutPasses(exp, spec))
  {
    assert exp.cell == F10;
    var paths := JoinOf(Evidence(F10, h, Parts(run)));
    Represented(spec, run, h);
    assert Ready(exp, spec, run, h, paths);
    assert Whole4(run, h, paths);
    hide Whole4, RunBuilt, ExpectsRun, Represents, JoinOf, Evidence, Parts, Exceeds, FanOutPasses, SortDecides,
         Unnamed, Whole,
         Ready, V.Judges, V.ConservationJudged, V.FanOutJudged;
    NothingElseNamed(exp, spec, run, h, paths, v);
    ConservationOf(exp, spec, run, h, paths, v.cohorts);
    FanOutOf(exp, spec, run, h, paths, v.cohorts);
  }

  /* ---- Every order of ties ---- */

  /** Two readings of one release differ at most in how its submissions were sorted. */
  lemma OnlySerial(exp: C.Expectation, paths: Paths, id: uint64, r: F.Release, s: F.Release, d: C.Defect)
    requires F.ReleaseOf(r, paths, id) && F.ReleaseOf(s, paths, id) && Faultless(exp, id, r)
    requires F.ReleaseDefect(exp, id, s, d)
    ensures d == C.SerialRelease(id)
  {
    hide F.Observed, F.SpreadOf, F.FirstEvidence, F.Submissions, F.Chained, A.Ascending;
    A.AscendingIsUnique(r.order, s.order);
    assert !F.ReleaseDefect(exp, id, r, d);
  }

  /** A verdict that passed, with one release read from another order of its submissions that calls it serial. */
  lemma OtherOrder(exp: C.Expectation, paths: Paths, v: V.Verdict, id: uint64, s: F.Release) returns (u: V.Verdict)
    requires exp.cell == F10 && exp.maxDispatchSkew > 0 && V.Judges(exp, paths, v) && v.passed
    requires id in v.cohorts.releases && F.ReleaseOf(s, A.Without(paths, v.failures.Keys), id)
    requires forall d :: F.ReleaseDefect(exp, id, s, d) <==> d == C.SerialRelease(id)
    ensures V.Judges(exp, paths, u) && !u.passed
  {
    hide F.ReleaseDefect, F.ReleaseOf, F.ForeignAt, V.PathsJudged, A.Diagnoses, V.ExecutionsJudged,
         V.ConservationJudged, A.Without;
    var f := v.cohorts;
    var releases := f.releases[id := s];
    u := v.(cohorts := f.(releases := releases, fanOut := [C.SerialRelease(id)]), passed := false);
    var visible := A.Without(paths, v.failures.Keys);
    forall d ensures d in u.cohorts.fanOut <==> F.FanOutDefect(exp, visible, releases, d) {
      assert !F.FanOutDefect(exp, visible, f.releases, d);
      if d == C.SerialRelease(id) {
        assert F.ReleaseDefect(exp, id, releases[id], d);
      }
    }
    SameOthers(exp, paths, v.cohorts, releases, u.cohorts.fanOut);
  }

  lemma SameOthers(exp: C.Expectation, paths: Paths, f: V.CohortFindings, releases: map<uint64, F.Release>,
                   fanOut: seq<C.Defect>)
    requires exp.cell == F10
    ensures V.ExecutionsJudged(exp, paths, f) ==>
            V.ExecutionsJudged(exp, paths, f.(releases := releases, fanOut := fanOut))
    ensures V.ConservationJudged(exp, paths, f) ==>
            V.ConservationJudged(exp, paths, f.(releases := releases, fanOut := fanOut))
  {
  }

  /** A cohort whose members are submitted together and answered at once is not overlapped in every order. */
  lemma SomeOrderIsSerial(exp: C.Expectation, spec: Spec, run: seq<Cohort>, h: RunHeader, paths: Paths, v: V.Verdict)
    returns (u: V.Verdict)
    requires Ready(exp, spec, run, h, paths) && run != [] && !SortDecides(spec) && V.Judges(exp, paths, v)
    ensures V.Judges(exp, paths, u) && !u.passed
  {
    hide V.PathsJudged, V.ExecutionsJudged, V.ConservationJudged, V.FanOutJudged, A.Diagnoses, SortDecides,
         F.ReleaseDefect, F.ReleaseOf, Represents, RunBuilt, F.Linked, F.Submissions;
    u := v;
    if v.passed {
      NoFailures(exp, paths, v);
      FanOutBranch(exp, paths, v.cohorts);
      ReleasesListed(exp, spec, run, h, paths, v.cohorts);
      var id := run[0].envelope;
      var r := v.cohorts.releases[id];
      InstantReleaseUnlinked(exp, spec, run, h, paths, 0, r);
      F.EveryReleaseDecided(exp, paths, id, r);
      var s :| F.ReleaseOf(s, paths, id) && F.ReleaseDefect(exp, id, s, C.SerialRelease(id));
      ReleaseFaultless(exp, paths, v, id);
      forall d | F.ReleaseDefect(exp, id, s, d) ensures d == C.SerialRelease(id) {
        OnlySerial(exp, paths, id, r, s, d);
      }
      u := OtherOrder(exp, paths, v, id, s);
    }
  }

  lemma NoFailures(exp: C.Expectation, paths: Paths, v: V.Verdict)
    requires V.Judges(exp, paths, v) && v.passed
    ensures v.failures == map[] && A.Without(paths, v.failures.Keys) == paths
  {
    hide V.PathsJudged, V.AdapterJudged, V.ExecutionsJudged, V.ConservationJudged, V.FanOutJudged, A.Diagnoses;
    forall c ensures c !in v.failures {
      assert C.FormationFailed(c) !in v.cohorts.formation;
    }
    assert v.failures == map[];
  }

  lemma ReleaseFaultless(exp: C.Expectation, paths: Paths, v: V.Verdict, id: uint64)
    requires V.Judges(exp, paths, v) && v.passed && exp.cell == F10 && exp.maxDispatchSkew > 0
    requires id in v.cohorts.releases
    ensures Faultless(exp, id, v.cohorts.releases[id])
  {
    NoFailures(exp, paths, v);
    hide V.PathsJudged, V.AdapterJudged, V.ExecutionsJudged, V.ConservationJudged, A.Diagnoses, F.ReleaseDefect,
         F.ReleaseOf;
    forall d ensures !F.ReleaseDefect(exp, id, v.cohorts.releases[id], d) {
      assert !F.FanOutDefect(exp, paths, v.cohorts.releases, d);
    }
  }

  /**
   Whatever the delays of a built run: Validate passes it in every order its ties may be sorted
   into if and only if the unnamed time is within tolerance of every cohort's makespan, a skew
   bound is set, and the fan-out keeps to it with submissions that overlap.
   */
  lemma BuiltVerdictInEveryOrder(exp: C.Expectation, spec: Spec, run: seq<Cohort>, h: RunHeader, v: V.Verdict)
    requires RunBuilt(spec, run) && FitsRun(run) && ExpectsRun(exp, spec, run, h)
    requires V.Judges(exp, JoinOf(Evidence(F10, h, Parts(run))), v)
    ensures (forall u :: V.Judges(exp, JoinOf(Evidence(F10, h, Parts(run))), u) ==> u.passed) <==>
              && (forall k :: 0 <= k < |run| ==> !Exceeds(exp, Unnamed(spec), Whole(run[k])))
              && exp.maxDispatchSkew > 0 && (run == [] || FanOutPasses(exp, spec))
  {
    var paths := JoinOf(Evidence(F10, h, Parts(run)));
    Represented(spec, run, h);
    assert Ready(exp, spec, run, h, paths);
    assert !SortDecides(spec) ==> !FanOutPasses(exp, spec);
    hide RunBuilt, ExpectsRun, Represents, JoinOf, Evidence, Parts, Exceeds, FanOutPasses, SortDecides, Unnamed, Whole,
         Ready, V.Judges;
    if run == [] || SortDecides(spec) {
      forall u | V.Judges(exp, paths, u)
        ensures u.passed <==>
                  && (forall k :: 0 <= k < |run| ==> !Exceeds(exp, Unnamed(spec), Whole(run[k])))
                  && exp.maxDispatchSkew > 0 && (run == [] || FanOutPasses(exp, spec))
      {
        BuiltVerdictExact(exp, spec, run, h, u);
      }
    } else {
      var u := SomeOrderIsSerial(exp, spec, run, h, paths, v);
    }
  }
}
