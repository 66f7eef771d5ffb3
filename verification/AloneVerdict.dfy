/**
 The verdict on a run built for a cell in which every request travels and executes alone
 (internal/testkit/fixtures.go, internal/validate/validate.go): every injected delay comes back
 from its own path; a direct run always passes, and one through the adapter exactly where the
 adapter's own time is within tolerance and its unpacking within the bound on its wait.
 */
module AloneVerdict {
  import opened Identity
  import opened Schema
  import opened Wire
  import opened Chains
  import opened Joins
  import opened Conservation
  import opened Fixtures
  import opened Bundles
  import opened AloneRuns
  import opened Sorting
  import C = Checks
  import A = Aggregation
  import V = Verdict
  import E = Executions
  import F = FanOut
  import O = OnArrival
  import R = Residuals
  import CP = CleanPaths

  /** The expectation Build puts beside the records. */
  ghost predicate ExpectsRun(exp: C.Expectation, spec: Spec, run: seq<Cohort>, h: RunHeader) {
    && Alone(exp.cell) && CP.Expects(exp, h)
    && exp.cohortSize == spec.cohortSize && exp.cohortCount == |run|
    && (forall k :: 0 <= k < |run| ==> run[k].id == (exp.firstCohortID + k) % TWO_32)
  }

  /** What is known of the records' join. */
  ghost predicate Ready(exp: C.Expectation, spec: Spec, run: seq<Cohort>, h: RunHeader, paths: Paths) {
    RunBuilt(exp.cell, spec, run) && Represents(exp.cell, paths, run, h) && ExpectsRun(exp, spec, run, h)
  }

  lemma CohortOf(cell: Cell, spec: Spec, run: seq<Cohort>, k: nat)
    requires RunBuilt(cell, spec, run) && k < |run|
    ensures CohortBuilt(cell, spec, run[k]) && |run[k].out| == spec.cohortSize
    ensures 0 < |run[k].out| <= MAX_ORDINAL + 1 && run[k].first > 0
  {
    assert CohortBuilt(cell, spec, run[k]);
  }

  lemma MemberOf(cell: Cell, paths: Paths, run: seq<Cohort>, h: RunHeader, q: LogicalRequest) returns (k: nat)
    requires Represents(cell, paths, run, h) && q in paths
    ensures k < |run| && q.cohort == run[k].id && q.ordinal < |run[k].out|
  {
    hide MemberIn;
    k :| 0 <= k < |run| && q.cohort == run[k].id && q.ordinal < |run[k].out|;
  }

  /* ---- Every injected delay ---- */

  /** The path of a request, in the terms of its construction. */
  lemma PathTells(exp: C.Expectation, spec: Spec, run: seq<Cohort>, h: RunHeader, paths: Paths, q: LogicalRequest)
    returns (k: nat)
    requires Ready(exp, spec, run, h, paths) && q in paths
    ensures k < |run| && q.cohort == run[k].id && q.ordinal < |run[k].out| && CohortBuilt(exp.cell, spec, run[k])
    ensures Topology(exp.cell).Some? && paths[q].presence == Topology(exp.cell).value
    ensures forall s :: s in paths[q].presence ==>
            s in run[k].out[q.ordinal] && paths[q].ts[s] == run[k].out[q.ordinal][s]
    ensures paths[q].envelopeID == (if UsesProxy(exp.cell) then run[k].first + q.ordinal else 0)
    ensures paths[q].dispatchBySource
         == (if UsesProxy(exp.cell) then map[EMITTER_ADAPTER := Dispatch(1, 0, run[k].cpu, 1)]
                                          else map[])
  {
    hide Represents, RunBuilt, CohortBuilt, Topology;
    k := MemberOf(exp.cell, paths, run, h, q);
    CohortOf(exp.cell, spec, run, k);
    PathOfMember(exp.cell, paths, run, h, k, q.ordinal);
  }

  /**
   Decomposed, a built request's own path returns every injected delay exactly but the queue's,
   which is never less, and exactly that of the first of a cohort.
   */
  lemma DelaysRecovered(exp: C.Expectation, spec: Spec, run: seq<Cohort>, h: RunHeader, paths: Paths, q: LogicalRequest)
    requires Ready(exp, spec, run, h, paths) && q in paths
    ensures Recovers(spec, Chain(exp.cell).value, TimesOf(paths[q]))
    ensures q.ordinal == 0 ==> RecoversExactly(spec, Chain(exp.cell).value, TimesOf(paths[q]))
  {
    var k := PathTells(exp, spec, run, h, paths, q);
    ChainVisitsTopology(exp.cell);
    hide Ready, CohortBuilt, Chain, Topology, Recovers, RecoversExactly;
    BuiltRecovers(exp.cell, spec, run[k], q.ordinal);
    SameTimes(exp.cell, spec, run[k].out[q.ordinal], TimesOf(paths[q]), q.ordinal == 0);
  }

  lemma SameTimes(cell: Cell, spec: Spec, ts: Times, at: Times, exact: bool)
    requires Chain(cell).Some? && Topology(cell).Some?
    requires forall s: Stage :: s in Topology(cell).value <==> s in ChainStages(Chain(cell).value)
    requires forall s: Stage :: s in Topology(cell).value ==> s in at && s in ts && at[s] == ts[s]
    requires Recovers(spec, Chain(cell).value, ts) && (exact ==> RecoversExactly(spec, Chain(cell).value, ts))
    requires Linked(Chain(cell).value)
    ensures Recovers(spec, Chain(cell).value, at) && (exact ==> RecoversExactly(spec, Chain(cell).value, at))
  {
    hide Chain, Topology;
    var spans := Chain(cell).value;
    forall k | 0 <= k < |spans|
      ensures Measured(spans[k], at) && Measured(spans[k], ts) && Duration(spans[k], at) == Duration(spans[k], ts)
    {
      SpanPlaces(spans, k);
      assert spans[k].start in Topology(cell).value && spans[k].end in Topology(cell).value;
    }
  }

  /* ---- Nothing found in single paths ---- */

  lemma ScheduledIsIn(exp: C.Expectation, spec: Spec, run: seq<Cohort>, h: RunHeader, paths: Paths, q: LogicalRequest)
    requires Ready(exp, spec, run, h, paths)
    ensures C.Scheduled(exp, q) <==> q in paths
  {
    hide Represents, RunBuilt, C.ScheduledAt, CohortBuilt, CP.Expects;
    if C.Scheduled(exp, q) {
      var c, o :| 0 <= c < exp.cohortCount && 0 <= o < exp.cohortSize && q == C.ScheduledAt(exp, c, o);
      ScheduledMember(exp, spec, run, h, paths, c, o);
    }
    if q in paths {
      var k := MemberOf(exp.cell, paths, run, h, q);
      CohortOf(exp.cell, spec, run, k);
      ScheduledMember(exp, spec, run, h, paths, k, q.ordinal);
      assert q == C.ScheduledAt(exp, k, q.ordinal);
    }
  }

  lemma ScheduledMember(exp: C.Expectation, spec: Spec, run: seq<Cohort>, h: RunHeader, paths: Paths, k: nat, o: nat)
    requires Ready(exp, spec, run, h, paths) && k < |run| && o < spec.cohortSize
    ensures o < |run[k].out| && C.ScheduledAt(exp, k, o) == LogicalRequest(run[k].id, o)
    ensures C.ScheduledAt(exp, k, o) in paths
  {
    hide Represents, RunBuilt, CohortBuilt, Topology;
    CohortOf(exp.cell, spec, run, k);
    PathOfMember(exp.cell, paths, run, h, k, o);
  }

  lemma BuiltSound(exp: C.Expectation, spec: Spec, run: seq<Cohort>, k: nat, o: nat)
    requires Alone(exp.cell) && exp.cohortSize == spec.cohortSize && RunBuilt(exp.cell, spec, run) && Sized(run)
    requires k < |run| && o < |run[k].out|
    ensures CP.SoundPart(exp, PartOf(run[k], o))
  {
    hide Uid, UidRequest, RunBuilt;
    CohortOf(exp.cell, spec, run, k);
    UidInvertible(PartOf(run[k], o).q);
    BuiltRecovers(exp.cell, spec, run[k], o);
    hide Chain, Topology, ProperChain, CohortOk;
    assert run[k] in run;
  }

  lemma BuiltSoundParts(exp: C.Expectation, spec: Spec, run: seq<Cohort>)
    requires Alone(exp.cell) && exp.cohortSize == spec.cohortSize && RunBuilt(exp.cell, spec, run) && Sized(run)
    ensures forall i :: 0 <= i < |Parts(run)| ==> CP.SoundPart(exp, Parts(run)[i])
  {
    hide CP.SoundPart, PartOf, Parts, CohortBuilt;
    var parts := Parts(run);
    forall i | 0 <= i < |parts| ensures CP.SoundPart(exp, parts[i]) {
      InParts(run, parts[i]);
      assert parts[i] in parts;
      var k, o :| 0 <= k < |run| && 0 <= o < |run[k].out| && parts[i] == PartOf(run[k], o);
      BuiltSound(exp, spec, run, k, o);
    }
  }

  lemma BuiltAsScheduled(exp: C.Expectation, spec: Spec, run: seq<Cohort>, h: RunHeader, paths: Paths)
    requires Ready(exp, spec, run, h, paths)
    ensures Sized(run) && CP.AsScheduled(exp, Parts(run))
  {
    var parts := Parts(run);
    forall q ensures C.Scheduled(exp, q) <==> exists i :: 0 <= i < |parts| && parts[i].q == q {
      ScheduledIsIn(exp, spec, run, h, paths, q);
      hide C.Scheduled, PutTogether, RunBuilt, ExpectsRun, MemberIn;
    }
  }

  lemma BuiltClean(exp: C.Expectation, spec: Spec, run: seq<Cohort>, h: RunHeader, paths: Paths)
    requires Ready(exp, spec, run, h, paths)
    ensures Sized(run) && CP.Clean(exp, h, Parts(run), paths)
  {
    hide CP.SoundPart, CP.AsScheduled, Joined4, Parts, RunBuilt, MemberIn, CP.Expects;
    BuiltAsScheduled(exp, spec, run, h, paths);
    BuiltSoundParts(exp, spec, run);
  }

  /* ---- Nothing found in cohorts and envelopes ---- */

  lemma NoneFailed(exp: C.Expectation, paths: Paths, failures: A.Failures)
    requires Alone(exp.cell) && A.Diagnoses(failures, exp, paths)
    ensures failures == map[]
  {
    forall c: uint32 ensures c !in failures {
    }
  }

  /** Members of one cohort executed one after the other, each for the injected time. */
  lemma ExecutionsApart(exp: C.Expectation, spec: Spec, run: seq<Cohort>, h: RunHeader, paths: Paths, q: LogicalRequest,
                        r: LogicalRequest)
    requires Ready(exp, spec, run, h, paths) && q in paths && r in paths
    requires q.cohort == r.cohort && q.ordinal < r.ordinal
    ensures E.WindowOf(paths[q], q).end <= E.WindowOf(paths[r], r).start
  {
    hide Represents, CohortBuilt, RunBuilt, CP.Expects;
    var k := PathTells(exp, spec, run, h, paths, q);
    var l := PathTells(exp, spec, run, h, paths, r);
    assert k == l by { SameCohort(exp.cell, spec, run, k, l); }
    InTopology(exp.cell);
    hide Topology;
    TurnsApart(exp.cell, spec, run[k], q.ordinal, r.ordinal);
  }

  lemma SameCohort(cell: Cell, spec: Spec, run: seq<Cohort>, k: nat, l: nat)
    requires RunBuilt(cell, spec, run) && k < |run| && l < |run| && run[k].id == run[l].id
    ensures k == l
  {
    hide CohortBuilt;
  }

  lemma InTopology(cell: Cell)
    requires !cell.UnknownCell?
    ensures Topology(cell).Some?
    ensures COMPUTE_START in Topology(cell).value && COMPUTE_END in Topology(cell).value
    ensures CLIENT_SEND in Topology(cell).value && CLIENT_RECV in Topology(cell).value
    ensures cell != D0 ==> forall s: Stage :: s in Topology(cell).value
  {
  }

  lemma TurnsApart(cell: Cell, spec: Spec, c: Cohort, i: nat, j: nat)
    requires !cell.UnknownCell? && CohortBuilt(cell, spec, c) && i < j < |c.out|
    ensures COMPUTE_END in c.out[i] && COMPUTE_START in c.out[j] && c.out[i][COMPUTE_END] <= c.out[j][COMPUTE_START]
  {
    var spans := Chain(cell).value;
    ChainIsProper(cell);
    OneByOneSerialized(spec, spans, c.start, c.out);
    hide ProperChain, CohortOk, Serialized, Chain;
    forall o | 0 <= o < |c.out|
      ensures COMPUTE_START in c.out[o] && COMPUTE_END in c.out[o]
      ensures c.out[o][COMPUTE_END] == c.out[o][COMPUTE_START] + spec.Delay(SComp)
    {
      IndependentExecutes(spec, spans, c.start, 1, c.out, o);
    }
    SerializedInTurn(spec, c);
    InTurnApart(Windows(c.out, c.id), spec.Delay(SComp), i, j);
  }

  lemma SerializedInTurn(spec: Spec, c: Cohort)
    requires Serialized(spec, c.out) && |c.out| <= TWO_32
    requires forall o :: 0 <= o < |c.out| ==>
               && COMPUTE_START in c.out[o] && COMPUTE_END in c.out[o]
               && c.out[o][COMPUTE_END] == c.out[o][COMPUTE_START] + spec.Delay(SComp)
    ensures InTurn(Windows(c.out, c.id), spec.Delay(SComp))
  {
    var w := Windows(c.out, c.id);
    forall i | 0 <= i < |w| - 1 ensures w[i].end <= w[i + 1].start {
      assert After(spec, c.out[i], c.out[i + 1]);
    }
  }

  lemma ExecutesForward(exp: C.Expectation, spec: Spec, run: seq<Cohort>, h: RunHeader, paths: Paths, q: LogicalRequest)
    requires Ready(exp, spec, run, h, paths) && q in paths
    ensures E.WindowOf(paths[q], q).end == E.WindowOf(paths[q], q).start + spec.Delay(SComp)
  {
    hide Represents, RunBuilt, CP.Expects;
    var k := PathTells(exp, spec, run, h, paths, q);
    InTopology(exp.cell);
    ChainIsProper(exp.cell);
    hide Topology, Chain, ProperChain, CohortOk;
    IndependentExecutes(spec, Chain(exp.cell).value, run[k].start, 1, run[k].out, q.ordinal);
  }

  lemma ExecutionsClean(exp: C.Expectation, spec: Spec, run: seq<Cohort>, h: RunHeader, paths: Paths,
                        f: V.CohortFindings)
    requires Ready(exp, spec, run, h, paths) && V.ExecutionsJudged(exp, paths, f)
    ensures f.execution == []
  {
    assert !exp.cell.VectorizesCompute();
    hide Ready, E.Reported, E.WindowOf;
    forall q | q in paths ensures E.WindowOf(paths[q], q).end == E.WindowOf(paths[q], q).start + spec.Delay(SComp) {
      ExecutesForward(exp, spec, run, h, paths, q);
    }
    forall q, r | q in paths && r in paths && q != r && q.cohort == r.cohort
      ensures E.Disjoint(E.WindowOf(paths[q], q), E.WindowOf(paths[r], r))
    {
      if q.ordinal < r.ordinal { ExecutionsApart(exp, spec, run, h, paths, q, r); }
      if r.ordinal < q.ordinal { ExecutionsApart(exp, spec, run, h, paths, r, q); }
    }
    WindowsForward(paths, spec.Delay(SComp));
    var orders :| E.Reported(paths, E.Executing(paths), orders, f.layouts, f.execution);
    E.ReportMeans(paths, orders, f.layouts, f.execution);
  }

  lemma WindowsForward(paths: Paths, d: nat)
    requires forall q :: q in paths ==> E.WindowOf(paths[q], q).end == E.WindowOf(paths[q], q).start + d
    ensures E.ForwardPaths(paths) && E.ClearStarts(paths)
  {
    forall q | q in paths ensures paths[q].ts[COMPUTE_START] <= paths[q].ts[COMPUTE_END] {
      assert E.WindowOf(paths[q], q).end >= E.WindowOf(paths[q], q).start;
    }
  }

  /* ---- The adapter's wait ---- */

  /** What one path says of the adapter: the injected time to unpack, and to pack. */
  lemma AdapterDelays(exp: C.Expectation, spec: Spec, run: seq<Cohort>, h: RunHeader, paths: Paths, q: LogicalRequest)
    requires Ready(exp, spec, run, h, paths) && q in paths && UsesProxy(exp.cell)
    ensures forall s: Stage :: s in paths[q].presence
    ensures paths[q].ts[ADAPTER_DISPATCH] == paths[q].ts[ADAPTER_RECV] as int + spec.Delay(AdapterUnpack)
    ensures paths[q].ts[ADAPTER_SEND] == paths[q].ts[ADAPTER_RESULT] as int + spec.Delay(ResponsePack)
  {
    var k := PathTells(exp, spec, run, h, paths, q);
    InTopology(exp.cell);
    DelaysRecovered(exp, spec, run, h, paths, q);
    assert exp.cell in {F00, F00Seq};
    hide Ready, CohortBuilt, Topology, Recovers, RecoversExactly;
    SharedVisits(exp.cell);
    hide Chain;
    OwnSpans(spec, paths[q]);
  }

  /** The two spans the adapter spends on its own, of a path that returns what was injected. */
  lemma OwnSpans(spec: Spec, j: Joined)
    requires Recovers(spec, SharedChain(false), TimesOf(j)) && forall s: Stage :: s in j.presence
    ensures j.ts[ADAPTER_DISPATCH] == j.ts[ADAPTER_RECV] as int + spec.Delay(AdapterUnpack)
    ensures j.ts[ADAPTER_SEND] == j.ts[ADAPTER_RESULT] as int + spec.Delay(ResponsePack)
  {
    hide SharedChain, PreCycle;
    R.UnnamedSpans(false, 5);
    R.UnnamedSpans(false, 10);
    assert Measured(SharedChain(false)[5], TimesOf(j)) && Measured(SharedChain(false)[10], TimesOf(j));
  }

  /** Whether the injected unpacking keeps to the bound on the adapter's wait, if the run sets one. */
  predicate WaitPasses(exp: C.Expectation, spec: Spec) {
    exp.maxAdapterDispatchWait <= 0 || spec.Delay(AdapterUnpack) <= exp.maxAdapterDispatchWait
  }

  lemma WaitNamed(exp: C.Expectation, spec: Spec, run: seq<Cohort>, h: RunHeader, paths: Paths,
                  dispatches: map<uint32, F.CohortDispatch>, q: LogicalRequest)
    requires Ready(exp, spec, run, h, paths) && UsesProxy(exp.cell) && q in paths
    ensures F.AdapterDefect(exp, paths, dispatches, C.WaitExceeds(q)) <==> !WaitPasses(exp, spec)
  {
    hide Ready, F.AdapterDefect;
    AdapterDelays(exp, spec, run, h, paths, q);
    O.WaitNamedExactly(exp, paths, dispatches, q);
  }

  lemma NeverTogether(exp: C.Expectation, spec: Spec, run: seq<Cohort>, h: RunHeader, paths: Paths,
                      dispatches: map<uint32, F.CohortDispatch>, c: uint32)
    requires Ready(exp, spec, run, h, paths) && UsesProxy(exp.cell) && O.Reports(paths, dispatches)
    ensures !F.AdapterDefect(exp, paths, dispatches, C.LeftTogether(c))
  {
    hide Ready, F.AdapterDefect, O.Reports;
    forall q | O.WentThrough(paths, c, q)
      ensures paths[q].ts[ADAPTER_DISPATCH] == paths[q].ts[ADAPTER_RECV] as int + spec.Delay(AdapterUnpack)
    {
      AdapterDelays(exp, spec, run, h, paths, q);
    }
    O.SameDelayIsNotNamed(exp, paths, dispatches, c, spec.Delay(AdapterUnpack));
  }

  lemma AdapterOf(exp: C.Expectation, spec: Spec, run: seq<Cohort>, h: RunHeader, paths: Paths, f: V.CohortFindings)
    requires Ready(exp, spec, run, h, paths) && V.AdapterJudged(exp, paths, f)
    ensures f.adapter == [] <==> exp.cell == D0 || paths == map[] || WaitPasses(exp, spec)
  {
    if exp.cell != D0 {
      ProxyCell(exp, spec, run, h, paths);
      AdapterFindings(exp, paths, f);
      hide Ready, F.AdapterDefect, V.AdapterJudged, O.Reports, WaitPasses, UsesProxy;
      forall q | q in paths
        ensures F.AdapterDefect(exp, paths, f.dispatches, C.WaitExceeds(q)) <==> !WaitPasses(exp, spec)
      {
        WaitNamed(exp, spec, run, h, paths, f.dispatches, q);
      }
      if f.adapter != [] {
        var d := f.adapter[0];
        assert d in f.adapter;
        OnlyWaits(exp, paths, f.dispatches, d);
        if d.LeftTogether? { NeverTogether(exp, spec, run, h, paths, f.dispatches, d.cohort); }
      }
      if paths != map[] && !WaitPasses(exp, spec) {
        var q :| q in paths;
        assert C.WaitExceeds(q) in f.adapter;
      }
    }
  }

  lemma AdapterFindings(exp: C.Expectation, paths: Paths, f: V.CohortFindings)
    requires exp.cell in {F00, F00Seq} && V.AdapterJudged(exp, paths, f)
    ensures O.Reports(paths, f.dispatches)
    ensures forall d :: d in f.adapter <==> F.AdapterDefect(exp, paths, f.dispatches, d)
  {
    hide F.AdapterDefect, F.DispatchOf;
  }

  lemma OnlyWaits(exp: C.Expectation, paths: Paths, dispatches: map<uint32, F.CohortDispatch>, d: C.Defect)
    requires F.AdapterDefect(exp, paths, dispatches, d)
    ensures (d.WaitExceeds? && d.q in paths) || d.LeftTogether?
  {
    hide F.Collapsed, F.WaitsTooLong;
  }

  /* ---- The unnamed time ---- */

  /** The adapter's own time exceeds the tolerated share of this request's path. */
  predicate TooLong(exp: C.Expectation, spec: Spec, path: int) {
    path > 0 && (spec.Delay(AdapterUnpack) + spec.Delay(ResponsePack)) * exp.toleranceDen > exp.toleranceNum * path
  }

  /** From send to completion, as built. */
  function PathOfBuilt(ts: Times): int {
    if CLIENT_SEND in ts && CLIENT_RECV in ts then ts[CLIENT_RECV] - ts[CLIENT_SEND] else 0
  }

  ghost predicate SomeTooLong(exp: C.Expectation, spec: Spec, run: seq<Cohort>) {
    exists k, o :: 0 <= k < |run| && 0 <= o < |run[k].out| && TooLong(exp, spec, PathOfBuilt(run[k].out[o]))
  }

  lemma ResidualNamed(exp: C.Expectation, spec: Spec, run: seq<Cohort>, h: RunHeader, paths: Paths, q: LogicalRequest,
                      accounts: map<uint32, CohortAccount>)
    returns (k: nat)
    requires Ready(exp, spec, run, h, paths) && q in paths && UsesProxy(exp.cell)
    ensures k < |run| && q.cohort == run[k].id && q.ordinal < |run[k].out|
    ensures ConservationDefect(exp, Chain(exp.cell).value, paths, accounts, C.Residual(q)) <==>
            TooLong(exp, spec, PathOfBuilt(run[k].out[q.ordinal]))
  {
    hide *;
    k := PathIsAsBuilt(exp, spec, run, h, paths, q);
    ProxyCell(exp, spec, run, h, paths);
    AdapterDelays(exp, spec, run, h, paths, q);
    NamedByOwnTime(exp, spec, paths, q, accounts);
  }

  lemma PathIsAsBuilt(exp: C.Expectation, spec: Spec, run: seq<Cohort>, h: RunHeader, paths: Paths, q: LogicalRequest)
    returns (k: nat)
    requires Ready(exp, spec, run, h, paths) && q in paths && UsesProxy(exp.cell)
    ensures k < |run| && q.cohort == run[k].id && q.ordinal < |run[k].out|
    ensures PathOfBuilt(run[k].out[q.ordinal]) == paths[q].ts[CLIENT_RECV] as int - paths[q].ts[CLIENT_SEND]
  {
    k := PathTells(exp, spec, run, h, paths, q);
    InTopology(exp.cell);
    hide Ready, CohortBuilt, Topology;
    assert CLIENT_SEND in paths[q].presence && CLIENT_RECV in paths[q].presence;
  }

  lemma NamedByOwnTime(exp: C.Expectation, spec: Spec, paths: Paths, q: LogicalRequest,
                       accounts: map<uint32, CohortAccount>)
    requires exp.cell in {F00, F00Seq} && q in paths && forall s: Stage :: s in paths[q].presence
    requires paths[q].ts[ADAPTER_DISPATCH] == paths[q].ts[ADAPTER_RECV] as int + spec.Delay(AdapterUnpack)
    requires paths[q].ts[ADAPTER_SEND] == paths[q].ts[ADAPTER_RESULT] as int + spec.Delay(ResponsePack)
    ensures ConservationDefect(exp, Chain(exp.cell).value, paths, accounts, C.Residual(q)) <==>
            TooLong(exp, spec, paths[q].ts[CLIENT_RECV] as int - paths[q].ts[CLIENT_SEND])
  {
    hide ConservationDefect, Chain;
    R.IndependentNamedExactly(exp, paths, accounts, q);
  }

  lemma ConservationOf(exp: C.Expectation, spec: Spec, run: seq<Cohort>, h: RunHeader, paths: Paths,
                       f: V.CohortFindings)
    requires Ready(exp, spec, run, h, paths) && V.ConservationJudged(exp, paths, f)
    ensures f.conservation == [] <==> exp.cell == D0 || !SomeTooLong(exp, spec, run)
  {
    hide Ready, V.ConservationJudged, TooLong, ConservationDefect, PathOfBuilt;
    NamedAre(exp, spec, run, h, paths, f);
    HeadIn(f.conservation);
    if exp.cell == D0 {
      forall d ensures d !in f.conservation {
        R.DirectNeverNamed(exp, paths, f.accounts, d);
      }
    } else {
      ProxyCell(exp, spec, run, h, paths);
      if f.conservation != [] {
        var d := f.conservation[0];
        OnlyResiduals(exp, paths, f.accounts, d);
        var k := ResidualNamed(exp, spec, run, h, paths, d.q, f.accounts);
      }
      if SomeTooLong(exp, spec, run) {
        var k, o :| 0 <= k < |run| && 0 <= o < |run[k].out| && TooLong(exp, spec, PathOfBuilt(run[k].out[o]));
        var q := BuiltRequest(exp, spec, run, h, paths, k, o);
        var l := ResidualNamed(exp, spec, run, h, paths, q, f.accounts);
        assert k == l by { ReadyParts(exp, spec, run, h, paths); SameCohort(exp.cell, spec, run, k, l); }
        assert C.Residual(q) in f.conservation;
      }
    }
  }

  lemma ReadyParts(exp: C.Expectation, spec: Spec, run: seq<Cohort>, h: RunHeader, paths: Paths)
    requires Ready(exp, spec, run, h, paths)
    ensures RunBuilt(exp.cell, spec, run) && Represents(exp.cell, paths, run, h) && Alone(exp.cell)
  {
  }

  lemma ProxyCell(exp: C.Expectation, spec: Spec, run: seq<Cohort>, h: RunHeader, paths: Paths)
    requires Ready(exp, spec, run, h, paths) && (exp.cell != D0 || UsesProxy(exp.cell))
    ensures exp.cell != D0 && UsesProxy(exp.cell) && exp.cell in {F00, F00Seq}
  {
  }

  lemma NamedAre(exp: C.Expectation, spec: Spec, run: seq<Cohort>, h: RunHeader, paths: Paths, f: V.CohortFindings)
    requires Ready(exp, spec, run, h, paths) && V.ConservationJudged(exp, paths, f)
    ensures Chain(exp.cell).Some?
    ensures forall d :: d in f.conservation <==> ConservationDefect(exp, Chain(exp.cell).value, paths, f.accounts, d)
  {
    hide RunBuilt, Represents, AccountOf, InFlight, ConservationDefect;
  }

  lemma OnlyResiduals(exp: C.Expectation, paths: Paths, accounts: map<uint32, CohortAccount>, d: C.Defect)
    requires exp.cell in {F00, F00Seq} && ConservationDefect(exp, Chain(exp.cell).value, paths, accounts, d)
    ensures d.Residual? && d.q in paths
  {
    hide RequestExceeds, Exceeds;
  }

  lemma BuiltRequest(exp: C.Expectation, spec: Spec, run: seq<Cohort>, h: RunHeader, paths: Paths, k: nat, o: nat)
    returns (q: LogicalRequest)
    requires Ready(exp, spec, run, h, paths) && k < |run| && o < |run[k].out|
    ensures q in paths && q.cohort == run[k].id && q.ordinal == o
  {
    hide Represents, RunBuilt, Topology;
    PathOfMember(exp.cell, paths, run, h, k, o);
    CohortOf(exp.cell, spec, run, k);
    q := LogicalRequest(run[k].id, o);
  }

  /* ---- Releases of one ---- */

  /** Every envelope is one request's own. */
  lemma OwnEnvelope(exp: C.Expectation, spec: Spec, run: seq<Cohort>, h: RunHeader, paths: Paths, q: LogicalRequest,
                    r: LogicalRequest)
    requires Ready(exp, spec, run, h, paths) && UsesProxy(exp.cell) && q in paths && r in paths
    requires paths[q].envelopeID == paths[r].envelopeID
    ensures q == r && paths[q].envelopeID != 0
  {
    hide CohortBuilt, Represents, Topology;
    var k := PathTells(exp, spec, run, h, paths, q);
    var l := PathTells(exp, spec, run, h, paths, r);
    CohortOf(exp.cell, spec, run, k);
  }

  lemma ReleaseOfOne(exp: C.Expectation, spec: Spec, run: seq<Cohort>, h: RunHeader, paths: Paths, id: uint64,
                     r: F.Release)
    requires Ready(exp, spec, run, h, paths) && UsesProxy(exp.cell) && F.ReleaseOf(r, paths, id)
    requires exists q :: q in paths && paths[q].envelopeID == id
    ensures |r.order| == 1 && r.evidence.Some? && r.evidence.value.dispatched == 1 && r.evidence.value.skewNanos == 0
    ensures r.observedSkew == 0
  {
    hide Ready, F.Observed, F.SpreadOf, F.Submissions, F.Chained;
    var q :| q in paths && paths[q].envelopeID == id;
    forall p | p in r.order ensures p == q {
      OwnEnvelope(exp, spec, run, h, paths, p, q);
    }
    assert q in r.order;
    OneListed(r.order, q);
    var members := Members(r.order, paths);
    assert members == [paths[q]];
    AdapterDelays(exp, spec, run, h, paths, q);
    OneMember(paths[q]);
    var k := PathTells(exp, spec, run, h, paths, q);
  }

  lemma OneListed(order: seq<LogicalRequest>, q: LogicalRequest)
    requires A.Ascending(order) && q in order && forall p :: p in order ==> p == q
    ensures order == [q]
  {
    A.AscendingIsUnique(order, [q]);
  }

  lemma OneMember(j: Joined)
    requires ADAPTER_DISPATCH in j.presence
    ensures F.SpreadOf(F.Observed([j], ADAPTER_DISPATCH)) == 0
    ensures F.FirstEvidence([j])
         == if EMITTER_ADAPTER in j.dispatchBySource then Some(j.dispatchBySource[EMITTER_ADAPTER])
                                    else None
  {
    assert [j][..0] == [] && [j][1..] == [];
    assert F.Observed([j], ADAPTER_DISPATCH) == [j.ts[ADAPTER_DISPATCH] as int];
  }

  lemma NoForeign(exp: C.Expectation, spec: Spec, run: seq<Cohort>, h: RunHeader, paths: Paths, d: C.Defect)
    requires Ready(exp, spec, run, h, paths)
    ensures !F.ForeignAt(paths, d)
  {
    hide Ready;
    if d.ForeignDispatch? && d.q in paths {
      var k := PathTells(exp, spec, run, h, paths, d.q);
    }
  }

  lemma OneIsFaultless(exp: C.Expectation, id: uint64, r: F.Release, d: C.Defect)
    requires |r.order| == 1 && r.evidence.Some? && r.evidence.value.dispatched == 1 && r.evidence.value.skewNanos == 0
    requires r.observedSkew == 0
    ensures !F.ReleaseDefect(exp, id, r, d)
  {
  }

  lemma FanOutClean(exp: C.Expectation, spec: Spec, run: seq<Cohort>, h: RunHeader, paths: Paths, f: V.CohortFindings)
    requires Ready(exp, spec, run, h, paths) && V.FanOutJudged(exp, paths, f)
    ensures f.fanOut == []
  {
    HeadIn(f.fanOut);
    if exp.cell != D0 {
      ProxyCell(exp, spec, run, h, paths);
      assert !exp.cell.AggregatesEnvelopes() && !exp.cell.UnknownCell?;
      hide Ready, F.ReleaseOf, F.ReleaseDefect, F.ForeignAt, UsesProxy;
      forall d ensures !F.FanOutDefect(exp, paths, f.releases, d) {
        NoForeign(exp, spec, run, h, paths, d);
        forall id | id in f.releases ensures !F.ReleaseDefect(exp, id, f.releases[id], d) {
          ReleaseOfOne(exp, spec, run, h, paths, id, f.releases[id]);
          OneIsFaultless(exp, id, f.releases[id], d);
        }
      }
    }
  }

  /* ---- The verdict ---- */

  lemma JudgedParts(exp: C.Expectation, paths: Paths, v: V.Verdict)
    requires Alone(exp.cell) && V.Judges(exp, paths, v)
    ensures V.PathsJudged(exp, paths, paths, v.paths) && V.ExecutionsJudged(exp, paths, v.cohorts)
    ensures V.ConservationJudged(exp, paths, v.cohorts) && V.FanOutJudged(exp, paths, v.cohorts)
    ensures V.AdapterJudged(exp, paths, v.cohorts)
    ensures v.cohorts.aggregation == v.cohorts.formation == []
    ensures v.passed <==> v.paths.None() && v.cohorts.None()
  {
    NoneFailed(exp, paths, v.failures);
    hide A.Diagnoses, V.ConservationJudged, V.FanOutJudged, V.ExecutionsJudged, V.PathsJudged, V.AdapterJudged;
    assert v.failures.Keys == {} && A.Without(paths, {}) == paths;
    HeadIn(v.cohorts.formation);
    HeadIn(v.cohorts.aggregation);
  }

  /**
   The verdict on a run built for a cell without sharing, from its split records. At D0 it passes,
   whatever the delays. At F00 and its sequential control it passes if and only if, unless the run
   is empty, the adapter's unpacking keeps to the bound on its wait and its unpacking and packing
   are within tolerance of every request's path.
   */
  lemma BuiltVerdictExact(exp: C.Expectation, spec: Spec, run: seq<Cohort>, h: RunHeader, v: V.Verdict)
    requires RunBuilt(exp.cell, spec, run) && FitsRun(run) && ExpectsRun(exp, spec, run, h)
    requires V.Judges(exp, JoinOf(Evidence(exp.cell, h, Parts(run))), v)
    ensures v.passed <==> exp.cell == D0 || ((run == [] || WaitPasses(exp, spec)) && !SomeTooLong(exp, spec, run))
  {
    var paths := JoinOf(Evidence(exp.cell, h, Parts(run)));
    Represented(exp.cell, spec, run, h);
    assert Ready(exp, spec, run, h, paths) && Alone(exp.cell);
    hide RunBuilt, ExpectsRun, Represents, JoinOf, Evidence, Parts, WaitPasses, SomeTooLong, Ready;
    JudgedParts(exp, paths, v);
    hide V.Judges;
    BuiltClean(exp, spec, run, h, paths);
    CP.PathsClean(exp, h, Parts(run), paths, v.paths);
    hide CP.Clean;
    AdapterOf(exp, spec, run, h, paths, v.cohorts);
    ConservationOf(exp, spec, run, h, paths, v.cohorts);
    ExecutionsClean(exp, spec, run, h, paths, v.cohorts);
    FanOutClean(exp, spec, run, h, paths, v.cohorts);
    SomePath(exp, spec, run, h, paths);
  }

  lemma SomePath(exp: C.Expectation, spec: Spec, run: seq<Cohort>, h: RunHeader, paths: Paths)
    requires Ready(exp, spec, run, h, paths)
    ensures paths == map[] <==> run == []
  {
    hide Ready;
    ReadyParts(exp, spec, run, h, paths);
    hide Represents, RunBuilt;
    if run != [] {
      CohortOf(exp.cell, spec, run, 0);
      var q := BuiltRequest(exp, spec, run, h, paths, 0, 0);
    } else {
      forall q ensures q !in paths {
        if q in paths {
          var k := MemberOf(exp.cell, paths, run, h, q);
        }
      }
    }
  }
}
