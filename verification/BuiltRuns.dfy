/**
 A run built for F10 (internal/testkit/fixtures.go, Build): its cohorts follow one another, and
 its records join back to the requests they were built from.
 */
module BuiltRuns {
  import opened Identity
  import opened Schema
  import opened Chains
  import opened Joins
  import opened Conservation
  import opened Fixtures
  import opened Bundles

  /** One cohort of a built run: its instants and what its records share. */
  datatype Cohort = Cohort(id: uint32, start: int, env: EnvelopeTimes, out: seq<Times>, envelope: uint64,
                           dispatch: Dispatch)

  /** The fan-out's own skew: each submission follows the one before it by the stagger. */
  function SkewOf(spec: Spec, size: nat): int {
    if size == 0 then 0 else (size - 1) * spec.dispatchStagger
  }

  /** The cohort's records carry the construction's instants, and the adapter's evidence the fan-out's own. */
  ghost predicate CohortBuilt(spec: Spec, c: Cohort) {
    && AggregateOk(spec, c.start, true, c.env, c.out) && 0 < |c.out| <= MAX_ORDINAL + 1
    && c.dispatch.dispatched == |c.out| && c.dispatch.skewNanos == SkewOf(spec, |c.out|)
    && c.envelope != 0
  }

  /** Cohorts are built one after another, each with its own id and its own envelope. */
  ghost predicate RunBuilt(spec: Spec, run: seq<Cohort>) {
    && (forall k :: 0 <= k < |run| ==> CohortBuilt(spec, run[k]))
    && (forall j, k :: 0 <= j < k < |run| ==> run[j].id != run[k].id && run[j].envelope != run[k].envelope)
  }

  lemma Staggered(stagger: nat, o: nat, last: nat)
    requires o <= last
    ensures 0 <= o * stagger <= last * stagger
  {
    assert (last - o) * stagger >= 0;
    assert last * stagger == o * stagger + (last - o) * stagger;
  }

  /** The instants of the submissions. */
  lemma Submitted(spec: Spec, start: int, env: EnvelopeTimes, out: seq<Times>, o: nat)
    requires AggregateOk(spec, start, true, env, out) && o < |out|
    ensures ADAPTER_DISPATCH in out[o] && ADAPTER_DISPATCH in out[0] && ADAPTER_DISPATCH in out[|out| - 1]
    ensures out[o][ADAPTER_DISPATCH] == out[0][ADAPTER_DISPATCH] + o * spec.dispatchStagger
    ensures out[0][ADAPTER_DISPATCH] <= out[o][ADAPTER_DISPATCH] <= out[|out| - 1][ADAPTER_DISPATCH]
    ensures start >= 0 ==> out[0][ADAPTER_DISPATCH] >= 0
  {
    hide Serialized;
    MemberTimes(spec, start, true, env, out, o);
    MemberTimes(spec, start, true, env, out, |out| - 1);
    hide AggregateOk;
    Staggered(spec.dispatchStagger, o, |out| - 1);
    assert env.adapterRecv + spec.Delay(AdapterUnpack) == out[0][ADAPTER_DISPATCH];
    AfterArrival(spec, start, env, out);
  }

  lemma AfterArrival(spec: Spec, start: int, env: EnvelopeTimes, out: seq<Times>)
    requires AggregateOk(spec, start, true, env, out) && out != []
    ensures env.adapterRecv >= start
  {
    assert ArrivedAt(spec, start, 0, out[0]);
  }

  /** One turn of Build's cohort loop, at V=off. */
  method BuildCohort(spec: Spec, id: uint32, start: int, envelope: uint64, cpu: int64) returns (c: Cohort)
    requires 0 < spec.cohortSize <= MAX_ORDINAL + 1
    requires SkewOf(spec, spec.cohortSize) < TWO_63 && start >= 0 && envelope != 0
    ensures CohortBuilt(spec, c) && c.id == id && c.start == start && c.envelope == envelope
  {
    var env, out := AggregateCohort(spec, start, true);
    assert |out| == spec.cohortSize;
    forall o | 0 <= o < |out|
      ensures ADAPTER_DISPATCH in out[o]
      ensures 0 <= out[0][ADAPTER_DISPATCH] <= out[o][ADAPTER_DISPATCH] <= out[|out| - 1][ADAPTER_DISPATCH]
    {
      Submitted(spec, start, env, out, o);
    }
    assert SomeNotNegative(out, ADAPTER_DISPATCH) && SomeRecorded(out, ADAPTER_DISPATCH);
    hide AggregateOk;
    var last := LastOf(out, ADAPTER_DISPATCH);
    var first := FirstOf(out, ADAPTER_DISPATCH);
    assert last == out[|out| - 1][ADAPTER_DISPATCH] && first == out[0][ADAPTER_DISPATCH];
    Submitted(spec, start, env, out, |out| - 1);
    c := Cohort(id, start, env, out, envelope, Dispatch(|out|, last - first, cpu, 1));
  }

  lemma NextIdDiffers(first: uint32, j: nat, k: nat)
    requires j < k < TWO_32
    ensures (first + j) % TWO_32 != (first + k) % TWO_32
  {
  }

  /** Build's cohort loop: ids and envelopes count up. */
  method Build(spec: Spec, first: uint32, count: nat, base: int, gap: nat, cpu: int64) returns (run: seq<Cohort>)
    requires 0 < spec.cohortSize <= MAX_ORDINAL + 1 && SkewOf(spec, spec.cohortSize) < TWO_63
    requires count <= TWO_32 && base >= 0
    ensures |run| == count && RunBuilt(spec, run)
    ensures forall k :: 0 <= k < |run| ==>
              run[k].id == (first + k) % TWO_32 && run[k].envelope == k + 1 && run[k].start == base + k * gap
  {
    hide CohortBuilt;
    run := [];
    for c := 0 to count
      invariant |run| == c && RunBuilt(spec, run)
      invariant forall k :: 0 <= k < c ==>
        run[k].id == (first + k) % TWO_32 && run[k].envelope == k + 1 && run[k].start == base + k * gap
    {
      assert c * gap >= 0;
      var cohort := BuildCohort(spec, (first + c) % TWO_32, base + c * gap, c + 1, cpu);
      forall k | 0 <= k < c ensures run[k].id != cohort.id {
        NextIdDiffers(first, k, c);
      }
      run := run + [cohort];
    }
  }

  /* ---- The parts of a run ---- */

  function PartOf(c: Cohort, o: nat): Part
    requires o < |c.out| <= TWO_32
  {
    var q := LogicalRequest(c.id, o);
    Part(q, c.out[o], c.envelope, c.dispatch, [Uid(q)], 1)
  }

  function PartsOf(c: Cohort): (parts: seq<Part>)
    requires |c.out| <= TWO_32
    ensures |parts| == |c.out|
  {
    seq(|c.out|, o requires 0 <= o < |c.out| => PartOf(c, o))
  }

  ghost predicate Sized(run: seq<Cohort>) {
    forall c :: c in run ==> |c.out| <= TWO_32
  }

  function Blocks(run: seq<Cohort>): (blocks: seq<seq<Part>>)
    requires forall c :: c in run ==> |c.out| <= TWO_32
    ensures |blocks| == |run| && forall k :: 0 <= k < |run| ==> blocks[k] == PartsOf(run[k])
  {
    seq(|run|, k requires 0 <= k < |run| => PartsOf(run[k]))
  }

  function Parts(run: seq<Cohort>): seq<Part>
    requires forall c :: c in run ==> |c.out| <= TWO_32
  {
    Concat(Blocks(run))
  }

  lemma InParts(run: seq<Cohort>, p: Part)
    requires Sized(run)
    ensures p in Parts(run) <==> exists k, o :: 0 <= k < |run| && 0 <= o < |run[k].out| && p == PartOf(run[k], o)
  {
    hide PartOf, Concat;
    InConcat(Blocks(run), p);
    if p in Parts(run) {
      var k :| 0 <= k < |run| && p in Blocks(run)[k];
      var o :| 0 <= o < |run[k].out| && PartsOf(run[k])[o] == p;
      assert p == PartOf(run[k], o);
    }
    if exists k, o :: 0 <= k < |run| && 0 <= o < |run[k].out| && p == PartOf(run[k], o) {
      var k, o :| 0 <= k < |run| && 0 <= o < |run[k].out| && p == PartOf(run[k], o);
      assert PartsOf(run[k])[o] == p && PartsOf(run[k])[o] in Blocks(run)[k];
    }
  }

  lemma PartsDistinct(run: seq<Cohort>)
    requires Sized(run) && forall j, k :: 0 <= j < k < |run| ==> run[j].id != run[k].id
    ensures DistinctParts(Parts(run))
  {
    hide Concat;
    var ids := seq(|run|, k requires 0 <= k < |run| => run[k].id);
    ConcatDistinct(Blocks(run), ids);
  }

  /* ---- The join of a built run ---- */

  ghost predicate FitsRun(run: seq<Cohort>) {
    Sized(run) && forall p :: p in Parts(run) ==> p.Fits()
  }

  /** The paths are the members' own, each put together from its four records. */
  ghost predicate Represents(paths: Paths, run: seq<Cohort>, h: RunHeader) {
    && Sized(run)
    && (forall q :: q in paths ==> exists k :: 0 <= k < |run| && q.cohort == run[k].id && q.ordinal < |run[k].out|)
    && (forall k, o :: 0 <= k < |run| && 0 <= o < |run[k].out| ==> MemberIn(paths, run[k], o, h))
  }

  ghost predicate MemberIn(paths: Paths, c: Cohort, o: nat, h: RunHeader)
    requires o < |c.out| <= TWO_32
  {
    PartOf(c, o).q in paths && PutTogether(F10, h, PartOf(c, o), 4, paths[PartOf(c, o).q])
  }

  lemma PartIsWhole(spec: Spec, c: Cohort, o: nat)
    requires CohortBuilt(spec, c) && o < |c.out|
    ensures WholePart(F10, PartOf(c, o))
  {
    hide Uid;
    MemberTimes(spec, c.start, true, c.env, c.out, o);
  }

  lemma Represented(spec: Spec, run: seq<Cohort>, h: RunHeader)
    requires RunBuilt(spec, run) && FitsRun(run)
    ensures Represents(JoinOf(Evidence(F10, h, Parts(run))), run, h)
    ensures Joined4(F10, h, Parts(run), JoinOf(Evidence(F10, h, Parts(run))))
  {
    hide CohortBuilt, WholePart, PutTogether, PartOf, Parts, Evidence, JoinOf, DistinctParts;
    var parts := Parts(run);
    var paths := JoinOf(Evidence(F10, h, parts));
    PartsDistinct(run);
    forall p | p in parts ensures p.Fits() && WholePart(F10, p) {
      InParts(run, p);
      var k, o :| 0 <= k < |run| && 0 <= o < |run[k].out| && p == PartOf(run[k], o);
      PartIsWhole(spec, run[k], o);
    }
    JoinedBack(F10, h, parts);
    forall q | q in paths ensures exists k :: 0 <= k < |run| && q.cohort == run[k].id && q.ordinal < |run[k].out| {
      var i :| 0 <= i < |parts| && parts[i].q == q;
      InParts(run, parts[i]);
      var k, o :| 0 <= k < |run| && 0 <= o < |run[k].out| && parts[i] == PartOf(run[k], o);
      PartIs(run[k], o);
    }
    forall k, o | 0 <= k < |run| && 0 <= o < |run[k].out| ensures MemberIn(paths, run[k], o, h) {
      InParts(run, PartOf(run[k], o));
      var i :| 0 <= i < |parts| && parts[i] == PartOf(run[k], o);
    }
  }

  lemma PartIs(c: Cohort, o: nat)
    requires o < |c.out| <= TWO_32
    ensures PartOf(c, o).q == LogicalRequest(c.id, o) && PartOf(c, o).at == c.out[o]
  {
  }

  /** The path of member o of cohort k, in the terms of its construction. */
  lemma PathOfMember(paths: Paths, run: seq<Cohort>, h: RunHeader, k: nat, o: nat)
    requires Represents(paths, run, h) && k < |run| && o < |run[k].out|
    ensures var (q, c) := (LogicalRequest(run[k].id, o), run[k]);
            && q in paths && paths[q].request == q && (forall s: Stage :: s in paths[q].presence && s in c.out[o])
            && (forall s: Stage :: paths[q].ts[s] == c.out[o][s])
            && paths[q].envelopeID == c.envelope && paths[q].dispatchBySource == map[EMITTER_ADAPTER := c.dispatch]
            && paths[q].status == STATUS_OK && paths[q].schemaVersions == {SCHEMA_VERSION}
            && (forall e :: e in paths[q].emitters ==> paths[q].emitters[e] == 1)
  {
    EveryStage();
    hide OwnedStages, OwnedUpTo, Topology, Uid;
    assert MemberIn(paths, run[k], o, h);
  }

  lemma EveryStage()
    ensures forall s: Stage :: s in OwnedUpTo(F10, 4)
  {
    hide OwnedStages, OwnedUpTo;
    OwnedAll(F10);
  }
}
