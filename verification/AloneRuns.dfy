/**
 A run built for a cell in which every request travels alone and executes alone, the direct path
 and the A=off path at V=off (internal/testkit/fixtures.go, Build): its cohorts follow one
 another, every member has an envelope of its own, and its records join back to the requests
 they were built from.
 */
module AloneRuns {
  import opened Identity
  import opened Schema
  import opened Chains
  import opened Joins
  import opened Conservation
  import opened Fixtures
  import opened Bundles

  /** One cohort of a built run: its members' instants, the envelope of the first, and the adapter's CPU time. */
  datatype Cohort = Cohort(id: uint32, start: int, out: seq<Times>, first: nat, cpu: int64)

  /** The cells in which nothing is shared: D0, F00 and its sequential control. */
  predicate Alone(cell: Cell) {
    cell in {D0, F00, F00Seq}
  }

  /** The members' instants are the construction's, and each has an envelope number. */
  ghost predicate CohortBuilt(cell: Cell, spec: Spec, c: Cohort) {
    && Chain(cell).Some? && ProperChain(Chain(cell).value)
    && CohortOk(spec, Chain(cell).value, c.start, 1, c.out)
    && |c.out| == spec.cohortSize && 0 < |c.out| <= MAX_ORDINAL + 1 && 0 < c.first && c.first + |c.out| <= TWO_64
  }

  /** Cohorts are built one after another, under their own ids, the envelopes numbered on. */
  ghost predicate RunBuilt(cell: Cell, spec: Spec, run: seq<Cohort>) {
    && (forall k :: 0 <= k < |run| ==> CohortBuilt(cell, spec, run[k]))
    && (forall j, k :: 0 <= j < k < |run| ==> run[j].id != run[k].id && run[j].first + |run[j].out| <= run[k].first)
  }

  lemma NextIdDiffers(first: uint32, j: nat, k: nat)
    requires j < k < TWO_32
    ensures (first + j) % TWO_32 != (first + k) % TWO_32
  {
  }

  lemma EnvelopesLeft(c: nat, count: nat, size: nat)
    requires c < count && count * size < TWO_64
    ensures c * size + size < TWO_64 && c * size >= 0
  {
    assert (c + 1) * size <= count * size by { assert (count - c - 1) * size >= 0; }
    assert (c + 1) * size == c * size + size;
  }

  /** Build's cohort loop at A=off and V=off. */
  method Build(cell: Cell, spec: Spec, firstId: uint32, count: nat, base: int, gap: nat, cpu: int64)
    returns (run: seq<Cohort>)
    requires Alone(cell) && 0 < spec.cohortSize <= MAX_ORDINAL + 1
    requires count <= TWO_32 && count * spec.cohortSize < TWO_64
    ensures |run| == count && RunBuilt(cell, spec, run)
    ensures forall k :: 0 <= k < |run| ==>
              && run[k].id == (firstId + k) % TWO_32 && run[k].first == k * spec.cohortSize + 1
              && run[k].start == base + k * gap
  {
    ChainIsProper(cell);
    hide CohortBuilt, ProperChain, Chain, CohortOk;
    run := [];
    var next := 1;
    for c := 0 to count
      invariant |run| == c && RunBuilt(cell, spec, run) && next == c * spec.cohortSize + 1
      invariant forall k :: 0 <= k < c ==> run[k].first + |run[k].out| <= next
      invariant forall k :: 0 <= k < c ==>
        && run[k].id == (firstId + k) % TWO_32 && run[k].first == k * spec.cohortSize + 1
        && run[k].start == base + k * gap
    {
      EnvelopesLeft(c, count, spec.cohortSize);
      var cohort := BuildCohort(cell, spec, (firstId + c) % TWO_32, base + c * gap, next, cpu);
      forall k | 0 <= k < c ensures run[k].id != cohort.id {
        NextIdDiffers(firstId, k, c);
      }
      assert (c + 1) * spec.cohortSize == c * spec.cohortSize + spec.cohortSize;
      run := run + [cohort];
      next := next + spec.cohortSize;
    }
  }

  /** One turn of the loop. */
  method BuildCohort(cell: Cell, spec: Spec, id: uint32, start: int, first: nat, cpu: int64) returns (c: Cohort)
    requires Chain(cell).Some? && ProperChain(Chain(cell).value) && 0 < spec.cohortSize <= MAX_ORDINAL + 1
    requires 0 < first && first + spec.cohortSize <= TWO_64
    ensures CohortBuilt(cell, spec, c) && c.id == id && c.start == start && c.first == first && c.cpu == cpu
    ensures |c.out| == spec.cohortSize
  {
    hide ProperChain, Chain, CohortOk;
    var out := IndependentCohort(spec, Chain(cell).value, start, 1);
    c := Cohort(id, start, out, first, cpu);
  }

  /* ---- The parts of a run ---- */

  ghost predicate Sized(run: seq<Cohort>) {
    forall c :: c in run ==> |c.out| <= TWO_32 && c.first + |c.out| <= TWO_64
  }

  function PartOf(c: Cohort, o: nat): Part
    requires o < |c.out| <= TWO_32 && c.first + |c.out| <= TWO_64
  {
    var q := LogicalRequest(c.id, o);
    Part(q, c.out[o], c.first + o, Dispatch(1, 0, c.cpu, 1), [Uid(q)], 1)
  }

  function PartsOf(c: Cohort): (parts: seq<Part>)
    requires |c.out| <= TWO_32 && c.first + |c.out| <= TWO_64
    ensures |parts| == |c.out|
  {
    seq(|c.out|, o requires 0 <= o < |c.out| => PartOf(c, o))
  }

  function Blocks(run: seq<Cohort>): (blocks: seq<seq<Part>>)
    requires Sized(run)
    ensures |blocks| == |run| && forall k :: 0 <= k < |run| ==> blocks[k] == PartsOf(run[k])
  {
    seq(|run|, k requires 0 <= k < |run| => PartsOf(run[k]))
  }

  function Parts(run: seq<Cohort>): seq<Part>
    requires Sized(run)
  {
    Concat(Blocks(run))
  }

  lemma InParts(run: seq<Cohort>, p: Part)
    requires Sized(run)
    ensures p in Parts(run) <==> exists k, o :: 0 <= k < |run| && 0 <= o < |run[k].out| && p == PartOf(run[k], o)
  {
    hide PartOf, Concat;
    InConcat(Blocks(run), p);
    if p in Parts(run) {
      var k :| 0 <= k < |run| && p in Blocks(run)[k];
      var o :| 0 <= o < |run[k].out| && PartsOf(run[k])[o] == p;
      assert p == PartOf(run[k], o);
    }
    if exists k, o :: 0 <= k < |run| && 0 <= o < |run[k].out| && p == PartOf(run[k], o) {
      var k, o :| 0 <= k < |run| && 0 <= o < |run[k].out| && p == PartOf(run[k], o);
      assert PartsOf(run[k])[o] == p && PartsOf(run[k])[o] in Blocks(run)[k];
    }
  }

  lemma PartsDistinct(run: seq<Cohort>)
    requires Sized(run) && forall j, k :: 0 <= j < k < |run| ==> run[j].id != run[k].id
    ensures DistinctParts(Parts(run))
  {
    hide Concat;
    var ids := seq(|run|, k requires 0 <= k < |run| => run[k].id);
    ConcatDistinct(Blocks(run), ids);
  }

  /* ---- The join of a built run ---- */

  ghost predicate FitsRun(run: seq<Cohort>) {
    Sized(run) && forall p :: p in Parts(run) ==> p.Fits()
  }

  /** The paths are the members' own, each put together from its records. */
  ghost predicate Represents(cell: Cell, paths: Paths, run: seq<Cohort>, h: RunHeader) {
    && Sized(run) && Joined4(cell, h, Parts(run), paths)
    && (forall q :: q in paths ==> exists k :: 0 <= k < |run| && q.cohort == run[k].id && q.ordinal < |run[k].out|)
    && (forall k, o :: 0 <= k < |run| && 0 <= o < |run[k].out| ==> MemberIn(cell, paths, run[k], o, h))
  }

  ghost predicate MemberIn(cell: Cell, paths: Paths, c: Cohort, o: nat, h: RunHeader)
    requires o < |c.out| <= TWO_32 && c.first + |c.out| <= TWO_64
  {
    PartOf(c, o).q in paths && PutTogether(cell, h, PartOf(c, o), 4, paths[PartOf(c, o).q])
  }

  /**
   What the construction says of one member: every stage of its path, each span at its injected length but
   the queue.
   */
  lemma BuiltRecovers(cell: Cell, spec: Spec, c: Cohort, o: nat)
    requires CohortBuilt(cell, spec, c) && o < |c.out|
    ensures Recovers(spec, Chain(cell).value, c.out[o])
    ensures o == 0 ==> RecoversExactly(spec, Chain(cell).value, c.out[o])
    ensures forall s :: s in Topology(cell).value ==> s in c.out[o]
  {
    assert MemberOk(spec, Chain(cell).value, c.start + o * spec.memberStagger, o == 0, c.out[o]);
    ChainVisitsTopology(cell);
    hide CohortBuilt, ProperChain, CohortOk;
    CarriesStages(cell, spec, c.out[o]);
  }

  lemma CarriesStages(cell: Cell, spec: Spec, ts: Times)
    requires Chain(cell).Some? && Topology(cell).Some? && Recovers(spec, Chain(cell).value, ts)
    requires forall s: Stage :: s in Topology(cell).value <==> s in ChainStages(Chain(cell).value)
    ensures forall s :: s in Topology(cell).value ==> s in ts
  {
    hide Chain, Topology;
    var spans := Chain(cell).value;
    forall s | s in Topology(cell).value ensures s in ts {
      var i :| 0 <= i < |ChainStages(spans)| && ChainStages(spans)[i] == s;
      if i == 0 { assert Measured(spans[0], ts); } else { assert Measured(spans[i - 1], ts); }
    }
  }

  lemma PartIsWhole(cell: Cell, spec: Spec, c: Cohort, o: nat)
    requires CohortBuilt(cell, spec, c) && o < |c.out|
    ensures WholePart(cell, PartOf(c, o))
  {
    BuiltRecovers(cell, spec, c, o);
    ChainVisitsTopology(cell);
    hide Uid, Recovers, ProperChain, CohortOk, Topology, Chain;
  }

  lemma PartIs(c: Cohort, o: nat)
    requires o < |c.out| <= TWO_32 && c.first + |c.out| <= TWO_64
    ensures PartOf(c, o).q == LogicalRequest(c.id, o) && PartOf(c, o).at == c.out[o]
  {
  }

  lemma Represented(cell: Cell, spec: Spec, run: seq<Cohort>, h: RunHeader)
    requires !cell.UnknownCell? && RunBuilt(cell, spec, run) && FitsRun(run)
    ensures Represents(cell, JoinOf(Evidence(cell, h, Parts(run))), run, h)
  {
    hide CohortBuilt, WholePart, PutTogether, PartOf, Parts, Evidence, JoinOf, DistinctParts;
    var parts := Parts(run);
    var paths := JoinOf(Evidence(cell, h, parts));
    PartsDistinct(run);
    forall p | p in parts ensures p.Fits() && WholePart(cell, p) {
      InParts(run, p);
      var k, o :| 0 <= k < |run| && 0 <= o < |run[k].out| && p == PartOf(run[k], o);
      PartIsWhole(cell, spec, run[k], o);
    }
    JoinedBack(cell, h, parts);
    forall q | q in paths ensures exists k :: 0 <= k < |run| && q.cohort == run[k].id && q.ordinal < |run[k].out| {
      var i :| 0 <= i < |parts| && parts[i].q == q;
      InParts(run, parts[i]);
      var k, o :| 0 <= k < |run| && 0 <= o < |run[k].out| && parts[i] == PartOf(run[k], o);
      PartIs(run[k], o);
    }
    forall k, o | 0 <= k < |run| && 0 <= o < |run[k].out| ensures MemberIn(cell, paths, run[k], o, h) {
      InParts(run, PartOf(run[k], o));
      var i :| 0 <= i < |parts| && parts[i] == PartOf(run[k], o);
    }
  }

  /** The path of member o of cohort k, in the terms of its construction. */
  lemma PathOfMember(cell: Cell, paths: Paths, run: seq<Cohort>, h: RunHeader, k: nat, o: nat)
    requires !cell.UnknownCell? && Represents(cell, paths, run, h) && k < |run| && o < |run[k].out|
    ensures var (q, c) := (LogicalRequest(run[k].id, o), run[k]);
            && q in paths && Topology(cell).Some? && paths[q].presence == Topology(cell).value
            && (forall s :: s in paths[q].presence ==> s in c.out[o] && paths[q].ts[s] == c.out[o][s])
            && paths[q].envelopeID == (if UsesProxy(cell) then c.first + o else 0)
            && paths[q].dispatchBySource == (if UsesProxy(cell) then map[EMITTER_ADAPTER := Dispatch(1, 0, c.cpu, 1)]
                                             else map[])
  {
    hide OwnedStages, OwnedUpTo, Topology, Uid;
    OwnedAll(cell);
    assert MemberIn(cell, paths, run[k], o, h);
  }
}
