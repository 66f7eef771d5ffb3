/**
 Synthetic runs from end to end (internal/testkit/fixtures.go, Build): a cohort's instants are
 split among the processes that own them, joined again offline, and decomposed; the checks of
 single paths find nothing and every injected delay comes back.
 */
module Bundles {
  import opened Identity
  import opened Schema
  import opened Wire
  import opened Chains
  import opened Joins
  import opened PathMeaning
  import opened Conservation
  import Checks

  /** What Build hands splitByEmitter for one request. */
  datatype Part = Part(q: LogicalRequest, at: Times, envelope: uint64, dispatch: Dispatch, membership: Uids,
                       batchSize: uint32)
  {
    /** The instants fit the records' clock readings. */
    predicate Fits() {
      forall s :: s in at ==> -TWO_63 <= at[s] < TWO_63
    }
  }

  predicate UsesProxy(cell: Cell) {
    cell != D0
  }

  /** Whether a process takes part in a cell's path: at D0 the load generator and the backend alone. */
  predicate Writes(cell: Cell, e: Emitter) {
    UsesProxy(cell) || e == EMITTER_LOADGEN || e == EMITTER_TRITON
  }

  /** The emitter's record before its stages are set. */
  function Blank0(cell: Cell, p: Part, e: Emitter): Record {
    var rec := EMPTY_RECORD.(emitter := e, sequence := e, cohort := p.q.cohort, ordinal := p.q.ordinal,
                             status := STATUS_OK,
                             envelopeID := if e == EMITTER_PROXY || e == EMITTER_ADAPTER then p.envelope else 0);
    if e == EMITTER_ADAPTER && UsesProxy(cell) then rec.(dispatch := p.dispatch, hasDispatch := true) else rec
  }

  /** rec with the owned stages from s on that have an instant. */
  function SetOwned(rec: Record, owned: set<Stage>, p: Part, s: nat): Record
    requires p.Fits() && 1 <= s <= STAGE_COUNT + 1
    decreases STAGE_COUNT + 1 - s
  {
    if s > STAGE_COUNT then rec
    else SetOwned(if s in owned && s in p.at then rec.SetStage(s, p.at[s]) else rec, owned, p, s + 1)
  }

  lemma {:induction false} SetOwnedMeans(rec: Record, owned: set<Stage>, p: Part, s: nat)
    requires p.Fits() && 1 <= s <= STAGE_COUNT + 1
    ensures var r := SetOwned(rec, owned, p, s);
            && r == rec.(ts := r.ts, presence := r.presence)
            && (forall t: Stage :: r.Has(t) <==> rec.Has(t) || (t >= s && t in owned && t in p.at))
            && (forall t: Stage :: r.ts[t] == if t >= s && t in owned && t in p.at then p.at[t] else rec.ts[t])
    decreases STAGE_COUNT + 1 - s
  {
    hide MaskHas, MaskWith;
    if s <= STAGE_COUNT {
      SetOwnedMeans(if s in owned && s in p.at then rec.SetStage(s, p.at[s]) else rec, owned, p, s + 1);
    }
  }

  /** The record of one process for one request. */
  function Share(cell: Cell, p: Part, e: Emitter): Record
    requires p.Fits()
  {
    var rec := SetOwned(Blank0(cell, p, e), OwnedStages(cell, e), p, 1);
    if e == EMITTER_LOADGEN || (e == EMITTER_ADAPTER && UsesProxy(cell))
    then rec.SetMembership(p.membership).(batchSize := p.batchSize) else rec
  }

  lemma ShareStages(cell: Cell, p: Part, e: Emitter)
    requires p.Fits()
    ensures var (r, b) := (SetOwned(Blank0(cell, p, e), OwnedStages(cell, e), p, 1), Blank0(cell, p, e));
            && r == b.(ts := r.ts, presence := r.presence)
            && (forall t: Stage :: r.Has(t) <==> t in OwnedStages(cell, e) && t in p.at)
            && (forall t: Stage :: r.Has(t) ==> r.ts[t] == p.at[t])
  {
    hide MaskHas, OwnedStages;
    SetOwnedMeans(Blank0(cell, p, e), OwnedStages(cell, e), p, 1);
    forall t: Stage ensures !Blank0(cell, p, e).Has(t) {
      EmptyMask(t);
    }
  }

  /** What the record of one process says. */
  lemma ShareMeans(cell: Cell, p: Part, e: Emitter)
    requires p.Fits() && p.membership != []
    ensures var r := Share(cell, p, e);
            && r.Request() == p.q && r.emitter == e && r.status == STATUS_OK
            && r.envelopeID == (if e == EMITTER_PROXY || e == EMITTER_ADAPTER then p.envelope else 0)
            && r.hasDispatch == (e == EMITTER_ADAPTER && UsesProxy(cell)) && (r.hasDispatch ==>
                 r.dispatch == p.dispatch)
            && (if e == EMITTER_LOADGEN || (e == EMITTER_ADAPTER && UsesProxy(cell))
                then r.membership == p.membership && r.membershipCount == |p.membership| && r.batchSize == p.batchSize
                else r.membership == [] && r.batchSize == 0)
            && (forall t: Stage :: r.Has(t) <==> t in OwnedStages(cell, e) && t in p.at)
            && (forall t: Stage :: r.Has(t) ==> r.ts[t] == p.at[t])
  {
    hide MaskHas, OwnedStages, SetOwned;
    ShareStages(cell, p, e);
  }

  predicate CarriesAny(cell: Cell, p: Part, e: Emitter) {
    exists s :: s in OwnedStages(cell, e) && s in p.at
  }

  /** The records of the first n processes, of those that have anything to say. */
  function SplitOf(cell: Cell, h: RunHeader, p: Part, n: nat): seq<Decoded>
    requires p.Fits() && n <= 4
  {
    if n == 0 then []
    else SplitOf(cell, h, p, n - 1)
         + if CarriesAny(cell, p, n) then [Decoded(SCHEMA_VERSION, h.(writerID := n), Share(cell, p, n))] else []
  }

  /** The stage loop of splitByEmitter. */
  method SetStages(rec: Record, owned: set<Stage>, p: Part) returns (r: Record, carried: bool)
    requires p.Fits()
    ensures r == SetOwned(rec, owned, p, 1)
    ensures carried <==> exists s :: s in owned && s in p.at
  {
    hide MaskHas, MaskWith;
    r, carried := rec, false;
    for s := 1 to STAGE_COUNT + 1
      invariant SetOwned(rec, owned, p, 1) == SetOwned(r, owned, p, s)
      invariant carried <==> exists t: Stage :: t < s && t in owned && t in p.at
    {
      if s in owned && s in p.at {
        r := r.SetStage(s, p.at[s]);
        carried := true;
      }
    }
  }

  /** splitByEmitter. */
  method SplitByEmitter(cell: Cell, h: RunHeader, p: Part) returns (out: seq<Decoded>)
    requires p.Fits()
    ensures out == SplitOf(cell, h, p, 4)
  {
    hide SetOwned, OwnedStages;
    out := [];
    for e := 1 to 5
      invariant out == SplitOf(cell, h, p, e - 1)
    {
      var rec, carried := SetStages(Blank0(cell, p, e), OwnedStages(cell, e), p);
      assert carried <==> CarriesAny(cell, p, e);
      if !carried {
        assert out + [] == out;
        continue;
      }
      if e == EMITTER_LOADGEN || (e == EMITTER_ADAPTER && UsesProxy(cell)) {
        rec := rec.SetMembership(p.membership).(batchSize := p.batchSize);
      }
      out := out + [Decoded(SCHEMA_VERSION, h.(writerID := e), rec)];
    }
  }

  /** The records of a whole run. */
  function Evidence(cell: Cell, h: RunHeader, parts: seq<Part>): seq<Decoded>
    requires forall p :: p in parts ==> p.Fits()
  {
    if parts == [] then []
    else
      var n := |parts| - 1;
      assert parts[n] in parts && forall p :: p in parts[..n] ==> p in parts;
      Evidence(cell, h, parts[..n]) + SplitOf(cell, h, parts[n], 4)
  }

  /** Build's splitting of every request. */
  method Records(cell: Cell, h: RunHeader, parts: seq<Part>) returns (records: seq<Decoded>)
    requires forall p :: p in parts ==> p.Fits()
    ensures records == Evidence(cell, h, parts)
  {
    hide SplitOf;
    records := [];
    for n := 0 to |parts|
      invariant (forall p :: p in parts[..n] ==> p.Fits()) && records == Evidence(cell, h, parts[..n])
    {
      assert parts[..n + 1][..n] == parts[..n] && forall p :: p in parts[..n + 1] ==> p in parts;
      var split := SplitByEmitter(cell, h, parts[n]);
      records := records + split;
    }
    assert parts[..|parts|] == parts;
  }

  /* ---- The join puts each request together again ---- */

  function MergeAll(j: Joined, block: seq<Decoded>): Joined {
    if block == [] then j else Merge(MergeAll(j, block[..|block| - 1]), block[|block| - 1])
  }

  /** Records of one request behind others change its path alone. */
  lemma {:induction false} JoinBlock(records: seq<Decoded>, block: seq<Decoded>, q: LogicalRequest)
    requires forall d :: d in block ==> d.record.Request() == q
    ensures block == [] ==> JoinOf(records + block) == JoinOf(records)
    ensures block != [] ==> JoinOf(records + block) == JoinOf(records)[q := MergeAll(PathOf(JoinOf(records), q), block)]
  {
    hide Merge;
    if block == [] {
      assert records + block == records;
    } else {
      var n := |block| - 1;
      assert block[n] in block;
      JoinBlock(records, block[..n], q);
      assert (records + block)[..|records + block| - 1] == records + block[..n];
      assert JoinOf(records + block) == Add(JoinOf(records + block[..n]), block[n]);
    }
  }

  function OwnedUpTo(cell: Cell, n: nat): set<Stage>
    requires n <= 4
  {
    if n == 0 then {} else OwnedUpTo(cell, n - 1) + OwnedStages(cell, n)
  }

  /** The stages of a request's path after the records of the first n processes. */
  ghost predicate StagesTogether(cell: Cell, p: Part, n: nat, j: Joined)
    requires n <= 4
  {
    && j.presence == OwnedUpTo(cell, n)
    && (forall s :: s in j.presence ==> s in p.at && j.ts[s] == p.at[s] && s in OwnedStages(cell, j.stageEmitter[s]))
  }

  /** And the rest of it. */
  ghost predicate FieldsTogether(cell: Cell, h: RunHeader, p: Part, n: nat, j: Joined) {
    && j.request == p.q && j.status == (if n == 0 then STATUS_UNSPECIFIED else STATUS_OK)
    && j.domains == (if n == 0 then {} else {h.clockDomain})
    && j.schemaVersions == (if n == 0 then {} else {SCHEMA_VERSION})
    && (forall e: Emitter :: e in j.emitters <==> 1 <= e <= n && Writes(cell, e))
    && (forall e :: e in j.emitters ==> j.emitters[e] == 1)
    && j.envelopeID == (if n < 2 || !UsesProxy(cell) then 0 else p.envelope)
    && (n >= 1 ==> j.membership == p.membership && j.membershipCount == |p.membership| && j.batchSize == p.batchSize)
    && (forall e :: e in j.membershipBySource ==> j.membershipBySource[e] == p.membership)
    && j.dispatchBySource == (if n < 3 || !UsesProxy(cell) then map[] else map[EMITTER_ADAPTER := p.dispatch])
  }

  ghost predicate PutTogether(cell: Cell, h: RunHeader, p: Part, n: nat, j: Joined)
    requires n <= 4
  {
    StagesTogether(cell, p, n, j) && FieldsTogether(cell, h, p, n, j)
  }

  /** What Build knows of every part of a run. */
  ghost predicate WholePart(cell: Cell, p: Part) {
    && p.membership != [] && p.batchSize > 0 && p.envelope != 0
    && Topology(cell).Some? && forall s :: s in Topology(cell).value ==> s in p.at
  }

  lemma OwnedHasInstant(cell: Cell, p: Part, e: Emitter, s: Stage)
    requires WholePart(cell, p)
    ensures p.membership != [] && (s in OwnedStages(cell, e) ==> s in p.at)
  {
  }

  lemma OneMoreStage(cell: Cell, p: Part, n: nat, j: Joined, d: Decoded, s: Stage)
    requires p.Fits() && WholePart(cell, p) && n < 4
    requires StagesTogether(cell, p, n, j) && d.record == Share(cell, p, n + 1)
    ensures var k := Merge(j, d);
            && (s in k.presence <==> s in OwnedUpTo(cell, n + 1))
            && (s in k.presence ==> s in p.at && k.ts[s] == p.at[s] && s in OwnedStages(cell, k.stageEmitter[s]))
  {
    hide MaskHas, OwnedStages, Merge, Share, WholePart;
    OwnedHasInstant(cell, p, n + 1, s);
    ShareMeans(cell, p, n + 1);
    MergedStage(j, d, s);
  }

  lemma MoreStages(cell: Cell, p: Part, n: nat, j: Joined, d: Decoded)
    requires p.Fits() && WholePart(cell, p) && n < 4
    requires StagesTogether(cell, p, n, j) && d.record == Share(cell, p, n + 1)
    ensures StagesTogether(cell, p, n + 1, Merge(j, d))
  {
    hide MaskHas, OwnedStages, OwnedUpTo, Merge, Share, WholePart;
    var k := Merge(j, d);
    forall s: Stage
      ensures s in k.presence <==> s in OwnedUpTo(cell, n + 1)
      ensures s in k.presence ==> s in p.at && k.ts[s] == p.at[s] && s in OwnedStages(cell, k.stageEmitter[s])
    {
      OneMoreStage(cell, p, n, j, d, s);
    }
    assert k.presence == OwnedUpTo(cell, n + 1);
  }

  lemma MoreFields(cell: Cell, h: RunHeader, p: Part, n: nat, j: Joined, d: Decoded)
    requires p.Fits() && WholePart(cell, p) && n < 4 && Writes(cell, n + 1) && FieldsTogether(cell, h, p, n, j)
    requires d == Decoded(SCHEMA_VERSION, h.(writerID := n + 1), Share(cell, p, n + 1))
    ensures FieldsTogether(cell, h, p, n + 1, Merge(j, d))
  {
    hide MaskHas, OwnedStages, Merge, Share;
    ShareMeans(cell, p, n + 1);
    MergedFields(j, d);
    MergedNotes(j, d);
  }

  lemma SplitNext(cell: Cell, h: RunHeader, p: Part, n: nat)
    requires !cell.UnknownCell? && p.Fits() && WholePart(cell, p) && 1 <= n <= 4
    ensures SplitOf(cell, h, p, n)
         == SplitOf(cell, h, p, n - 1)
            + if Writes(cell, n) then [Decoded(SCHEMA_VERSION, h.(writerID := n), Share(cell, p, n))] else []
  {
    hide Share, WholePart, CarriesAny, Writes;
    SomethingOwned(cell, p, n);
  }

  lemma MergeNext(j: Joined, block: seq<Decoded>, d: Decoded)
    ensures MergeAll(j, block + [d]) == Merge(MergeAll(j, block), d)
  {
    assert (block + [d])[..|block|] == block;
  }

  lemma {:induction false} SplitRequests(cell: Cell, h: RunHeader, p: Part, n: nat)
    requires !cell.UnknownCell? && p.Fits() && WholePart(cell, p) && n <= 4
    ensures n > 0 ==> SplitOf(cell, h, p, n) != []
    ensures forall d :: d in SplitOf(cell, h, p, n) ==> d.record.Request() == p.q
  {
    if n > 0 {
      SplitRequests(cell, h, p, n - 1);
      SplitNext(cell, h, p, n);
      ShareIsOf(cell, p, n);
      hide SplitOf, Share;
    }
  }

  lemma OneMoreMerged(cell: Cell, h: RunHeader, p: Part, n: nat, before: seq<Decoded>, d: Decoded)
    requires p.Fits() && WholePart(cell, p) && n < 4 && Writes(cell, n + 1)
    requires PutTogether(cell, h, p, n, MergeAll(Blank(p.q), before))
    requires d == Decoded(SCHEMA_VERSION, h.(writerID := n + 1), Share(cell, p, n + 1))
    ensures PutTogether(cell, h, p, n + 1, MergeAll(Blank(p.q), before + [d]))
  {
    hide Merge, MergeAll, Share, StagesTogether, FieldsTogether, WholePart, OwnedStages, OwnedUpTo, UsesProxy, Writes;
    MergeNext(Blank(p.q), before, d);
    MoreStages(cell, p, n, MergeAll(Blank(p.q), before), d);
    MoreFields(cell, h, p, n, MergeAll(Blank(p.q), before), d);
  }

  lemma {:induction false} SplitMerges(cell: Cell, h: RunHeader, p: Part, n: nat)
    requires !cell.UnknownCell? && p.Fits() && WholePart(cell, p) && n <= 4
    ensures PutTogether(cell, h, p, n, MergeAll(Blank(p.q), SplitOf(cell, h, p, n)))
  {
    hide Merge, MergeAll, Share, PutTogether, WholePart, OwnedStages, OwnedUpTo, SplitOf, UsesProxy, Writes, CarriesAny;
    if n == 0 {
      NothingTogether(cell, h, p);
    } else {
      SplitMerges(cell, h, p, n - 1);
      SplitNext(cell, h, p, n);
      if Writes(cell, n) {
        OneMoreMerged(cell, h, p, n - 1, SplitOf(cell, h, p, n - 1),
                      Decoded(SCHEMA_VERSION, h.(writerID := n), Share(cell, p, n)));
      } else {
        assert SplitOf(cell, h, p, n) == SplitOf(cell, h, p, n - 1);
        NoMoreMerged(cell, h, p, n, MergeAll(Blank(p.q), SplitOf(cell, h, p, n)));
      }
    }
  }

  lemma NothingOwned(cell: Cell, n: nat)
    requires 1 <= n <= 4 && !Writes(cell, n)
    ensures OwnedUpTo(cell, n) == OwnedUpTo(cell, n - 1)
  {
    assert OwnedStages(cell, n) == {};
  }

  /** A process that takes no part leaves the path as it was. */
  lemma NoMoreMerged(cell: Cell, h: RunHeader, p: Part, n: nat, j: Joined)
    requires 1 <= n <= 4 && !Writes(cell, n) && PutTogether(cell, h, p, n - 1, j)
    ensures PutTogether(cell, h, p, n, j)
  {
    NothingOwned(cell, n);
    hide OwnedStages;
  }

  lemma ShareIsOf(cell: Cell, p: Part, e: Emitter)
    requires p.Fits() && WholePart(cell, p)
    ensures Share(cell, p, e).Request() == p.q
  {
    hide Share;
    ShareMeans(cell, p, e);
  }

  lemma NothingTogether(cell: Cell, h: RunHeader, p: Part)
    requires p.Fits()
    ensures PutTogether(cell, h, p, 0, MergeAll(Blank(p.q), SplitOf(cell, h, p, 0)))
  {
  }

  /** A process has something to write exactly where it takes part. */
  lemma SomethingOwned(cell: Cell, p: Part, e: Emitter)
    requires !cell.UnknownCell? && 1 <= e <= 4 && WholePart(cell, p)
    ensures CarriesAny(cell, p, e) <==> Writes(cell, e)
  {
    if Writes(cell, e) {
      var s: Stage := if e == EMITTER_LOADGEN then SCHED else if e == EMITTER_PROXY then PROXY_RECV
                      else if e == EMITTER_ADAPTER then ADAPTER_RECV else QUEUE_START;
      assert s in OwnedStages(cell, e);
    } else {
      assert OwnedStages(cell, e) == {};
    }
  }

  ghost predicate DistinctParts(parts: seq<Part>) {
    forall i, j :: 0 <= i < j < |parts| ==> parts[i].q != parts[j].q
  }

  /** The join has a path for exactly the parts, each put together again from all four processes. */
  ghost predicate Joined4(cell: Cell, h: RunHeader, parts: seq<Part>, paths: Paths) {
    && (forall q :: q in paths <==> exists i :: 0 <= i < |parts| && parts[i].q == q)
    && (forall i :: 0 <= i < |parts| ==> parts[i].q in paths && PutTogether(cell, h, parts[i], 4, paths[parts[i].q]))
  }

  lemma OneMorePart(cell: Cell, h: RunHeader, parts: seq<Part>, paths: Paths, p: Part, j: Joined)
    requires DistinctParts(parts + [p]) && Joined4(cell, h, parts, paths) && PutTogether(cell, h, p, 4, j)
    ensures p.q !in paths && Joined4(cell, h, parts + [p], paths[p.q := j])
  {
    hide PutTogether;
    var all := parts + [p];
    assert all[|parts|] == p;
    forall i | 0 <= i < |parts| ensures all[i] == parts[i] && parts[i].q != p.q {
      assert all[i].q != all[|parts|].q;
    }
    assert p.q !in paths;
    var next := paths[p.q := j];
    forall q ensures q in next <==> exists i :: 0 <= i < |all| && all[i].q == q {
      if q in paths {
        var i :| 0 <= i < |parts| && parts[i].q == q;
        assert all[i].q == q;
      }
    }
  }

  lemma {:induction false} JoinedBack(cell: Cell, h: RunHeader, parts: seq<Part>)
    requires !cell.UnknownCell? && DistinctParts(parts)
    requires forall p :: p in parts ==> p.Fits() && WholePart(cell, p)
    ensures Joined4(cell, h, parts, JoinOf(Evidence(cell, h, parts)))
  {
    hide PutTogether, SplitOf, JoinOf, Merge, MergeAll, WholePart, Joined4;
    if parts == [] {
      NoParts(cell, h);
    } else {
      var n := |parts| - 1;
      var last, front := parts[n], parts[..n];
      assert parts == front + [last];
      assert last in parts && forall p :: p in front ==> p in parts;
      JoinedBack(cell, h, front);
      var before, block := Evidence(cell, h, front), SplitOf(cell, h, last, 4);
      SplitMerges(cell, h, last, 4);
      SplitRequests(cell, h, last, 4);
      JoinBlock(before, block, last.q);
      OneMorePart(cell, h, front, JoinOf(before), last, MergeAll(Blank(last.q), block));
    }
  }

  lemma NoParts(cell: Cell, h: RunHeader)
    ensures Joined4(cell, h, [], JoinOf(Evidence(cell, h, [])))
  {
  }

  /* ---- Cohort after cohort ---- */

  /** The parts of a run, block after block. */
  function Concat(blocks: seq<seq<Part>>): seq<Part> {
    if blocks == [] then [] else Concat(blocks[..|blocks| - 1]) + blocks[|blocks| - 1]
  }

  lemma {:induction false} InConcat(blocks: seq<seq<Part>>, p: Part)
    ensures p in Concat(blocks) <==> exists k :: 0 <= k < |blocks| && p in blocks[k]
  {
    if blocks != [] {
      var n := |blocks| - 1;
      InConcat(blocks[..n], p);
      assert forall k :: 0 <= k < n ==> blocks[..n][k] == blocks[k];
      assert p in Concat(blocks) <==> p in Concat(blocks[..n]) || p in blocks[n];
    }
  }

  /** Block k holds different requests, all of cohort ids[k], and no two blocks are of one cohort. */
  ghost predicate OwnCohorts(blocks: seq<seq<Part>>, ids: seq<uint32>) {
    && |ids| == |blocks| && (forall j, k :: 0 <= j < k < |ids| ==> ids[j] != ids[k])
    && (forall k, i :: 0 <= k < |blocks| && 0 <= i < |blocks[k]| ==> blocks[k][i].q.cohort == ids[k])
    && (forall k :: 0 <= k < |blocks| ==> DistinctParts(blocks[k]))
  }

  lemma {:induction false} ConcatDistinct(blocks: seq<seq<Part>>, ids: seq<uint32>)
    requires OwnCohorts(blocks, ids)
    ensures DistinctParts(Concat(blocks))
  {
    if blocks != [] {
      var n := |blocks| - 1;
      ConcatDistinct(blocks[..n], ids[..n]);
      var front, back := Concat(blocks[..n]), blocks[n];
      forall i | 0 <= i < |front| ensures front[i].q.cohort != ids[n] {
        assert front[i] in front;
        InConcat(blocks[..n], front[i]);
        var k :| 0 <= k < n && front[i] in blocks[..n][k];
        var l :| 0 <= l < |blocks[k]| && blocks[k][l] == front[i];
      }
      assert DistinctParts(blocks[n]);
      var all := front + back;
      forall i, j | 0 <= i < j < |all| ensures all[i].q != all[j].q {
        assert j < |front| ==> all[i] == front[i] && all[j] == front[j];
        assert j >= |front| ==> all[j] == back[j - |front|] && back[j - |front|].q.cohort == ids[n];
        assert i >= |front| ==> all[i] == back[i - |front|];
      }
    }
  }

  /* ---- No path is found fault with ---- */

  lemma OwnedAll(cell: Cell)
    requires !cell.UnknownCell?
    ensures Topology(cell).Some? && OwnedUpTo(cell, 4) == Topology(cell).value
  {
    forall s: Stage ensures s in OwnedUpTo(cell, 4) <==> s in Topology(cell).value {
      OwnedSome(cell, s);
    }
  }

  /** A stage is of a cell's path if and only if some process owns it. */
  lemma OwnedSome(cell: Cell, s: Stage)
    requires !cell.UnknownCell?
    ensures s in OwnedUpTo(cell, 4) <==> exists e :: 1 <= e <= 4 && s in OwnedStages(cell, e)
    ensures s in OwnedUpTo(cell, 4) <==> s in Topology(cell).value
  {
    hide OwnedStages;
    assert OwnedUpTo(cell, 4)
        == OwnedStages(cell, 1) + OwnedStages(cell, 2) + OwnedStages(cell, 3) + OwnedStages(cell, 4);
    OwnerOf(cell, s);
  }

  lemma OwnerOf(cell: Cell, s: Stage)
    requires !cell.UnknownCell?
    ensures s in Topology(cell).value <==>
              || s in OwnedStages(cell, 1) || s in OwnedStages(cell, 2)
              || s in OwnedStages(cell, 3) || s in OwnedStages(cell, 4)
  {
  }

  /** The rules that judge a path on its own. */
  ghost predicate PathRule(cell: Cell, rule: Checks.Rule) {
    match rule
    case PresenceRule(topology) => Topology(cell) == Some(topology)
    case OrderingRule(spans) => Chain(cell) == Some(spans)
    case _ => true
  }

  lemma PathIsSound(exp: Checks.Expectation, h: RunHeader, p: Part, j: Joined, rule: Checks.Rule, d: Checks.Defect)
    requires !exp.cell.UnknownCell?
    requires PutTogether(exp.cell, h, p, 4, j) && PathRule(exp.cell, rule)
    requires exp.clockDomain in {[], h.clockDomain} && exp.batchSize == 1 == p.batchSize && p.membership == [Uid(p.q)]
    requires UidRequest(Uid(p.q)) == p.q && p.q.ordinal < exp.cohortSize
    requires forall k :: 0 <= k < |Chain(exp.cell).value| ==>
               Measured(Chain(exp.cell).value[k], p.at) && Duration(Chain(exp.cell).value[k], p.at) >= 0
    ensures !Checks.RuleAt(exp, rule, j, d)
  {
    hide Chain, OwnedStages, Uid, UidRequest;
    OwnedAll(exp.cell);
    assert !Checks.SourcesDiffer(j.membershipBySource);
    if rule.OrderingRule? && d.NonMonotonic? && d.span in rule.spans {
      var k :| 0 <= k < |rule.spans| && rule.spans[k] == d.span;
      assert Measured(rule.spans[k], p.at) && Duration(rule.spans[k], p.at) >= 0;
    }
  }
}
