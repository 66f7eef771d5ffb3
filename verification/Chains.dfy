/**
 Which stages a cell's path visits, in which order, and who owns them
 (internal/validate/chain.go, internal/events/schema.go).
 */
module Chains {
  import opened Identity
  import opened Schema
  import opened Wire

  const LOADGEN_STAGES: set<Stage> := {SCHED, CLIENT_SEND, CLIENT_RECV}
  const PROXY_STAGES: set<Stage> := {PROXY_RECV, PROXY_SEND, PROXY_RESP_RECV, PROXY_FANOUT}
  const ADAPTER_STAGES: set<Stage> := {ADAPTER_RECV, ADAPTER_DISPATCH, ADAPTER_RESULT, ADAPTER_SEND}
  const TRITON_STAGES: set<Stage> := {QUEUE_START, COMPUTE_START, COMPUTE_END}

  /** TopologyMask. */
  function Topology(cell: Cell): Option<set<Stage>> {
    match cell
    case D0 => Some(LOADGEN_STAGES + TRITON_STAGES + {COHORT_SEAL})
    case UnknownCell => None
    case _ => Some(LOADGEN_STAGES + PROXY_STAGES + ADAPTER_STAGES + TRITON_STAGES + {COHORT_SEAL})
  }

  function SealOwner(cell: Cell): Emitter {
    if cell.AggregatesEnvelopes() then EMITTER_PROXY else EMITTER_LOADGEN
  }

  function GroupOf(emitter: Emitter): set<Stage> {
    if emitter == EMITTER_LOADGEN then LOADGEN_STAGES
    else if emitter == EMITTER_PROXY then PROXY_STAGES
    else if emitter == EMITTER_ADAPTER then ADAPTER_STAGES
    else if emitter == EMITTER_TRITON then TRITON_STAGES
    else {}
  }

  /** OwnedStages. */
  function OwnedStages(cell: Cell, emitter: Emitter): set<Stage> {
    if GroupOf(emitter) == {} || Topology(cell).None? then {}
    else (GroupOf(emitter) + (if SealOwner(cell) == emitter then {COHORT_SEAL} else {})) * Topology(cell).value
  }

  datatype SpanName =
    | WForm | APack | XReq | XReqHop1 | XReqHop2 | XReqHop3 | QBackend | SComp
    | XResp | XRespHop1 | XRespHop2 | XRespHop3 | FFanout
    | BarrierWait | ReleaseToSend | AdapterUnpack | ResponsePack

  datatype Span = Span(name: SpanName, start: Stage, end: Stage, accounted: bool)

  const SHARED_TAIL: seq<Span> := [
    Span(XReqHop2, PROXY_SEND, ADAPTER_RECV, true),
    Span(AdapterUnpack, ADAPTER_RECV, ADAPTER_DISPATCH, false),
    Span(XReqHop3, ADAPTER_DISPATCH, QUEUE_START, true),
    Span(QBackend, QUEUE_START, COMPUTE_START, true),
    Span(SComp, COMPUTE_START, COMPUTE_END, true),
    Span(XRespHop1, COMPUTE_END, ADAPTER_RESULT, true),
    Span(ResponsePack, ADAPTER_RESULT, ADAPTER_SEND, false),
    Span(XRespHop2, ADAPTER_SEND, PROXY_RESP_RECV, true),
    Span(FFanout, PROXY_RESP_RECV, PROXY_FANOUT, true),
    Span(XRespHop3, PROXY_FANOUT, CLIENT_RECV, true)]

  const DIRECT: seq<Span> := [
    Span(BarrierWait, SCHED, COHORT_SEAL, false),
    Span(ReleaseToSend, COHORT_SEAL, CLIENT_SEND, false),
    Span(XReq, CLIENT_SEND, QUEUE_START, true),
    Span(QBackend, QUEUE_START, COMPUTE_START, true),
    Span(SComp, COMPUTE_START, COMPUTE_END, true),
    Span(XResp, COMPUTE_END, CLIENT_RECV, true)]

  const INDEPENDENT_HEAD: seq<Span> := [
    Span(BarrierWait, SCHED, COHORT_SEAL, false),
    Span(ReleaseToSend, COHORT_SEAL, CLIENT_SEND, false),
    Span(XReqHop1, CLIENT_SEND, PROXY_RECV, true),
    Span(APack, PROXY_RECV, PROXY_SEND, true)]

  const AGGREGATE_HEAD: seq<Span> := [
    Span(ReleaseToSend, SCHED, CLIENT_SEND, false),
    Span(XReqHop1, CLIENT_SEND, PROXY_RECV, true),
    Span(WForm, PROXY_RECV, COHORT_SEAL, true),
    Span(APack, COHORT_SEAL, PROXY_SEND, true)]

  /** Chain: None for a cell without one. */
  function Chain(cell: Cell): Option<seq<Span>> {
    match cell
    case UnknownCell => None
    case D0 => Some(DIRECT)
    case _ => Some((if cell.AggregatesEnvelopes() then AGGREGATE_HEAD else INDEPENDENT_HEAD) + SHARED_TAIL)
  }

  const ENVELOPE_STAGES: set<Stage> := {COHORT_SEAL, PROXY_SEND, ADAPTER_RECV, ADAPTER_SEND, PROXY_RESP_RECV}

  const FIRST_CONSERVED: Stage := CLIENT_SEND
  const LAST_CONSERVED: Stage := CLIENT_RECV

  /** PreCycle: whether no span up to and including i starts at the client send. */
  predicate PreCycle(spans: seq<Span>, i: int) {
    forall j :: 0 <= j <= i && j < |spans| ==> spans[j].start != FIRST_CONSERVED
  }

  /** ChainStages. */
  function ChainStages(spans: seq<Span>): (order: seq<Stage>)
    ensures spans != [] ==> |order| == |spans| + 1
  {
    if spans == [] then []
    else [spans[0].start] + seq(|spans|, i requires 0 <= i < |spans| => spans[i].end)
  }

  /** Every span starts where the one before it ends. */
  predicate Linked(spans: seq<Span>) {
    forall i :: 0 < i < |spans| ==> spans[i].start == spans[i - 1].end
  }

  /** Where a stage stands in the shared path's traversal; only the seal's place depends on who seals. */
  function Position(aggregates: bool, s: Stage): (p: nat)
    ensures p < STAGE_COUNT
  {
    if s == SCHED then 0
    else if s == COHORT_SEAL then (if aggregates then 3 else 1)
    else if s == CLIENT_SEND then (if aggregates then 1 else 2)
    else if s == PROXY_RECV then (if aggregates then 2 else 3)
    else s - 1
  }

  function SharedOrder(aggregates: bool): (order: seq<Stage>)
    ensures |order| == STAGE_COUNT
  {
    (if aggregates then [SCHED, CLIENT_SEND, PROXY_RECV, COHORT_SEAL]
     else [SCHED, COHORT_SEAL, CLIENT_SEND, PROXY_RECV])
    + [PROXY_SEND, ADAPTER_RECV, ADAPTER_DISPATCH, QUEUE_START, COMPUTE_START, COMPUTE_END, ADAPTER_RESULT,
       ADAPTER_SEND, PROXY_RESP_RECV, PROXY_FANOUT, CLIENT_RECV]
  }

  function SharedChain(aggregates: bool): seq<Span> {
    (if aggregates then AGGREGATE_HEAD else INDEPENDENT_HEAD) + SHARED_TAIL
  }

  lemma SharedOrderIs(aggregates: bool)
    ensures forall s: Stage :: SharedOrder(aggregates)[Position(aggregates, s)] == s
    ensures forall i :: 0 <= i < STAGE_COUNT ==> Position(aggregates, SharedOrder(aggregates)[i]) == i
  {
  }

  lemma SharedTail(i: nat)
    requires i < |SHARED_TAIL|
    ensures SHARED_TAIL[i].start == SharedOrder(false)[i + 4] == SharedOrder(true)[i + 4]
    ensures SHARED_TAIL[i].end == SharedOrder(false)[i + 5] == SharedOrder(true)[i + 5]
  {
  }

  lemma SharedHead(aggregates: bool, i: nat)
    requires i < 4
    ensures var head := if aggregates then AGGREGATE_HEAD else INDEPENDENT_HEAD;
            |head| == 4 && head[i].start == SharedOrder(aggregates)[i] && head[i].end == SharedOrder(aggregates)[i + 1]
  {
  }

  /** Span i of the shared chain runs from the i-th stage of the traversal to the next. */
  lemma SharedSpans(aggregates: bool)
    ensures |SharedChain(aggregates)| == STAGE_COUNT - 1
    ensures forall i :: 0 <= i < STAGE_COUNT - 1 ==>
              && SharedChain(aggregates)[i].start == SharedOrder(aggregates)[i]
              && SharedChain(aggregates)[i].end == SharedOrder(aggregates)[i + 1]
  {
    hide SharedOrder;
    SharedHead(aggregates, 0);
    assert |SHARED_TAIL| == 10;
    forall i | 0 <= i < STAGE_COUNT - 1
      ensures SharedChain(aggregates)[i].start == SharedOrder(aggregates)[i]
      ensures SharedChain(aggregates)[i].end == SharedOrder(aggregates)[i + 1]
    {
      if i < 4 { SharedHead(aggregates, i); } else { SharedTail(i - 4); }
    }
  }

  lemma SharedVisits(cell: Cell)
    requires !cell.UnknownCell? && cell != D0
    ensures Chain(cell) == Some(SharedChain(cell.AggregatesEnvelopes())) && Linked(Chain(cell).value)
    ensures ChainStages(Chain(cell).value) == SharedOrder(cell.AggregatesEnvelopes())
    ensures Topology(cell).Some? && forall s: Stage :: s in Topology(cell).value
  {
    hide SharedOrder, ChainStages, Linked;
    SharedStages(cell.AggregatesEnvelopes());
  }

  lemma SharedStages(aggregates: bool)
    ensures Linked(SharedChain(aggregates)) && ChainStages(SharedChain(aggregates)) == SharedOrder(aggregates)
  {
    SharedSpans(aggregates);
    hide SharedOrder, SharedChain;
    var spans, order := SharedChain(aggregates), SharedOrder(aggregates);
    assert ChainStages(spans) == [spans[0].start] + seq(|spans|, i requires 0 <= i < |spans| => spans[i].end);
    assert forall i :: 0 <= i < STAGE_COUNT ==> ChainStages(spans)[i] == order[i];
  }

  /** The direct path's stages, in the order its chain visits them. */
  const DIRECT_ORDER: seq<Stage> := [SCHED, COHORT_SEAL, CLIENT_SEND, QUEUE_START, COMPUTE_START, COMPUTE_END,
                                     CLIENT_RECV]

  lemma DirectVisits()
    ensures Linked(DIRECT) && ChainStages(DIRECT) == DIRECT_ORDER
    ensures forall s: Stage :: s in Topology(D0).value <==> s in DIRECT_ORDER
  {
  }

  /** The chain of a cell visits each stage of the cell's path exactly once, and no other, without a gap. */
  lemma ChainVisitsTopology(cell: Cell)
    requires !cell.UnknownCell?
    ensures Chain(cell).Some? && Topology(cell).Some? && Linked(Chain(cell).value)
    ensures var order := ChainStages(Chain(cell).value);
            && (forall i, j :: 0 <= i < j < |order| ==> order[i] != order[j])
            && (forall s: Stage :: s in Topology(cell).value <==> s in order)
  {
    if cell == D0 {
      DirectVisits();
    } else {
      var aggregates := cell.AggregatesEnvelopes();
      SharedVisits(cell);
      SharedOrderIs(aggregates);
      hide SharedOrder, Position, Chain, Topology;
      var order := SharedOrder(aggregates);
      forall i, j | 0 <= i < j < |order| ensures order[i] != order[j] {
        assert Position(aggregates, order[i]) == i && Position(aggregates, order[j]) == j;
      }
      forall s: Stage ensures s in order {
        assert order[Position(aggregates, s)] == s;
      }
    }
  }

  /** Every stage of a cell's topology has exactly one owner. */
  lemma OneOwner(cell: Cell, s: Stage, e: Emitter, f: Emitter)
    requires s in OwnedStages(cell, e) && s in OwnedStages(cell, f)
    ensures e == f
  {
  }
}
