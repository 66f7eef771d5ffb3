/**
 What the cycle model leaves unnamed, on the timestamps themselves (internal/validate/chain.go,
 internal/validate/conservation.go): nothing of a direct path, and of a path through the adapter
 its unpacking and its packing.
 */
module Residuals {
  import opened Identity
  import opened Schema
  import opened Wire
  import opened Chains
  import opened Joins
  import opened Checks
  import opened Conservation
  import Coverage

  /**
   The timestamps each interval of a cell's cycle lies between, and whether the cycle model names
   it; None where the cell has no such interval.
   */
  function Ends(cell: Cell, name: SpanName): Option<(Stage, Stage, bool)> {
    match name
    case BarrierWait => if cell.AggregatesEnvelopes() then None else Some((SCHED, COHORT_SEAL, false))
    case ReleaseToSend => Some((if cell.AggregatesEnvelopes() then SCHED else COHORT_SEAL, CLIENT_SEND, false))
    case XReq => if cell == D0 then Some((CLIENT_SEND, QUEUE_START, true)) else None
    case XReqHop1 => if cell == D0 then None else Some((CLIENT_SEND, PROXY_RECV, true))
    case WForm => if cell.AggregatesEnvelopes() then Some((PROXY_RECV, COHORT_SEAL, true)) else None
    case APack =>
      if cell == D0 then None
      else Some((if cell.AggregatesEnvelopes() then COHORT_SEAL else PROXY_RECV, PROXY_SEND, true))
    case XReqHop2 => if cell == D0 then None else Some((PROXY_SEND, ADAPTER_RECV, true))
    case AdapterUnpack => if cell == D0 then None else Some((ADAPTER_RECV, ADAPTER_DISPATCH, false))
    case XReqHop3 => if cell == D0 then None else Some((ADAPTER_DISPATCH, QUEUE_START, true))
    case QBackend => Some((QUEUE_START, COMPUTE_START, true))
    case SComp => Some((COMPUTE_START, COMPUTE_END, true))
    case XResp => if cell == D0 then Some((COMPUTE_END, CLIENT_RECV, true)) else None
    case XRespHop1 => if cell == D0 then None else Some((COMPUTE_END, ADAPTER_RESULT, true))
    case ResponsePack => if cell == D0 then None else Some((ADAPTER_RESULT, ADAPTER_SEND, false))
    case XRespHop2 => if cell == D0 then None else Some((ADAPTER_SEND, PROXY_RESP_RECV, true))
    case FFanout => if cell == D0 then None else Some((PROXY_RESP_RECV, PROXY_FANOUT, true))
    case XRespHop3 => if cell == D0 then None else Some((PROXY_FANOUT, CLIENT_RECV, true))
  }

  /** A cell's chain is exactly its cycle's intervals. */
  lemma ChainIsCycle(cell: Cell, span: Span)
    requires !cell.UnknownCell?
    ensures span in Chain(cell).value <==> Ends(cell, span.name) == Some((span.start, span.end, span.accounted))
  {
    if cell == D0 {
      DirectIsCycle(span);
    } else {
      SharedIsCycle(cell, span);
    }
  }

  lemma DirectIsCycle(span: Span)
    ensures span in DIRECT <==> Ends(D0, span.name) == Some((span.start, span.end, span.accounted))
  {
    if Ends(D0, span.name) == Some((span.start, span.end, span.accounted)) {
      match span.name
      case BarrierWait => assert DIRECT[0] == span;
      case ReleaseToSend => assert DIRECT[1] == span;
      case XReq => assert DIRECT[2] == span;
      case QBackend => assert DIRECT[3] == span;
      case SComp => assert DIRECT[4] == span;
      case XResp => assert DIRECT[5] == span;
      case _ =>
    }
  }

  lemma SharedIsCycle(cell: Cell, span: Span)
    requires !cell.UnknownCell? && cell != D0
    ensures span in Chain(cell).value <==> Ends(cell, span.name) == Some((span.start, span.end, span.accounted))
  {
    var aggregates := cell.AggregatesEnvelopes();
    SharedVisits(cell);
    hide Chain, SharedChain, NamePlace, SharedOrder;
    var spans := SharedChain(aggregates);
    NamePlaced(aggregates, 0);
    if span in spans {
      var k :| 0 <= k < |spans| && spans[k] == span;
      SpanIs(cell, k);
    }
    if Ends(cell, span.name) == Some((span.start, span.end, span.accounted)) {
      EndsAt(cell, span.name);
      SpanIs(cell, NamePlace(aggregates, span.name));
    }
  }

  /** Each place of a shared chain holds the interval of the name that stands there. */
  lemma SpanIs(cell: Cell, k: nat)
    requires !cell.UnknownCell? && cell != D0 && k < 14
    ensures |SharedChain(cell.AggregatesEnvelopes())| == 14
    ensures var s := SharedChain(cell.AggregatesEnvelopes())[k];
            Ends(cell, s.name) == Some((s.start, s.end, s.accounted))
  {
    var aggregates := cell.AggregatesEnvelopes();
    if k < 4 {
      assert SharedChain(aggregates)[k] == (if aggregates then AGGREGATE_HEAD else INDEPENDENT_HEAD)[k];
    } else {
      assert SharedChain(aggregates)[k] == SHARED_TAIL[k - 4];
    }
  }

  lemma EndsAt(cell: Cell, name: SpanName)
    requires !cell.UnknownCell? && cell != D0 && Ends(cell, name).Some?
    ensures var aggregates := cell.AggregatesEnvelopes();
            && |SharedChain(aggregates)| == 14 && NamePlace(aggregates, name) < 14
            && SharedChain(aggregates)[NamePlace(aggregates, name)].name == name
  {
    var aggregates, k := cell.AggregatesEnvelopes(), NamePlace(cell.AggregatesEnvelopes(), name);
    if k < 4 {
      assert SharedChain(aggregates)[k] == (if aggregates then AGGREGATE_HEAD else INDEPENDENT_HEAD)[k];
    } else {
      assert SharedChain(aggregates)[k] == SHARED_TAIL[k - 4];
    }
  }

  /** Every timestamp of the direct path. */
  predicate WholeDirect(j: Joined) {
    {SCHED, COHORT_SEAL, CLIENT_SEND, QUEUE_START, COMPUTE_START, COMPUTE_END, CLIENT_RECV} <= j.presence
  }

  /** Every timestamp there is. */
  ghost predicate WholeShared(j: Joined) {
    forall s: Stage :: s in j.presence
  }

  /** From the client's send to its completion. */
  function Path(at: Times): int
    requires CLIENT_SEND in at && CLIENT_RECV in at
  {
    at[CLIENT_RECV] - at[CLIENT_SEND]
  }

  /** What the adapter spends unpacking and packing. */
  function AtAdapter(at: Times): int
    requires ADAPTER_RECV in at && ADAPTER_DISPATCH in at && ADAPTER_RESULT in at && ADAPTER_SEND in at
  {
    (at[ADAPTER_DISPATCH] - at[ADAPTER_RECV]) + (at[ADAPTER_SEND] - at[ADAPTER_RESULT])
  }

  /* ---- The unnamed spans ---- */

  /** Of a shared chain's spans from the send on, the model leaves two unnamed: the sixth and the eleventh. */
  lemma UnnamedSpans(aggregates: bool, k: nat)
    requires k < 14
    ensures |SharedChain(aggregates)| == 14
    ensures PreCycle(SharedChain(aggregates), k) <==> k < (if aggregates then 1 else 2)
    ensures k >= (if aggregates then 1 else 2) ==> (!SharedChain(aggregates)[k].accounted <==> k == 5 || k == 10)
    ensures k == 5 ==> SharedChain(aggregates)[k] == Span(AdapterUnpack, ADAPTER_RECV, ADAPTER_DISPATCH, false)
    ensures k == 10 ==> SharedChain(aggregates)[k] == Span(ResponsePack, ADAPTER_RESULT, ADAPTER_SEND, false)
  {
    var head := if aggregates then AGGREGATE_HEAD else INDEPENDENT_HEAD;
    assert SharedChain(aggregates)[0] == head[0] && SharedChain(aggregates)[1] == head[1];
    assert SharedChain(aggregates)[2] == head[2];
    if k < 4 {
      assert SharedChain(aggregates)[k] == head[k];
    } else {
      assert SharedChain(aggregates)[k] == SHARED_TAIL[k - 4];
    }
  }

  lemma {:induction false} SharedUnnamed(aggregates: bool, at: Times, n: nat)
    requires n <= 14 == |SharedChain(aggregates)| && Complete(SharedChain(aggregates), at)
    requires ADAPTER_RECV in at && ADAPTER_DISPATCH in at && ADAPTER_RESULT in at && ADAPTER_SEND in at
    ensures Total(SharedChain(aggregates), at, false, n)
         == (if n > 5 then at[ADAPTER_DISPATCH] - at[ADAPTER_RECV] else 0)
            + (if n > 10 then at[ADAPTER_SEND] - at[ADAPTER_RESULT] else 0)
  {
    hide SharedChain, PreCycle;
    if n > 0 {
      SharedUnnamed(aggregates, at, n - 1);
      UnnamedSpans(aggregates, n - 1);
      assert Measured(SharedChain(aggregates)[n - 1], at);
    }
  }

  lemma {:induction false} DirectUnnamed(at: Times, n: nat)
    requires n <= 6 == |DIRECT|
    ensures Total(DIRECT, at, false, n) == 0
  {
    if n > 0 {
      DirectUnnamed(at, n - 1);
      DirectNamed(n - 1);
    }
  }

  /** Of the direct chain the model names every span from the send on. */
  lemma DirectNamed(k: nat)
    requires k < |DIRECT|
    ensures PreCycle(DIRECT, k) || DIRECT[k].accounted
  {
    assert k >= 2 ==> DIRECT[2].start == CLIENT_SEND;
    if k < 2 {
      forall j | 0 <= j <= k ensures DIRECT[j].start != CLIENT_SEND {
      }
    }
  }

  /* ---- What is left over ---- */

  /** What the chain leaves of a whole direct path: nothing. */
  lemma DirectResidual(at: Times)
    requires Complete(DIRECT, at)
    ensures CLIENT_SEND in at && CLIENT_RECV in at && Path(at) - Accounted(DIRECT, at) == 0
  {
    ResidualIsUnnamed(D0, at);
    DirectUnnamed(at, 6);
  }

  /** And of a whole path through the adapter: its unpacking and its packing. */
  lemma SharedResidual(cell: Cell, at: Times)
    requires !cell.UnknownCell? && cell != D0 && Complete(Chain(cell).value, at)
    requires ADAPTER_RECV in at && ADAPTER_DISPATCH in at && ADAPTER_RESULT in at && ADAPTER_SEND in at
    ensures CLIENT_SEND in at && CLIENT_RECV in at && Path(at) - Accounted(Chain(cell).value, at) == AtAdapter(at)
  {
    SharedVisits(cell);
    ResidualIsUnnamed(cell, at);
    UnnamedSpans(cell.AggregatesEnvelopes(), 0);
    hide Chain, SharedChain;
    SharedUnnamed(cell.AggregatesEnvelopes(), at, 14);
  }

  lemma WholeIsComplete(cell: Cell, j: Joined)
    requires !cell.UnknownCell?
    ensures Complete(Chain(cell).value, TimesOf(j)) <==> if cell == D0 then WholeDirect(j) else WholeShared(j)
  {
    var spans := Chain(cell).value;
    if cell == D0 {
      DirectMeasured(j);
    } else {
      SharedVisits(cell);
      SharedSpans(cell.AggregatesEnvelopes());
      SharedOrderIs(cell.AggregatesEnvelopes());
      hide SharedOrder, SharedChain, Chain, Position;
      SharedMeasured(cell.AggregatesEnvelopes(), j);
    }
  }

  lemma DirectMeasured(j: Joined)
    ensures Complete(DIRECT, TimesOf(j)) <==> WholeDirect(j)
  {
    if Complete(DIRECT, TimesOf(j)) {
      assert Measured(DIRECT[0], TimesOf(j)) && Measured(DIRECT[1], TimesOf(j)) && Measured(DIRECT[2], TimesOf(j));
      assert Measured(DIRECT[3], TimesOf(j)) && Measured(DIRECT[4], TimesOf(j)) && Measured(DIRECT[5], TimesOf(j));
    }
  }

  lemma SharedMeasured(aggregates: bool, j: Joined)
    requires |SharedChain(aggregates)| == STAGE_COUNT - 1
    requires forall i :: 0 <= i < STAGE_COUNT - 1 ==>
               && SharedChain(aggregates)[i].start == SharedOrder(aggregates)[i]
               && SharedChain(aggregates)[i].end == SharedOrder(aggregates)[i + 1]
    requires forall s: Stage :: SharedOrder(aggregates)[Position(aggregates, s)] == s
    ensures Complete(SharedChain(aggregates), TimesOf(j)) <==> WholeShared(j)
  {
    hide SharedOrder, SharedChain, Position;
    if Complete(SharedChain(aggregates), TimesOf(j)) {
      forall s: Stage ensures s in j.presence {
        var p := Position(aggregates, s);
        if p == 0 { assert Measured(SharedChain(aggregates)[0], TimesOf(j)); }
        else { assert Measured(SharedChain(aggregates)[p - 1], TimesOf(j)); }
      }
    }
  }

  /* ---- What is named ---- */

  /** At D0 no request is ever named: a whole path's residual is zero. */
  lemma DirectNeverNamed(exp: Expectation, paths: Paths, accounts: map<uint32, CohortAccount>, d: Defect)
    requires exp.cell == D0
    ensures !ConservationDefect(exp, Chain(exp.cell).value, paths, accounts, d)
  {
    hide Total;
    if d.Residual? && d.q in paths && Complete(DIRECT, TimesOf(paths[d.q])) {
      DirectResidual(TimesOf(paths[d.q]));
    }
  }

  /**
   In an A=off cell through the adapter a request is named if and only if it has every timestamp,
   its path takes time, and the adapter's unpacking and packing exceed the tolerated share of it.
   */
  lemma IndependentNamedExactly(exp: Expectation, paths: Paths, accounts: map<uint32, CohortAccount>, q: LogicalRequest)
    requires exp.cell in {F00, F01, F00Seq}
    ensures ConservationDefect(exp, Chain(exp.cell).value, paths, accounts, Residual(q)) <==>
              && q in paths && WholeShared(paths[q])
              && var ts := paths[q].ts;
              && var path, unnamed := ts[CLIENT_RECV] as int - ts[CLIENT_SEND],
                                      (ts[ADAPTER_DISPATCH] as int - ts[ADAPTER_RECV])
                                      + (ts[ADAPTER_SEND] as int - ts[ADAPTER_RESULT]);
              path > 0 && (if unnamed < 0 then -unnamed else unnamed) * exp.toleranceDen > exp.toleranceNum * path
  {
    hide Total, Chain;
    if q in paths {
      WholeIsComplete(exp.cell, paths[q]);
      if WholeShared(paths[q]) { SharedResidual(exp.cell, TimesOf(paths[q])); }
    }
  }

  /**
   What is judged of a cohort whose members share an envelope: the cohort's own unpacking and packing, in
   its makespan.
   */
  lemma CohortNamedExactly(exp: Expectation, paths: Paths, accounts: map<uint32, CohortAccount>, cohort: uint32)
    requires exp.cell.AggregatesEnvelopes() && cohort in accounts
    requires AccountOf(accounts[cohort], Chain(exp.cell).value, paths, cohort)
    requires InOrder(Members(accounts[cohort].order, paths), Chain(exp.cell).value)
    ensures var at := accounts[cohort].at;
            && CLIENT_SEND in at && CLIENT_RECV in at && (forall s: Stage :: s in at)
            && accounts[cohort].interval.makespan == Path(at) && accounts[cohort].residual == AtAdapter(at)
            && (ConservationDefect(exp, Chain(exp.cell).value, paths, accounts, CohortResidual(cohort)) <==>
                  Path(at) > 0 && AtAdapter(at) * exp.toleranceDen > exp.toleranceNum * Path(at))
  {
    hide Total, Chain, CohortTimes, InOrder, Intervals, Coverage.Makespan, Coverage.Instants, Coverage.SumOfSpans;
    var a := accounts[cohort];
    SharedVisits(exp.cell);
    hide SharedChain;
    assert Members(a.order, paths) != [] by { if Members(a.order, paths) == [] { NothingToCollect([]); } }
    CohortTiles(exp.cell, Members(a.order, paths), a.at);
    CompleteHasAll(exp.cell, a.at);
    SharedResidual(exp.cell, a.at);
    MakespanIsPathSpan(exp.cell, Members(a.order, paths), a.at);
    ReportedResidual(a, exp.cell, paths, cohort);
  }

  lemma CompleteHasAll(cell: Cell, at: Times)
    requires !cell.UnknownCell? && cell != D0 && Complete(Chain(cell).value, at)
    ensures forall s: Stage :: s in at
  {
    SharedVisits(cell);
    SharedSpans(cell.AggregatesEnvelopes());
    SharedOrderIs(cell.AggregatesEnvelopes());
    hide SharedOrder, SharedChain, Chain, Position;
    forall s: Stage ensures s in at {
      var aggregates := cell.AggregatesEnvelopes();
      var p := Position(aggregates, s);
      if p == 0 { assert Measured(SharedChain(aggregates)[0], at); }
      else { assert Measured(SharedChain(aggregates)[p - 1], at); }
    }
  }
}
