/**
 Who writes which timestamp: the stages the proxy and the adapter put on their records
 (internal/proxy/proxy.go, internal/adapter/adapter.go) are the ones the schema says they own
 (internal/events/schema.go).
 */
module Owners {
  import opened Identity
  import opened Schema
  import opened Chains
  import opened Envelope
  import opened Proxy
  import opened ProxyRuns
  import Findings
  import R = Results

  /** The record carries no stage but its writer's own. */
  ghost predicate OnlyOwn(cell: Cell, rec: Record) {
    forall s: Stage :: rec.Has(s) ==> s in OwnedStages(cell, rec.emitter)
  }

  /** The record carries all its writer's own stages and no other. */
  ghost predicate AllOwn(cell: Cell, rec: Record) {
    forall s: Stage :: rec.Has(s) <==> s in OwnedStages(cell, rec.emitter)
  }

  lemma ReplyOwns(cell: Cell, member: LogicalRequest, payload: Bytes, recvAt: int64, env: Envelope, sealAt: int64,
                  sendAt: int64, respRecvAt: int64, fanoutAt: int64, status: Status)
    requires cell.AggregatesEnvelopes()
    ensures var rec := ReplyRecord(member, payload, recvAt, env, sealAt, sendAt, respRecvAt, fanoutAt, status);
            AllOwn(cell, rec) && rec.Has(COHORT_SEAL)
  {
    hide ReplyRecord, OwnedStages, MaskHas;
    ReplyStages(member, payload, recvAt, env, sealAt, sendAt, respRecvAt, fanoutAt, status);
    forall s: Stage { Findings.SharedOwned(cell, s); }
  }

  lemma ArrivalOwns(cell: Cell, member: LogicalRequest, payload: Bytes, recvAt: int64, status: Status)
    requires cell != D0 && !cell.UnknownCell?
    ensures var rec := ArrivalRecord(member, payload, recvAt, status); OnlyOwn(cell, rec) && !rec.Has(COHORT_SEAL)
  {
    hide ArrivalRecord, OwnedStages, MaskHas;
    ArrivalStages(member, payload, recvAt, status);
    Findings.SharedOwned(cell, PROXY_RECV);
  }

  /** The adapter's record of a member carries exactly the stages the adapter owns, in every cell that has one. */
  lemma AdapterOwns(cell: Cell, a: R.Answer, env: Envelope, recvAt: int64, sendAt: int64, evidence: Dispatch,
                    bytes: uint32)
    requires cell != D0 && !cell.UnknownCell?
    ensures AllOwn(cell, R.AdapterRecord(a, env, recvAt, sendAt, evidence, bytes))
  {
    hide R.AdapterRecord, OwnedStages, MaskHas;
    R.AdapterStages(a, env, recvAt, sendAt, evidence, bytes);
    forall s: Stage { Findings.SharedOwned(cell, s); }
  }

  /**
   In every run of the proxy, no record carries a stage of another's; a record with a seal carries
   every stage the proxy owns, and one without carries its arrival.
   */
  lemma ProxyWritesItsOwn(cfg: Config, events: seq<Event>, k: nat)
    requires cfg.Valid() && cfg.cell.AggregatesEnvelopes() && k < |Reached(cfg, events).emitted|
    ensures var rec := Reached(cfg, events).emitted[k].rec;
            && rec.emitter == EMITTER_PROXY && OnlyOwn(cfg.cell, rec) && rec.Has(PROXY_RECV)
            && (rec.Has(COHORT_SEAL) ==> AllOwn(cfg.cell, rec))
  {
    ReachedOk(cfg, events);
    var w := Reached(cfg, events);
    hide Reached, OnlyOwn, AllOwn;
    RecordOwns(cfg.cell, w, k);
  }

  lemma RecordOwns(cell: Cell, w: World, k: nat)
    requires WInv(w) && cell.AggregatesEnvelopes() && k < |w.emitted|
    ensures var rec := w.emitted[k].rec;
            && rec.emitter == EMITTER_PROXY && OnlyOwn(cell, rec) && rec.Has(PROXY_RECV)
            && (rec.Has(COHORT_SEAL) ==> AllOwn(cell, rec))
  {
    assert RecordOk(w, k);
    hide WInv, ReplyRecord, ArrivalRecord, OwnedStages;
    var e := w.emitted[k];
    var caller := w.callers[e.caller];
    match e.f
    case None =>
      ArrivalOwns(cell, caller.member, caller.payload, caller.recvAt, e.status);
      ArrivalStages(caller.member, caller.payload, caller.recvAt, e.status);
    case Some(f) =>
      var F := w.reg.formations[f];
      ReplyOwns(cell, caller.member, caller.payload, caller.recvAt, F.env.value, F.sealAt, F.sendAt, F.respRecvAt,
                e.fanoutAt, e.status);
      ReplyStages(caller.member, caller.payload, caller.recvAt, F.env.value, F.sealAt, F.sendAt, F.respRecvAt,
                  e.fanoutAt, e.status);
  }
}
