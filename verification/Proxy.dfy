/**
 The proxy at A=on as a whole: callers, their cohorts, the envelopes that leave and the
 records that are written (internal/proxy/proxy.go, internal/proxy/cohort.go). An event is
 one atomic step of one participant; a run is any sequence of events, and a backend call is
 a step that returns an arbitrary outcome.
 */
module Proxy {
  import opened Identity
  import opened Schema
  import opened Wire
  import opened Sorting
  import opened Envelope
  import opened Formation
  import R = Results

  /** Where a caller of Submit is. Gone(k) wrote record k. */
  datatype Place = Entering | Waiting(f: nat) | Sealing(f: nat) | Gone(k: nat)

  datatype Caller = Caller(member: LogicalRequest, payload: Bytes, recvAt: int64, at: Place, joined: Option<nat>)

  /** A record the proxy wrote: f is the formation that answered, if one did, and result what its caller was given. */
  datatype Emitted = Emitted(caller: nat, f: Option<nat>, fanoutAt: int64, status: Status, result: Option<R.Answer>,
                             rec: Record)

  /** An envelope on its way: whose cohort it carries, and which of the builder's ids it was given. */
  datatype Departure = Departure(f: nat, mint: nat)

  datatype World = World(
    cfg: Config,
    reg: Registry,
    callers: seq<Caller>,
    admitter: map<(nat, nat), nat>,   // which caller's join filled ordinal o of formation f
    minted: nat,
    sent: seq<Departure>,
    emitted: seq<Emitted>,
    clock: int64)

  datatype Event =
    | Submit(member: LogicalRequest, payload: Bytes, now: int64)
    | Enter(c: nat, now: int64)
    | FireDeadline(f: nat)
    | ExpireDeadline(f: nat)
    | CloseProxy
    | Assemble(c: nat, now: int64, rest: nat)
    | Answer(c: nat, reply: Reply, now: int64)
    | Wake(c: nat, now: int64)
    | Leave(c: nat, timedOut: bool)

  function Start(cfg: Config): World {
    World(cfg, Registry(cfg.targetB, [], map[], false), [], map[], 0, [], [], 0)
  }

  /* ---- Records ---- */

  /** write's part of every proxy record. */
  function Written(rec: Record, member: LogicalRequest, payload: Bytes, status: Status): Record {
    rec.(emitter := EMITTER_PROXY, cohort := member.cohort, ordinal := member.ordinal,
         logicalBytes := |payload| % TWO_32, status := status)
  }

  /** recordArrival. */
  function ArrivalRecord(member: LogicalRequest, payload: Bytes, recvAt: int64, status: Status): Record {
    Written(EMPTY_RECORD.SetStage(PROXY_RECV, recvAt), member, payload, status)
  }

  /** The record of an answered member: its own arrival and fan-out, the cohort's seal, send and response. */
  function ReplyRecord(member: LogicalRequest, payload: Bytes, recvAt: int64, env: Envelope, sealAt: int64,
                       sendAt: int64, respRecvAt: int64, fanoutAt: int64, status: Status): Record
  {
    Written(EMPTY_RECORD.(envelopeID := env.envelopeID,
                          envelopeBytes := (env.logicalBytes + env.auxiliaryBytes) % TWO_32)
              .SetStage(PROXY_RECV, recvAt).SetStage(COHORT_SEAL, sealAt).SetStage(PROXY_SEND, sendAt)
              .SetStage(PROXY_RESP_RECV, respRecvAt).SetStage(PROXY_FANOUT, fanoutAt),
            member, payload, status)
  }

  /* ---- Steps ---- */

  function SetCaller(w: World, c: nat, caller: Caller): World
    requires c < |w.callers|
  {
    w.(callers := w.callers[c := caller])
  }

  /** The caller returns, leaving one record behind. */
  function Depart(w: World, c: nat, f: Option<nat>, fanoutAt: int64, status: Status, result: Option<R.Answer>,
                  rec: Record): World
    requires c < |w.callers|
  {
    SetCaller(w, c, w.callers[c].(at := Gone(|w.emitted|)))
      .(emitted := w.emitted + [Emitted(c, f, fanoutAt, status, result, rec)])
  }

  function DepartUnanswered(w: World, c: nat, status: Status): World
    requires c < |w.callers|
  {
    var caller := w.callers[c];
    Depart(w, c, None, 0, status, None, ArrivalRecord(caller.member, caller.payload, caller.recvAt, status))
  }

  /** The formation a caller waits in or seals, found in the registry. */
  predicate Inside(w: World, c: nat) {
    && c < |w.callers|
    && match w.callers[c].at
       case Waiting(f) => f < |w.reg.formations|
       case Sealing(f) => f < |w.reg.formations|
       case _ => false
  }

  function Own(w: World, c: nat): Formation
    requires Inside(w, c)
  {
    w.reg.formations[w.callers[c].at.f]
  }

  ghost predicate Enabled(w: World, e: Event) {
    match e
    case Submit(_, _, now) => now >= w.clock
    case Enter(c, now) => c < |w.callers| && w.callers[c].at.Entering? && now >= w.clock && w.reg.InRange()
    case FireDeadline(f) => f < |w.reg.formations| && w.reg.formations[f].deadline == Armed
    case ExpireDeadline(f) => f < |w.reg.formations| && w.reg.formations[f].deadline == Fired
    case CloseProxy => true
    case Assemble(c, now, rest) =>
      && Inside(w, c) && w.callers[c].at.Sealing? && now >= w.clock
      && Own(w, c).sealer == Assembling && Own(w, c).targetB <= TWO_32
      && PayloadBytes(AssembledPayloads(Own(w, c))) <= rest < TWO_63
    case Answer(c, reply, now) =>
      && reply != Unanswered && Inside(w, c) && w.callers[c].at.Sealing?
      && now >= w.clock && Own(w, c).sealer == Sending
    case Wake(c, now) =>
      && Inside(w, c) && w.callers[c].at.Waiting? && now >= w.clock && Own(w, c).Done()
      && (Own(w, c).terminal.None? ==> Own(w, c).env.Some?)
    case Leave(c, _) => Inside(w, c) && w.callers[c].at.Waiting? && !Own(w, c).Done()
  }

  function EnterStep(w: World, c: nat, now: int64): World
    requires c < |w.callers| && w.reg.InRange()
  {
    var caller := w.callers[c];
    var (q, joined) := Join(w.reg, caller.member, caller.payload, now);
    var v := w.(reg := q, clock := now);
    match joined
    case Turned(_) => DepartUnanswered(v, c, STATUS_ERROR)
    case Held(f) =>
      SetCaller(v, c, caller.(at := Waiting(f), joined := Some(f)))
        .(admitter := w.admitter[(f, caller.member.ordinal) := c])
    case Completed(f) =>
      SetCaller(v, c, caller.(at := Sealing(f), joined := Some(f)))
        .(admitter := w.admitter[(f, caller.member.ordinal) := c])
  }

  /** What the builder makes of a complete cohort. */
  ghost function BuilderResult(w: World, f: nat, now: int64, rest: nat): Built
    requires f < |w.reg.formations| && w.reg.formations[f].targetB <= TWO_32
    requires PayloadBytes(AssembledPayloads(w.reg.formations[f])) <= rest < TWO_63
  {
    var F := w.reg.formations[f];
    Aggregated(w.cfg, (w.minted + 1) % TWO_64, AssembledMembers(F), AssembledPayloads(F), F.sealAt, now, rest)
  }

  ghost function AssembleStep(w: World, c: nat, now: int64, rest: nat): World
    requires Enabled(w, Assemble(c, now, rest))
  {
    var f := w.callers[c].at.f;
    var built := BuilderResult(w, f, now, rest);
    var v := w.(reg := Assembled(w.reg, f, built, now), minted := w.minted + 1, clock := now);
    if built.Sent? then v.(sent := w.sent + [Departure(f, w.minted + 1)])
    else SetCaller(v, c, w.callers[c].(at := Waiting(f)))
  }

  /** memberResult of the cohort's response: what a member is given. */
  function ResultFor(reply: Reply, member: LogicalRequest): Option<R.Answer> {
    if reply.Response? then R.MemberResult(reply.results, member) else None
  }

  /** The status of an answered member's record: its own result's, and an error where it has none. */
  function ResultStatus(result: Option<R.Answer>): Status {
    if result.Some? && result.value.ok then STATUS_OK else STATUS_ERROR
  }

  function WakeStep(w: World, c: nat, now: int64): World
    requires c < |w.callers| && w.callers[c].at.Waiting? && w.callers[c].at.f < |w.reg.formations|
    requires var F := w.reg.formations[w.callers[c].at.f]; F.terminal.None? ==> F.env.Some?
  {
    var f := w.callers[c].at.f;
    var F := w.reg.formations[f];
    if F.terminal.Some? then DepartUnanswered(w, c, STATUS_ERROR)
    else
      var caller := w.callers[c];
      var result := ResultFor(F.reply, caller.member);
      var status := ResultStatus(result);
      Depart(w.(clock := now), c, Some(f), now, status, result,
             ReplyRecord(caller.member, caller.payload, caller.recvAt, F.env.value, F.sealAt, F.sendAt, F.respRecvAt,
                         now, status))
  }

  ghost function Next(w: World, e: Event): World
    requires Enabled(w, e)
  {
    match e
    case Submit(member, payload, now) =>
      w.(callers := w.callers + [Caller(member, payload, now, Entering, None)], clock := now)
    case Enter(c, now) => EnterStep(w, c, now)
    case FireDeadline(f) => w.(reg := Fire(w.reg, f))
    case ExpireDeadline(f) => w.(reg := Expire(w.reg, f))
    case CloseProxy => w.(reg := Close(w.reg))
    case Assemble(c, now, rest) => AssembleStep(w, c, now, rest)
    case Answer(c, reply, now) =>
      var f := w.callers[c].at.f;
      SetCaller(w.(reg := Answered(w.reg, f, reply, now), clock := now), c, w.callers[c].(at := Waiting(f)))
    case Wake(c, now) => WakeStep(w, c, now)
    case Leave(c, timedOut) => DepartUnanswered(w, c, if timedOut then STATUS_TIMEOUT else STATUS_ERROR)
  }

  /** The world after a schedule; an event that is not enabled does not happen. */
  ghost function Exec(w: World, events: seq<Event>): World
    decreases |events|
  {
    if events == [] then w
    else Exec(if Enabled(w, events[0]) then Next(w, events[0]) else w, events[1..])
  }

  /* ---- The invariant ---- */

  ghost predicate CallersOk(w: World) {
    forall c :: 0 <= c < |w.callers| ==> CallerOk(w, c)
  }

  /** Where a caller is agrees with what its join did and with its formation. */
  ghost predicate CallerOk(w: World, c: nat)
    requires c < |w.callers|
  {
    var caller := w.callers[c];
    && caller.recvAt <= w.clock
    && (caller.at.Gone? ==> caller.at.k < |w.emitted| && w.emitted[caller.at.k].caller == c)
    && match caller.joined
       case None => caller.at.Entering? || caller.at.Gone?
       case Some(f) =>
         && f < |w.reg.formations| && !w.reg.formations[f].Marker()
         && w.reg.formations[f].cohort == caller.member.cohort && caller.member.ordinal < w.cfg.targetB
         && (f, caller.member.ordinal) in w.admitter && w.admitter[(f, caller.member.ordinal)] == c
         && (caller.at == Waiting(f) || caller.at.Gone?
             || (caller.at == Sealing(f) && w.reg.formations[f].sealed && !w.reg.formations[f].Done()))
  }

  /** A sealed cohort not yet answered has exactly one caller at work on it. */
  ghost predicate SealersOk(w: World) {
    && (forall c, d :: 0 <= c < d < |w.callers| && w.callers[c].at.Sealing? && w.callers[d].at.Sealing? ==>
          w.callers[c].at.f != w.callers[d].at.f)
    && (forall f :: 0 <= f < |w.reg.formations| && w.reg.formations[f].sealed && !w.reg.formations[f].Done() ==>
          HasSealer(w, f))
  }

  ghost predicate HasSealer(w: World, f: nat) {
    exists c :: 0 <= c < |w.callers| && w.callers[c].at == Sealing(f)
  }

  /** The admission history names callers that joined. */
  ghost predicate AdmitterOk(w: World) {
    forall f: nat, o: nat :: (f, o) in w.admitter ==>
      && w.admitter[(f, o)] < |w.callers|
      && w.callers[w.admitter[(f, o)]].joined == Some(f) && w.callers[w.admitter[(f, o)]].member.ordinal == o
  }

  /** The slots a formation still holds are its admission history. */
  ghost predicate SlotsOk(w: World) {
    forall f: nat, o: nat :: f < |w.reg.formations| && o < |w.reg.formations[f].slots| ==>
      var slot := w.reg.formations[f].slots[o];
      && (slot.Admitted? <==> (f, o) in w.admitter)
      && (slot.Admitted? ==> w.admitter[(f, o)] < |w.callers| && slot.payload == w.callers[w.admitter[(f, o)]].payload)
  }

  /** An expired cohort's cause lists exactly the ordinals never admitted: at least one, and not all. */
  ghost predicate CausesOk(w: World) {
    forall f :: 0 <= f < |w.reg.formations| ==> CauseOk(w, f)
  }

  ghost predicate CauseOk(w: World, f: nat)
    requires f < |w.reg.formations|
  {
    match w.reg.formations[f].terminal
    case Some(Expired(absent)) =>
      && Increasing(absent) && absent != []
      && (forall o: nat :: o in absent <==> o < w.cfg.targetB && (f, o) !in w.admitter)
      && (exists o: nat :: o < w.cfg.targetB && (f, o) in w.admitter)
    case _ => true
  }

  /** Under one non-decreasing clock, arrivals precede the seal, the seal the send, the send the response. */
  ghost predicate TimesOk(w: World) {
    && (forall f :: 0 <= f < |w.reg.formations| && w.reg.formations[f].sealed ==> TimeOk(w.reg.formations[f], w.clock))
    && (forall f: nat, o: nat :: (f, o) in w.admitter && f < |w.reg.formations| && w.reg.formations[f].sealed ==>
          w.admitter[(f, o)] < |w.callers| && w.callers[w.admitter[(f, o)]].recvAt <= w.reg.formations[f].sealAt)
  }

  ghost predicate TimeOk(F: Formation, clock: int64) {
    && F.sealAt <= clock
    && (F.env.Some? ==> F.sealAt <= F.sendAt <= clock)
    && (F.env.Some? && F.sealer == Over ==> F.sendAt <= F.respRecvAt <= clock)
  }

  /** The envelope of a cohort: ordinal i at place i, with the payload of the join that admitted it. */
  ghost predicate Carries(w: World, f: nat, env: Envelope)
    requires f < |w.reg.formations|
  {
    var F := w.reg.formations[f];
    && env == Base(w.cfg, env.envelopeID).(
                cohort := F.cohort, expectedMembers := w.cfg.targetB % TWO_32, aggregate := true,
                sentAt := F.sendAt, seal := Some(F.sealAt as int), requests := env.requests,
                logicalBytes := env.logicalBytes, auxiliaryBytes := env.auxiliaryBytes)
    && |env.requests| == w.cfg.targetB
    && forall i :: 0 <= i < w.cfg.targetB ==>
         && i < TWO_32 && (f, i) in w.admitter && w.admitter[(f, i)] < |w.callers|
         && env.requests[i] == MemberOf(LogicalRequest(F.cohort, i), w.callers[w.admitter[(f, i)]].payload)
  }

  ghost predicate EnvelopesOk(w: World) {
    forall f :: 0 <= f < |w.reg.formations| && w.reg.formations[f].env.Some? ==>
      Carries(w, f, w.reg.formations[f].env.value)
  }

  /** The sends so far: one per formation that has an envelope, each with its own id. */
  ghost predicate SentOk(w: World) {
    && (forall f :: 0 <= f < |w.reg.formations| && w.reg.formations[f].env.Some? ==> HasSend(w, f))
    && (forall k :: 0 <= k < |w.sent| ==>
          && w.sent[k].f < |w.reg.formations| && w.reg.formations[w.sent[k].f].env.Some?
          && w.reg.formations[w.sent[k].f].env.value.envelopeID == w.sent[k].mint % TWO_64
          && 0 < w.sent[k].mint <= w.minted)
    && (forall j, k :: 0 <= j < k < |w.sent| ==> w.sent[j].f != w.sent[k].f && w.sent[j].mint < w.sent[k].mint)
  }

  ghost predicate HasSend(w: World, f: nat) {
    exists k :: 0 <= k < |w.sent| && w.sent[k].f == f
  }

  ghost predicate EmittedOk(w: World) {
    && (forall k :: 0 <= k < |w.emitted| ==> RecordOk(w, k))
    && (forall j, k :: 0 <= j < k < |w.emitted| ==> w.emitted[j].caller != w.emitted[k].caller)
  }

  /** Every record says what happened to its caller, and nothing else. */
  ghost predicate RecordOk(w: World, k: nat)
    requires k < |w.emitted|
  {
    var e := w.emitted[k];
    && e.caller < |w.callers| && w.callers[e.caller].at == Gone(k)
    && var caller := w.callers[e.caller]; match e.f
       case None =>
         && e.rec == ArrivalRecord(caller.member, caller.payload, caller.recvAt, e.status) && e.status != STATUS_OK
         && e.result.None?
       case Some(f) =>
         && caller.joined == Some(f) && f < |w.reg.formations| && Replied(w.reg.formations[f], caller, e, w.clock)
  }

  /** The record of a caller its formation answered. */
  ghost predicate Replied(F: Formation, caller: Caller, e: Emitted, clock: int64) {
    && F.sealed && F.sealer == Over && F.env.Some? && F.respRecvAt <= e.fanoutAt <= clock
    && e.result == ResultFor(F.reply, caller.member) && e.status == ResultStatus(e.result)
    && e.rec == ReplyRecord(caller.member, caller.payload, caller.recvAt, F.env.value, F.sealAt, F.sendAt,
                            F.respRecvAt, e.fanoutAt, e.status)
  }

  /** What the callers, the history and the records say about the formations, whatever the registry names. */
  ghost predicate History(w: World) {
    && CallersOk(w) && SealersOk(w) && AdmitterOk(w) && SlotsOk(w) && CausesOk(w)
    && TimesOk(w) && EnvelopesOk(w) && SentOk(w) && EmittedOk(w)
  }

  ghost predicate WInv(w: World) {
    && w.cfg.Valid() && w.reg.targetB == w.cfg.targetB && Inv(w.reg) && History(w)
  }

  lemma StartOk(cfg: Config)
    requires cfg.Valid()
    ensures WInv(Start(cfg))
  {
  }
}
