/**
 Safety of the proxy over whole runs (internal/proxy/proxy.go, internal/proxy/cohort.go):
 the invariant holds after any schedule, and what it says to a reader of the evidence.
 */
module ProxyRuns {
  import opened Identity
  import opened Schema
  import opened Wire
  import opened Envelope
  import opened Formation
  import opened Proxy
  import opened ProxySteps
  import R = Results

  /* ---- Entering ---- */

  lemma OpenKeepsHistory(w: World, cohort: uint32, now: int64)
    requires History(w) && now >= w.clock
    ensures History(w.(reg := Opened(w.reg, cohort), clock := now))
  {
    hide History;
    ExtendKeeps(w, w.(reg := Opened(w.reg, cohort), clock := now));
  }

  lemma FailKeepsHistory(w: World, f: nat, cause: Cause)
    requires History(w) && f < |w.reg.formations| && w.reg.formations[f].Open()
    requires cause != AlreadySealed && !cause.Expired?
    ensures History(w.(reg := w.reg.Put(f, w.reg.formations[f].Fail(cause))))
  {
    hide History;
    ExtendKeeps(w, w.(reg := w.reg.Put(f, w.reg.formations[f].Fail(cause))));
  }

  lemma TurnedKeeps(w: World, c: nat)
    requires History(w) && c < |w.callers| && w.callers[c].at.Entering?
    ensures History(DepartUnanswered(w, c, STATUS_ERROR))
  {
    hide History, ArrivalRecord;
    var caller := w.callers[c];
    DepartKeeps(w, c, None, 0, STATUS_ERROR, None,
                ArrivalRecord(caller.member, caller.payload, caller.recvAt, STATUS_ERROR));
  }

  lemma EnterKeeps(w: World, c: nat, now: int64)
    requires WInv(w) && Enabled(w, Enter(c, now))
    ensures History(EnterStep(w, c, now))
  {
    hide History, Inv, ArrivalRecord;
    var caller := w.callers[c];
    var member := caller.member;
    if w.reg.closed {
      ExtendKeeps(w, w.(clock := now));
      TurnedKeeps(w.(clock := now), c);
    } else {
      OpenedShape(w.reg, member.cohort);
      var w1 := w.(reg := Opened(w.reg, member.cohort), clock := now);
      OpenKeepsHistory(w, member.cohort, now);
      var f := w1.reg.forming[member.cohort];
      var F := w1.reg.formations[f];
      if F.terminal.Some? {
        TurnedKeeps(w1, c);
      } else if member.ordinal >= F.targetB {
        FailKeepsHistory(w1, f, OutOfRange(member.ordinal));
        TurnedKeeps(w1.(reg := w1.reg.Put(f, F.Fail(OutOfRange(member.ordinal)))), c);
      } else if F.slots[member.ordinal].Admitted? {
        FailKeepsHistory(w1, f, Duplicate(member.ordinal));
        TurnedKeeps(w1.(reg := w1.reg.Put(f, F.Fail(Duplicate(member.ordinal)))), c);
      } else {
        var G := F.(slots := F.slots[member.ordinal := Admitted(caller.payload)], arrived := F.arrived + 1);
        if G.arrived < G.targetB {
          AdmittanceKeeps(w1, c, f, G);
        } else {
          var H := G.(sealAt := now, sealed := true, deadline := Stop(G.deadline), sealer := Assembling);
          AdmittanceKeeps(w1, c, f, H);
          var v := JoinedBy(w1, c, f, H);
          ExtendKeeps(v, v.(reg := v.reg.Append(SealedAlready(F.cohort, F.targetB))));
        }
      }
    }
  }

  /* ---- Deadlines and Close ---- */

  /** The expiry of an open formation blames exactly the ordinals never admitted, and at least one. */
  lemma ExpiryCause(w: World, f: nat)
    requires WInv(w) && f < |w.reg.formations| && w.reg.formations[f].Open()
    ensures CauseOk(w.(reg := w.reg.Put(f, w.reg.formations[f].Fail(Expired(Absent(w.reg.formations[f].slots))))), f)
  {
    hide CallersOk, TimesOk, EnvelopesOk, SentOk, EmittedOk, SealersOk, CausesOk;
    var F := w.reg.formations[f];
    assert Shape(w.reg, f);
    var absent := Absent(F.slots);
    CountFull(F.slots);
    var o :| 0 <= o < |F.slots| && F.slots[o].Empty?;
    assert o in absent;
    CountSome(F.slots);
    var a :| 0 <= a < |F.slots| && F.slots[a].Admitted?;
    assert (f, a) in w.admitter;
    assert forall p: nat :: p in absent <==> p < w.cfg.targetB && (f, p) !in w.admitter;
  }

  lemma ExpireKeepsHistory(w: World, f: nat)
    requires WInv(w) && Enabled(w, ExpireDeadline(f))
    ensures History(w.(reg := Expire(w.reg, f)))
  {
    hide History, Inv;
    var F := w.reg.formations[f];
    if F.Open() {
      ExpiryCause(w, f);
    }
    ExtendKeeps(w, w.(reg := Expire(w.reg, f)));
  }

  /* ---- The sealing member ---- */

  /** A complete cohort is never refused by the builder, and its envelope carries what was admitted. */
  lemma AssembledIsSent(w: World, f: nat, now: int64, rest: nat)
    requires WInv(w) && f < |w.reg.formations| && w.reg.formations[f].sealer == Assembling
    requires w.reg.formations[f].targetB <= TWO_32
    requires PayloadBytes(AssembledPayloads(w.reg.formations[f])) <= rest < TWO_63
    ensures BuilderResult(w, f, now, rest).Sent?
    ensures var env := BuilderResult(w, f, now, rest).env;
            var G := w.reg.formations[f].(sendAt := now, env := Some(env), sealer := Sending);
            Carries(w.(reg := w.reg.Put(f, G)), f, env)
            && env.envelopeID == (w.minted + 1) % TWO_64
            && w.reg.formations[f].sealed && w.reg.formations[f].env.None?
  {
    hide CallersOk, TimesOk, EnvelopesOk, SentOk, EmittedOk, SealersOk, CausesOk, Uid, Aggregated, PayloadBytes;
    SealedIsComplete(w.reg, f);
    CompleteIsSent(w.cfg, (w.minted + 1) % TWO_64, w.reg.formations[f], now, rest);
  }

  lemma AssembleKeeps(w: World, c: nat, now: int64, rest: nat)
    requires WInv(w) && Enabled(w, Assemble(c, now, rest))
    ensures WInv(AssembleStep(w, c, now, rest))
  {
    hide History, Inv;
    var f := w.callers[c].at.f;
    var w1 := w.(clock := now);
    ExtendKeeps(w, w1);
    AssembledIsSent(w1, f, now, rest);
    var env := BuilderResult(w, f, now, rest).env;
    SendKeeps(w1, f, env);
    AssembledKeeps(w.reg, f, env, now);
  }

  lemma AnsweredKeepsAll(w: World, c: nat, reply: Reply, now: int64)
    requires WInv(w) && Enabled(w, Answer(c, reply, now))
    ensures WInv(Next(w, Answer(c, reply, now)))
  {
    hide History, Inv;
    var f := w.callers[c].at.f;
    var w1 := w.(clock := now);
    ExtendKeeps(w, w1);
    assert Own(w, c).env.Some? && Own(w, c).terminal.None? && Own(w, c).closes == 0 by {
      SendingShape(w.reg, f);
    }
    AnswerKeeps(w1, c, reply);
    AnsweredKeeps(w.reg, f, reply, now);
  }

  lemma SendingShape(r: Registry, f: nat)
    requires Inv(r) && f < |r.formations| && r.formations[f].sealer == Sending
    ensures r.formations[f].env.Some? && r.formations[f].terminal.None? && r.formations[f].closes == 0
  {
    assert Shape(r, f);
  }

  /* ---- Leaving ---- */

  lemma WakeKeeps(w: World, c: nat, now: int64)
    requires WInv(w) && Enabled(w, Wake(c, now))
    ensures WInv(WakeStep(w, c, now))
  {
    hide ReplyRecord, ArrivalRecord, SlotsOk, CausesOk, SentOk, EnvelopesOk, EmittedOk, AdmitterOk, SealersOk;
    var caller := w.callers[c];
    var f := caller.at.f;
    var F := w.reg.formations[f];
    assert Shape(w.reg, f) && CallerOk(w, c);
    if F.terminal.Some? {
      DepartKeeps(w, c, None, 0, STATUS_ERROR, None,
                  ArrivalRecord(caller.member, caller.payload, caller.recvAt, STATUS_ERROR));
    } else {
      var w1 := w.(clock := now);
      ExtendKeeps(w, w1);
      var result := ResultFor(F.reply, caller.member);
      var status := ResultStatus(result);
      DepartKeeps(w1, c, Some(f), now, status, result,
                  ReplyRecord(caller.member, caller.payload, caller.recvAt, F.env.value, F.sealAt, F.sendAt,
                              F.respRecvAt, now, status));
    }
  }

  lemma LeaveKeeps(w: World, c: nat, timedOut: bool)
    requires WInv(w) && Enabled(w, Leave(c, timedOut))
    ensures WInv(Next(w, Leave(c, timedOut)))
  {
    hide History, Inv, ArrivalRecord;
    var caller := w.callers[c];
    var status := if timedOut then STATUS_TIMEOUT else STATUS_ERROR;
    DepartKeeps(w, c, None, 0, status, None, ArrivalRecord(caller.member, caller.payload, caller.recvAt, status));
  }

  /** Every step of every participant keeps the invariant. */
  lemma StepKeeps(w: World, e: Event)
    requires WInv(w) && Enabled(w, e)
    ensures WInv(Next(w, e))
  {
    hide History, Inv;
    match e
    case Submit(member, payload, now) =>
      ExtendKeeps(w, Next(w, e));
    case Enter(c, now) =>
      EnterKeeps(w, c, now);
      JoinKeeps(w.reg, w.callers[c].member, w.callers[c].payload, now);
      JoinTarget(w.reg, w.callers[c].member, w.callers[c].payload, now);
    case FireDeadline(f) =>
      FireKeeps(w.reg, f);
      ExtendKeeps(w, Next(w, e));
    case ExpireDeadline(f) =>
      ExpireKeepsHistory(w, f);
      ExpireKeeps(w.reg, f);
    case CloseProxy =>
      ExtendKeeps(w, Next(w, e));
      CloseKeeps(w.reg);
    case Assemble(c, now, rest) =>
      AssembleKeeps(w, c, now, rest);
    case Answer(c, reply, now) =>
      AnsweredKeepsAll(w, c, reply, now);
    case Wake(c, now) =>
      WakeKeeps(w, c, now);
    case Leave(c, timedOut) =>
      LeaveKeeps(w, c, timedOut);
  }

  lemma JoinTarget(r: Registry, member: LogicalRequest, payload: Bytes, now: int64)
    requires Inv(r)
    ensures Join(r, member, payload, now).0.targetB == r.targetB
  {
  }

  lemma {:induction false} RunKeeps(w: World, events: seq<Event>)
    requires WInv(w)
    ensures WInv(Exec(w, events))
    ensures Exec(w, events).cfg == w.cfg
    decreases |events|
  {
    hide WInv;
    if events != [] {
      if Enabled(w, events[0]) {
        StepKeeps(w, events[0]);
        RunKeeps(Next(w, events[0]), events[1..]);
      } else {
        RunKeeps(w, events[1..]);
      }
    }
  }

  /** The world after any schedule of a freshly started proxy. */
  ghost function Reached(cfg: Config, events: seq<Event>): World {
    Exec(Start(cfg), events)
  }

  lemma ReachedOk(cfg: Config, events: seq<Event>)
    requires cfg.Valid()
    ensures WInv(Reached(cfg, events)) && Reached(cfg, events).cfg == cfg
  {
    hide WInv;
    StartOk(cfg);
    RunKeeps(Start(cfg), events);
  }

  /* ---- What leaves ---- */

  function CohortSent(w: World, k: nat): uint32
    requires k < |w.sent| && w.sent[k].f < |w.reg.formations|
  {
    w.reg.formations[w.sent[k].f].cohort
  }

  function EnvelopeSent(w: World, k: nat): Envelope
    requires k < |w.sent| && w.sent[k].f < |w.reg.formations| && w.reg.formations[w.sent[k].f].env.Some?
  {
    w.reg.formations[w.sent[k].f].env.value
  }

  /** Send k of a run carries the whole of one cohort: ordinal i at place i with what its own join brought. */
  ghost predicate CarriesWholeCohort(w: World, k: nat)
    requires k < |w.sent|
  {
    && w.sent[k].f < |w.reg.formations|
    && var F := w.reg.formations[w.sent[k].f];
    && F.sealed && F.env.Some? && |F.env.value.requests| == w.cfg.targetB
    && forall i :: 0 <= i < w.cfg.targetB ==> CarriesMember(w, w.sent[k].f, F.env.value.requests[i], i)
  }

  /** Place i holds ordinal i of the cohort, and the payload of the one caller whose join admitted it. */
  ghost predicate CarriesMember(w: World, f: nat, m: Member, i: nat)
    requires f < |w.reg.formations|
  {
    && m.cohort == w.reg.formations[f].cohort && m.ordinal == i
    && exists c :: 0 <= c < |w.callers| && w.callers[c].joined == Some(f) && w.callers[c].member.ordinal == i
                   && w.callers[c].member.cohort == m.cohort && m.payload == w.callers[c].payload
  }

  /**
   In every run at most one envelope is sent per cohort id, it carries each ordinal exactly
   once with the payload of the join that admitted it, and envelope ids do not repeat until
   the builder's counter wraps.
   */
  lemma OneEnvelopePerCohort(cfg: Config, events: seq<Event>)
    requires cfg.Valid()
    ensures var w := Reached(cfg, events);
            && (forall k :: 0 <= k < |w.sent| ==> CarriesWholeCohort(w, k))
            && (forall j, k :: 0 <= j < k < |w.sent| ==>
                  && CarriesWholeCohort(w, j) && CarriesWholeCohort(w, k)
                  && CohortSent(w, j) != CohortSent(w, k)
                  && (w.minted < TWO_64 ==> EnvelopeSent(w, j).envelopeID != EnvelopeSent(w, k).envelopeID))
  {
    var w := Reached(cfg, events);
    ReachedOk(cfg, events);
    forall k | 0 <= k < |w.sent| ensures CarriesWholeCohort(w, k) {
      SentCarries(w, k);
    }
    forall j, k | 0 <= j < k < |w.sent|
      ensures CarriesWholeCohort(w, j) && CarriesWholeCohort(w, k) && CohortSent(w, j) != CohortSent(w, k)
    {
      SentCarries(w, j);
      SentCarries(w, k);
      assert Shape(w.reg, w.sent[j].f) && Shape(w.reg, w.sent[k].f);
    }
  }

  lemma SentCarries(w: World, k: nat)
    requires WInv(w) && k < |w.sent|
    ensures CarriesWholeCohort(w, k)
  {
    hide TimesOk, SlotsOk, EmittedOk, CausesOk, SealersOk;
    var f := w.sent[k].f;
    assert Shape(w.reg, f);
    var env := w.reg.formations[f].env.value;
    assert Carries(w, f, env);
    forall i | 0 <= i < w.cfg.targetB ensures CarriesMember(w, f, env.requests[i], i) {
      var c := w.admitter[(f, i)];
      assert w.callers[c].joined == Some(f) && CallerOk(w, c);
    }
  }

  /** The adapter accepts every envelope a run sends exactly when no payload in it is empty. */
  lemma SentIsAccepted(cfg: Config, events: seq<Event>, k: nat)
    requires cfg.Valid() && cfg.cell.AggregatesEnvelopes() && cfg.targetB < TWO_32
    requires k < |Reached(cfg, events).sent|
    ensures var w := Reached(cfg, events);
            && w.sent[k].f < |w.reg.formations| && w.reg.formations[w.sent[k].f].env.Some?
            && var env := EnvelopeSent(w, k);
            Accepted(env, cfg) <==> forall i :: 0 <= i < |env.requests| ==> env.requests[i].payload != []
  {
    var w := Reached(cfg, events);
    ReachedOk(cfg, events);
    var f := w.sent[k].f;
    assert Carries(w, f, w.reg.formations[f].env.value);
    CarriedIsAccepted(w, f, w.reg.formations[f].env.value);
  }

  lemma CarriedIsAccepted(w: World, f: nat, env: Envelope)
    requires f < |w.reg.formations| && Carries(w, f, env)
    requires w.cfg.Valid() && w.cfg.cell.AggregatesEnvelopes() && w.cfg.targetB < TWO_32
    ensures Accepted(env, w.cfg) <==> forall i :: 0 <= i < |env.requests| ==> env.requests[i].payload != []
  {
    hide Uid, FirstMemberFault;
    var ordinals := Ordinals(RequestsOf(env.requests));
    assert forall i :: 0 <= i < |ordinals| ==> ordinals[i] == i;
    IdentityIsExact(ordinals);
    NoMemberFault(env.requests, env.cohort);
    assert forall i :: 0 <= i < |env.requests| ==>
      (MemberFault(env.requests[i], env.cohort).None? <==> env.requests[i].payload != []);
    assert ShapeFault(env, w.cfg).None?;
  }

  /* ---- Who closes, who writes ---- */

  /** A caller that waits is always owed a step: its own wake, a deadline, or the one sealing member's next move. */
  lemma SomeoneIsOwed(cfg: Config, events: seq<Event>, c: nat)
    requires cfg.Valid() && c < |Reached(cfg, events).callers| && Reached(cfg, events).callers[c].at.Waiting?
    ensures var w := Reached(cfg, events);
            && Inside(w, c) && Own(w, c).closes <= 1
            && var f := w.callers[c].at.f;
            || Enabled(w, Wake(c, w.clock)) || Enabled(w, FireDeadline(f)) || Enabled(w, ExpireDeadline(f))
            || exists d :: 0 <= d < |w.callers| && w.callers[d].at == Sealing(f)
                           && (w.reg.formations[f].sealer == Assembling || Enabled(w, Answer(d, SendFailed, w.clock)))
  {
    hide SlotsOk, CausesOk, TimesOk, EnvelopesOk, SentOk, EmittedOk, AdmitterOk, PayloadBytes, AssembledPayloads, Exec;
    var w := Reached(cfg, events);
    ReachedOk(cfg, events);
    assert CallerOk(w, c);
    var f := w.callers[c].at.f;
    OneCloserAlways(w.reg, f);
    assert Shape(w.reg, f);
    var F := w.reg.formations[f];
    if F.sealed && !F.Done() {
      assert HasSealer(w, f);
      var d :| 0 <= d < |w.callers| && w.callers[d].at == Sealing(f);
      assert CallerOk(w, d);
    }
  }

  /** After Close no cohort is forming, and none ever forms again. */
  lemma ClosedForGood(cfg: Config, before: seq<Event>, after: seq<Event>)
    requires cfg.Valid()
    ensures var w := Exec(Next(Reached(cfg, before), CloseProxy), after);
            forall f :: 0 <= f < |w.reg.formations| ==> !w.reg.formations[f].Open()
  {
    var v := Next(Reached(cfg, before), CloseProxy);
    ReachedOk(cfg, before);
    StepKeeps(Reached(cfg, before), CloseProxy);
    RunKeeps(v, after);
    StaysClosed(v, after);
    var w := Exec(v, after);
    forall f | 0 <= f < |w.reg.formations| ensures !w.reg.formations[f].Open() {
      assert Shape(w.reg, f);
    }
  }

  lemma {:induction false} StaysClosed(w: World, events: seq<Event>)
    requires w.reg.closed
    ensures Exec(w, events).reg.closed
    decreases |events|
  {
    if events != [] {
      StaysClosed(if Enabled(w, events[0]) then Next(w, events[0]) else w, events[1..]);
    }
  }

  /** What happens to a sealed formation in one step. */
  ghost predicate SealKept(w: World, e: Event, F: Formation, G: Formation, f: nat) {
    && G.slots == F.slots && G.sealAt == F.sealAt && G.cohort == F.cohort && G.sealed
    && (F.env.Some? ==> G.env == F.env && G.sendAt == F.sendAt)
    && (F.Done() ==> G == F.(deadline := G.deadline))
    && (G != F.(deadline := G.deadline) ==> WrittenBySealer(w, e, f))
  }

  predicate WrittenBySealer(w: World, e: Event, f: nat) {
    && (e.Assemble? || e.Answer?) && e.c < |w.callers| && w.callers[e.c].at == Sealing(f)
  }

  lemma JoinLeavesSealed(r: Registry, member: LogicalRequest, payload: Bytes, now: int64, f: nat)
    requires Inv(r) && f < |r.formations| && r.formations[f].sealed
    ensures f < |Join(r, member, payload, now).0.formations|
    ensures Join(r, member, payload, now).0.formations[f] == r.formations[f]
  {
    assert Shape(r, f);
    if member.cohort in r.forming {
      assert Shape(r, r.forming[member.cohort]);
    }
  }

  /**
   From the seal on, a formation belongs to the member that sealed it: any step that changes
   it beyond its timer is that member's own, no step touches its slots or its seal, and the
   instants and envelope it shares are written once.
   */
  lemma OnlyTheSealerWrites(w: World, e: Event, f: nat)
    requires WInv(w) && Enabled(w, e) && f < |w.reg.formations| && w.reg.formations[f].sealed
    ensures f < |Next(w, e).reg.formations|
    ensures SealKept(w, e, w.reg.formations[f], Next(w, e).reg.formations[f], f)
  {
    hide History, Inv, BuilderResult, ReplyRecord, ArrivalRecord, Join, AssembledPayloads, PayloadBytes, Absent,
         Carries, Count;
    SealedShape(w.reg, f);
    match e
    case Enter(c, now) =>
      JoinLeavesSealed(w.reg, w.callers[c].member, w.callers[c].payload, now, f);
    case Assemble(c, now, rest) =>
      SealerSends(w, c, now, rest, f);
    case Answer(c, reply, now) =>
      SealerAnswers(w, c, reply, now, f);
    case _ =>
  }

  lemma SealerSends(w: World, c: nat, now: int64, rest: nat, f: nat)
    requires WInv(w) && Enabled(w, Assemble(c, now, rest)) && f < |w.reg.formations| && w.reg.formations[f].sealed
    ensures var G := Next(w, Assemble(c, now, rest)).reg.formations;
            f < |G| && SealKept(w, Assemble(c, now, rest), w.reg.formations[f], G[f], f)
  {
    hide History, Inv, BuilderResult, ReplyRecord, ArrivalRecord, AssembledPayloads, PayloadBytes, Carries;
    SealedShape(w.reg, f);
    AssembledIsSent(w, w.callers[c].at.f, now, rest);
  }

  lemma SealerAnswers(w: World, c: nat, reply: Reply, now: int64, f: nat)
    requires WInv(w) && Enabled(w, Answer(c, reply, now)) && f < |w.reg.formations| && w.reg.formations[f].sealed
    ensures var G := Next(w, Answer(c, reply, now)).reg.formations;
            f < |G| && SealKept(w, Answer(c, reply, now), w.reg.formations[f], G[f], f)
  {
    hide History, Inv, ReplyRecord, ArrivalRecord, Carries;
    SealedShape(w.reg, f);
    SendingShape(w.reg, w.callers[c].at.f);
  }

  lemma SealedShape(r: Registry, f: nat)
    requires Inv(r) && f < |r.formations| && r.formations[f].sealed
    ensures var F := r.formations[f]; F.terminal.None? && (F.Done() ==> F.sealer == Over)
  {
    assert Shape(r, f);
  }

  /** Whatever follows, a sealed cohort keeps its slots and its seal, and once it has an envelope, that envelope. */
  lemma {:induction false} SealedForever(w: World, events: seq<Event>, f: nat)
    requires WInv(w) && f < |w.reg.formations| && w.reg.formations[f].sealed
    ensures f < |Exec(w, events).reg.formations|
    ensures var F, G := w.reg.formations[f], Exec(w, events).reg.formations[f];
            && G.slots == F.slots && G.sealAt == F.sealAt && G.cohort == F.cohort && G.sealed
            && (F.env.Some? ==> G.env == F.env && G.sendAt == F.sendAt)
            && (F.Done() ==> G == F.(deadline := G.deadline))
    decreases |events|
  {
    hide WInv;
    if events != [] {
      if Enabled(w, events[0]) {
        OnlyTheSealerWrites(w, events[0], f);
        StepKeeps(w, events[0]);
        SealedForever(Next(w, events[0]), events[1..], f);
      } else {
        SealedForever(w, events[1..], f);
      }
    }
  }

  /** A cohort id that was sealed or failed admits nobody again: the arrival is recorded and nothing else changes. */
  lemma JudgedAdmitsNobody(w: World, c: nat, now: int64, f: nat)
    requires WInv(w) && Enabled(w, Enter(c, now)) && f < |w.reg.formations|
    requires w.reg.formations[f].cohort == w.callers[c].member.cohort && !w.reg.formations[f].Open()
    ensures Next(w, Enter(c, now)) == DepartUnanswered(w.(clock := now), c, STATUS_ERROR)
  {
    assert Shape(w.reg, f);
    var own := w.reg.forming[w.callers[c].member.cohort];
    assert Shape(w.reg, own);
  }

  /* ---- What the records say ---- */

  /** The record of an answered member carries exactly the proxy's five stages of an A=on cell. */
  lemma ReplyStages(member: LogicalRequest, payload: Bytes, recvAt: int64, env: Envelope, sealAt: int64,
                    sendAt: int64, respRecvAt: int64, fanoutAt: int64, status: Status)
    ensures var rec := ReplyRecord(member, payload, recvAt, env, sealAt, sendAt, respRecvAt, fanoutAt, status);
            && (forall s: Stage :: rec.Has(s) <==>
                  s in {PROXY_RECV, COHORT_SEAL, PROXY_SEND, PROXY_RESP_RECV, PROXY_FANOUT})
            && rec.ts[PROXY_RECV] == recvAt && rec.ts[COHORT_SEAL] == sealAt && rec.ts[PROXY_SEND] == sendAt
            && rec.ts[PROXY_RESP_RECV] == respRecvAt && rec.ts[PROXY_FANOUT] == fanoutAt
            && rec.envelopeID == env.envelopeID && rec.status == status && rec.Request() == member
            && rec.emitter == EMITTER_PROXY && rec.logicalBytes == |payload| % TWO_32
            && rec.envelopeBytes == (env.logicalBytes + env.auxiliaryBytes) % TWO_32
  {
    var bytes := (env.logicalBytes + env.auxiliaryBytes) % TWO_32;
    var r0 := EMPTY_RECORD.(envelopeID := env.envelopeID, envelopeBytes := bytes);
    var r5 := r0.SetStage(PROXY_RECV, recvAt).SetStage(COHORT_SEAL, sealAt).SetStage(PROXY_SEND, sendAt)
                .SetStage(PROXY_RESP_RECV, respRecvAt).SetStage(PROXY_FANOUT, fanoutAt);
    var rec := ReplyRecord(member, payload, recvAt, env, sealAt, sendAt, respRecvAt, fanoutAt, status);
    assert rec == Written(r5, member, payload, status);
    forall s: Stage
      ensures rec.Has(s) <==> s in {PROXY_RECV, COHORT_SEAL, PROXY_SEND, PROXY_RESP_RECV, PROXY_FANOUT}
    {
      EmptyMask(s);
      assert !r0.Has(s) && (rec.Has(s) <==> r5.Has(s));
    }
  }

  lemma ArrivalStages(member: LogicalRequest, payload: Bytes, recvAt: int64, status: Status)
    ensures var rec := ArrivalRecord(member, payload, recvAt, status);
            && (forall s: Stage :: rec.Has(s) <==> s == PROXY_RECV)
            && rec.ts[PROXY_RECV] == recvAt && rec.envelopeID == 0 && rec.envelopeBytes == 0
            && rec.status == status && rec.Request() == member && rec.emitter == EMITTER_PROXY
            && rec.logicalBytes == |payload| % TWO_32
  {
    var r1 := EMPTY_RECORD.SetStage(PROXY_RECV, recvAt);
    var rec := ArrivalRecord(member, payload, recvAt, status);
    forall s: Stage ensures rec.Has(s) <==> s == PROXY_RECV {
      EmptyMask(s);
      assert !EMPTY_RECORD.Has(s) && (rec.Has(s) <==> r1.Has(s));
    }
  }

  /** The five instants of an answered member never go backwards along its path. */
  ghost predicate InOrder(rec: Record) {
    rec.ts[PROXY_RECV] <= rec.ts[COHORT_SEAL] <= rec.ts[PROXY_SEND] <= rec.ts[PROXY_RESP_RECV] <= rec.ts[PROXY_FANOUT]
  }

  /** The observations that describe the envelope rather than the member. */
  ghost predicate Agree(a: Record, b: Record) {
    && a.envelopeID == b.envelopeID && a.ts[COHORT_SEAL] == b.ts[COHORT_SEAL] && a.ts[PROXY_SEND] == b.ts[PROXY_SEND]
    && a.ts[PROXY_RESP_RECV] == b.ts[PROXY_RESP_RECV]
  }

  /**
   In every run, every record with a seal is in order along the path; two of them from one
   cohort agree on the envelope, its seal, its send and its response, and no request has two;
   from two cohorts they name different envelopes until the builder's counter wraps.
   */
  lemma AnsweredMembersAgree(cfg: Config, events: seq<Event>)
    requires cfg.Valid()
    ensures var w := Reached(cfg, events);
            && (forall k :: 0 <= k < |w.emitted| && w.emitted[k].rec.Has(COHORT_SEAL) ==> InOrder(w.emitted[k].rec))
            && (forall j, k :: 0 <= j < k < |w.emitted| && w.emitted[j].rec.Has(COHORT_SEAL)
                               && w.emitted[k].rec.Has(COHORT_SEAL) ==>
                  && w.emitted[j].rec.Request() != w.emitted[k].rec.Request()
                  && (w.emitted[j].rec.cohort == w.emitted[k].rec.cohort ==> Agree(w.emitted[j].rec, w.emitted[k].rec))
                  && (w.emitted[j].rec.cohort != w.emitted[k].rec.cohort && w.minted < TWO_64 ==>
                        w.emitted[j].rec.envelopeID != w.emitted[k].rec.envelopeID))
  {
    hide WInv;
    var w := Reached(cfg, events);
    ReachedOk(cfg, events);
    forall k | 0 <= k < |w.emitted| && w.emitted[k].rec.Has(COHORT_SEAL) ensures InOrder(w.emitted[k].rec) {
      var f := AnsweredBy(w, k);
    }
    forall j, k | 0 <= j < k < |w.emitted| && w.emitted[j].rec.Has(COHORT_SEAL) && w.emitted[k].rec.Has(COHORT_SEAL)
      ensures w.emitted[j].rec.Request() != w.emitted[k].rec.Request()
      ensures w.emitted[j].rec.cohort == w.emitted[k].rec.cohort ==> Agree(w.emitted[j].rec, w.emitted[k].rec)
      ensures w.emitted[j].rec.cohort != w.emitted[k].rec.cohort && w.minted < TWO_64 ==>
                w.emitted[j].rec.envelopeID != w.emitted[k].rec.envelopeID
    {
      AnsweredPair(w, j, k);
    }
  }

  /** A record with a seal was written for a member of formation f, which answered it. */
  lemma AnsweredBy(w: World, k: nat) returns (f: nat)
    requires WInv(w) && k < |w.emitted| && w.emitted[k].rec.Has(COHORT_SEAL)
    ensures f < |w.reg.formations| && w.emitted[k].caller < |w.callers| && w.reg.formations[f].env.Some?
    ensures var F, rec := w.reg.formations[f], w.emitted[k].rec;
            && !F.Marker() && rec.cohort == F.cohort && rec.Request() == w.callers[w.emitted[k].caller].member
            && rec.envelopeID == F.env.value.envelopeID && rec.ts[COHORT_SEAL] == F.sealAt
            && rec.ts[PROXY_SEND] == F.sendAt && rec.ts[PROXY_RESP_RECV] == F.respRecvAt && InOrder(rec)
            && (f, rec.ordinal) in w.admitter && w.admitter[(f, rec.ordinal)] == w.emitted[k].caller
  {
    hide ReplyRecord, ArrivalRecord, SlotsOk, CausesOk, SealersOk, SentOk, EnvelopesOk, Carries, AdmitterOk;
    var e := w.emitted[k];
    assert RecordOk(w, k) && CallerOk(w, e.caller);
    var caller := w.callers[e.caller];
    if e.f.None? {
      ArrivalStages(caller.member, caller.payload, caller.recvAt, e.status);
    } else {
      f := e.f.value;
      var F := w.reg.formations[f];
      ReplyStages(caller.member, caller.payload, caller.recvAt, F.env.value, F.sealAt, F.sendAt, F.respRecvAt,
                  e.fanoutAt, e.status);
    }
  }

  lemma AnsweredPair(w: World, j: nat, k: nat)
    requires WInv(w) && j < k < |w.emitted| && w.emitted[j].rec.Has(COHORT_SEAL) && w.emitted[k].rec.Has(COHORT_SEAL)
    ensures w.emitted[j].rec.Request() != w.emitted[k].rec.Request()
    ensures w.emitted[j].rec.cohort == w.emitted[k].rec.cohort ==> Agree(w.emitted[j].rec, w.emitted[k].rec)
    ensures w.emitted[j].rec.cohort != w.emitted[k].rec.cohort && w.minted < TWO_64 ==>
              w.emitted[j].rec.envelopeID != w.emitted[k].rec.envelopeID
  {
    hide WInv;
    var f := AnsweredBy(w, j);
    var g := AnsweredBy(w, k);
    FormationsDiffer(w, f, g);
    OneRecordPerCaller(w, j, k);
  }

  lemma OneRecordPerCaller(w: World, j: nat, k: nat)
    requires WInv(w) && j < k < |w.emitted|
    ensures w.emitted[j].caller != w.emitted[k].caller
  {
    hide RecordOk, CallersOk, SealersOk, AdmitterOk, SlotsOk, CausesOk, TimesOk, EnvelopesOk, SentOk, Inv;
  }

  /** Formations that sent are one per cohort, and their envelopes have their own ids. */
  lemma FormationsDiffer(w: World, f: nat, g: nat)
    requires WInv(w) && f < |w.reg.formations| && g < |w.reg.formations|
    requires w.reg.formations[f].env.Some? && w.reg.formations[g].env.Some?
    requires !w.reg.formations[f].Marker() && !w.reg.formations[g].Marker()
    ensures f != g ==> w.reg.formations[f].cohort != w.reg.formations[g].cohort
    ensures f != g && w.minted < TWO_64 ==>
              w.reg.formations[f].env.value.envelopeID != w.reg.formations[g].env.value.envelopeID
  {
    hide CallersOk, SealersOk, AdmitterOk, SlotsOk, CausesOk, TimesOk, EnvelopesOk, EmittedOk, Shape;
    if f != g && w.minted < TWO_64 {
      OwnEnvelope(w, f, g);
    }
  }

  lemma OwnEnvelope(w: World, f: nat, g: nat)
    requires SentOk(w) && f < |w.reg.formations| && g < |w.reg.formations| && f != g
    requires w.reg.formations[f].env.Some? && w.reg.formations[g].env.Some? && w.minted < TWO_64
    ensures w.reg.formations[f].env.value.envelopeID != w.reg.formations[g].env.value.envelopeID
  {
    var a := MintOf(w, f);
    var b := MintOf(w, g);
    if a < b { MintsIncrease(w, a, b); } else { MintsIncrease(w, b, a); }
  }

  /** The send of formation f, and the id it was given while the counter has not wrapped. */
  lemma MintOf(w: World, f: nat) returns (k: nat)
    requires SentOk(w) && f < |w.reg.formations| && w.reg.formations[f].env.Some? && w.minted < TWO_64
    ensures k < |w.sent| && w.sent[k].f == f
    ensures w.reg.formations[f].env.value.envelopeID == w.sent[k].mint
  {
    assert HasSend(w, f);
    k :| 0 <= k < |w.sent| && w.sent[k].f == f;
    assert w.sent[k].mint < TWO_64;
  }

  lemma MintsIncrease(w: World, j: nat, k: nat)
    requires SentOk(w) && j < k < |w.sent|
    ensures w.sent[j].mint < w.sent[k].mint
  {
  }

  /* ---- Whose result it is ---- */

  /** The response lists, in whatever order, one result for each member of the envelope: computed[i] for the i-th. */
  ghost predicate ComputedFor(F: Formation, computed: seq<R.Answer>) {
    && F.env.Some? && F.reply.Response? && multiset(F.reply.results) == multiset(computed)
    && |computed| == |F.env.value.requests|
    && forall i :: 0 <= i < |computed| ==> computed[i].member == R.MemberOfEnvelope(F.env.value.requests[i])
  }

  /** Record k was left by a caller its cohort answered. */
  ghost predicate LeftAnswered(w: World, k: nat, f: nat) {
    && k < |w.emitted| && w.emitted[k].f == Some(f) && f < |w.reg.formations|
    && w.emitted[k].caller < |w.callers|
  }

  /** Place i of the envelope names ordinal i. */
  ghost predicate NamesOrdinal(F: Formation, i: nat)
    requires F.env.Some? && i < |F.env.value.requests|
  {
    i < TWO_32 && R.MemberOfEnvelope(F.env.value.requests[i]) == LogicalRequest(F.cohort, i)
  }

  ghost predicate InPlace(F: Formation, targetB: nat) {
    && F.env.Some? && |F.env.value.requests| == targetB
    && forall i :: 0 <= i < targetB ==> NamesOrdinal(F, i)
  }

  lemma CarriedInPlace(w: World, f: nat)
    requires f < |w.reg.formations| && w.reg.formations[f].env.Some? && Carries(w, f, w.reg.formations[f].env.value)
    ensures InPlace(w.reg.formations[f], w.cfg.targetB)
  {
    hide Base, Uid;
    var F := w.reg.formations[f];
    forall i | 0 <= i < w.cfg.targetB ensures NamesOrdinal(F, i) {
      assert (f, i) in w.admitter && i < TWO_32;
      var payload := w.callers[w.admitter[(f, i)]].payload;
      assert F.env.value.requests[i] == MemberOf(LogicalRequest(F.cohort, i), payload);
    }
  }

  /** The caller's place in the envelope holds what the caller submitted. */
  lemma OwnPlace(w: World, k: nat, f: nat)
    requires WInv(w) && LeftAnswered(w, k, f)
    ensures InPlace(w.reg.formations[f], w.cfg.targetB)
    ensures var (e, F) := (w.emitted[k], w.reg.formations[f]);
            var caller := w.callers[e.caller];
            && caller.member.ordinal < w.cfg.targetB && caller.member.cohort == F.cohort
            && F.env.value.requests[caller.member.ordinal] == MemberOf(caller.member, caller.payload)
            && e.result == ResultFor(F.reply, caller.member) && e.rec.status == e.status == ResultStatus(e.result)
  {
    hide SealersOk, SlotsOk, CausesOk, TimesOk, SentOk, Inv, ReplyRecord, Uid, R.MemberResult, InPlace;
    var e, F := w.emitted[k], w.reg.formations[f];
    var caller := w.callers[e.caller];
    assert RecordOk(w, k) && CallerOk(w, e.caller);
    assert Carries(w, f, F.env.value);
    CarriedInPlace(w, f);
    assert LogicalRequest(F.cohort, caller.member.ordinal) == caller.member;
    ReplyStages(caller.member, caller.payload, caller.recvAt, F.env.value, F.sealAt, F.sendAt, F.respRecvAt, e.fanoutAt,
                e.status);
  }

  /**
   In every run an answered caller is given the result computed for its own member, whose place
   in the envelope held the payload that caller submitted, whatever order the response lists the
   results in; and its record's status is that result's.
   */
  lemma AnsweredWithItsOwn(cfg: Config, events: seq<Event>, k: nat, f: nat, computed: seq<R.Answer>)
    requires cfg.Valid() && LeftAnswered(Reached(cfg, events), k, f)
    requires ComputedFor(Reached(cfg, events).reg.formations[f], computed)
    ensures var w := Reached(cfg, events);
            var caller, e := w.callers[w.emitted[k].caller], w.emitted[k];
            var o := caller.member.ordinal;
            && o < |computed| && computed[o].member == caller.member && e.result == Some(computed[o])
            && w.reg.formations[f].env.value.requests[o] == MemberOf(caller.member, caller.payload)
            && e.rec.status == if computed[o].ok then STATUS_OK else STATUS_ERROR
  {
    hide WInv, Exec, Uid, R.MemberResult, R.MemberOfEnvelope;
    var w := Reached(cfg, events);
    var caller := w.callers[w.emitted[k].caller];
    ReachedOk(cfg, events);
    OwnPlace(w, k, f);
    var F, o := w.reg.formations[f], caller.member.ordinal;
    ResultsDistinct(F, computed, w.cfg.targetB);
    R.EachGetsItsOwn(computed, F.reply.results, caller.member);
    assert NamesOrdinal(F, o) && computed[o].member == LogicalRequest(F.cohort, o) == caller.member;
  }

  lemma ResultsDistinct(F: Formation, computed: seq<R.Answer>, targetB: nat)
    requires ComputedFor(F, computed) && InPlace(F, targetB)
    ensures R.DistinctAnswers(computed)
  {
    forall i, j | 0 <= i < j < |computed| ensures computed[i].member != computed[j].member {
      assert NamesOrdinal(F, i) && NamesOrdinal(F, j);
    }
  }
}
