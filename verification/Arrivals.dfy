/**
 What each arrival at the proxy does to its cohort, over every run (internal/proxy/cohort.go,
 internal/proxy/proxy.go): a faulty one fails it for good, a good one is held, and whoever finds
 it judged, or the proxy closed, is turned away and changes nothing.
 */
module Arrivals {
  import opened Identity
  import opened Schema
  import opened Wire
  import opened Sorting
  import opened Envelope
  import opened Formation
  import opened Proxy
  import opened ProxyRuns

  /** Nothing has been decided about the cohort yet, if anyone of it has arrived at all. */
  ghost predicate StillOpen(w: World, cohort: uint32) {
    && !w.reg.closed
    && forall f :: 0 <= f < |w.reg.formations| && w.reg.formations[f].cohort == cohort ==>
         !w.reg.formations[f].sealed && w.reg.formations[f].terminal.None?
  }

  /** An earlier arrival of the ordinal was admitted to the cohort. */
  ghost predicate Arrived(w: World, m: LogicalRequest) {
    exists f: nat ::
      f < |w.reg.formations| && w.reg.formations[f].cohort == m.cohort && (f, m.ordinal as nat) in w.admitter
  }

  /** What is wrong with an arrival: no such ordinal, or one that has arrived before. */
  ghost predicate Faulty(w: World, m: LogicalRequest, cause: Cause) {
    || (m.ordinal >= w.cfg.targetB && cause == OutOfRange(m.ordinal))
    || (m.ordinal < w.cfg.targetB && Arrived(w, m) && cause == Duplicate(m.ordinal))
  }

  /** Formation f is the cohort's and has failed for this cause; done is closed and no envelope was made. */
  ghost predicate FailedFor(w: World, f: nat, cohort: uint32, cause: Cause) {
    && f < |w.reg.formations|
    && var F := w.reg.formations[f];
    && F.cohort == cohort && F.terminal == Some(cause) && F.closes == 1 && !F.sealed && F.slots == [] && F.env.None?
  }

  /** Caller d may wake at once, and is then given an error. */
  ghost predicate OwedAnError(w: World, d: nat) {
    forall now: int64 :: now >= w.clock ==>
      Enabled(w, Wake(d, now)) && Next(w, Wake(d, now)) == DepartUnanswered(w, d, STATUS_ERROR)
  }

  /** Where an open cohort's formation stands, or will. */
  function PlaceOf(w: World, cohort: uint32): nat {
    if cohort in w.reg.forming then w.reg.forming[cohort] else |w.reg.formations|
  }

  /** An open cohort's formation is the one the registry names, and its slots are the admissions. */
  lemma OpenPlace(w: World, cohort: uint32)
    requires WInv(w) && StillOpen(w, cohort)
    ensures var f := PlaceOf(w, cohort);
            && (forall g :: 0 <= g < |w.reg.formations| && w.reg.formations[g].cohort == cohort ==> g == f)
            && (f < |w.reg.formations| ==>
                  && w.reg.formations[f].cohort == cohort && |w.reg.formations[f].slots| == w.cfg.targetB
                  && w.reg.formations[f].closes == 0 && w.reg.formations[f].env.None? && w.reg.formations[f].Open()
                  && w.reg.formations[f].targetB == w.cfg.targetB)
  {
    hide History;
    if cohort in w.reg.forming { assert Shape(w.reg, w.reg.forming[cohort]); }
    forall g | 0 <= g < |w.reg.formations| && w.reg.formations[g].cohort == cohort ensures g == PlaceOf(w, cohort) {
      assert Shape(w.reg, g);
    }
  }

  lemma SlotTells(w: World, f: nat, o: nat)
    requires WInv(w) && f < |w.reg.formations| && o < |w.reg.formations[f].slots|
    ensures w.reg.formations[f].slots[o].Admitted? <==> (f, o) in w.admitter
  {
    hide CallersOk, SealersOk, AdmitterOk, CausesOk, TimesOk, EnvelopesOk, SentOk, EmittedOk, Inv;
  }

  /** Nobody was admitted to a formation that is not there yet. */
  lemma NoneAhead(w: World, f: nat, o: nat)
    requires WInv(w) && f >= |w.reg.formations|
    ensures (f, o) !in w.admitter
  {
    hide SealersOk, SlotsOk, CausesOk, TimesOk, EnvelopesOk, SentOk, EmittedOk, Inv;
    forall d | 0 <= d < |w.callers| ensures w.callers[d].joined != Some(f) {
      assert CallerOk(w, d);
    }
  }

  lemma ArrivedHere(w: World, m: LogicalRequest)
    requires WInv(w) && StillOpen(w, m.cohort)
    ensures Arrived(w, m) <==>
            PlaceOf(w, m.cohort) < |w.reg.formations| && (PlaceOf(w, m.cohort), m.ordinal as nat) in w.admitter
  {
    hide WInv;
    OpenPlace(w, m.cohort);
  }

  /** To the registry, a faulty arrival is a failure of the open cohort's formation, and turned away. */
  lemma FaultyJoin(w: World, m: LogicalRequest, payload: Bytes, now: int64, cause: Cause)
    requires WInv(w) && StillOpen(w, m.cohort) && Faulty(w, m, cause)
    ensures var (q, f) := (Opened(w.reg, m.cohort), PlaceOf(w, m.cohort));
            && f < |q.formations| && q.formations[f].Open() && q.formations[f].closes == 0 && q.formations[f].env.None?
            && Join(w.reg, m, payload, now) == (q.Put(f, q.formations[f].Fail(cause)), Turned(cause))
  {
    var f := PlaceOf(w, m.cohort);
    OpenPlace(w, m.cohort);
    ArrivedHere(w, m);
    if f < |w.reg.formations| && m.ordinal < w.cfg.targetB { SlotTells(w, f, m.ordinal); }
    assert w.reg.targetB == w.cfg.targetB;
    hide WInv, Arrived, StillOpen;
  }

  /** Whoever waits for a cohort that has failed is owed an error. */
  lemma FailedOwes(w: World, f: nat, cohort: uint32, cause: Cause)
    requires FailedFor(w, f, cohort, cause)
    ensures forall d :: 0 <= d < |w.callers| && w.callers[d].at == Waiting(f) ==> OwedAnError(w, d)
  {
    hide ArrivalRecord, ReplyRecord;
  }

  /** Caller c's arrival failed formation f for this cause, left its failed record, and touched nothing else. */
  ghost predicate FailsAlone(w: World, v: World, c: nat, f: nat, cause: Cause) {
    && c < |w.callers| == |v.callers| && |w.reg.formations| <= |v.reg.formations|
    && FailedFor(v, f, w.callers[c].member.cohort, cause)
    && v.emitted == w.emitted + [Emitted(c, None, 0, STATUS_ERROR, None,
                                         ArrivalRecord(w.callers[c].member, w.callers[c].payload, w.callers[c].recvAt,
                                                       STATUS_ERROR))]
    && v.callers[c].at.Gone? && v.sent == w.sent
    && (forall d :: 0 <= d < |w.callers| && d != c ==> v.callers[d] == w.callers[d])
    && (forall g :: 0 <= g < |w.reg.formations| && g != f ==> v.reg.formations[g] == w.reg.formations[g])
  }

  /**
   A second arrival of an ordinal, or one outside the cohort, fails a cohort that is still open,
   at once and with that cause: whoever it holds is owed an error, the arrival leaves its record
   and nothing else, and no other cohort is touched.
   */
  lemma FaultyArrivalFails(w: World, c: nat, now: int64, cause: Cause)
    requires WInv(w) && Enabled(w, Enter(c, now)) && StillOpen(w, w.callers[c].member.cohort)
    requires Faulty(w, w.callers[c].member, cause)
    ensures var (v, f) := (Next(w, Enter(c, now)), PlaceOf(w, w.callers[c].member.cohort));
            && FailsAlone(w, v, c, f, cause)
            && forall d :: 0 <= d < |v.callers| && v.callers[d].at == Waiting(f) ==> OwedAnError(v, d)
  {
    var m, f := w.callers[c].member, PlaceOf(w, w.callers[c].member.cohort);
    OpenPlace(w, m.cohort);
    FaultyJoin(w, m, w.callers[c].payload, now, cause);
    hide WInv, ArrivalRecord, Arrived, StillOpen, Faulty, Join, OwedAnError;
    var v := Next(w, Enter(c, now));
    assert FailedFor(v, f, m.cohort, cause);
    hide Next;
    FailedOwes(v, f, m.cohort, cause);
  }

  /* ---- Failed for good ---- */

  /** A formation that has failed keeps its cause, and is not sealed or sent, whatever happens next. */
  lemma FailureStays(w: World, e: Event, f: nat)
    requires WInv(w) && Enabled(w, e) && f < |w.reg.formations| && !w.reg.formations[f].Marker()
    requires w.reg.formations[f].terminal.Some?
    ensures f < |Next(w, e).reg.formations|
    ensures var (F, G) := (w.reg.formations[f], Next(w, e).reg.formations[f]); G == F.(deadline := G.deadline)
  {
    hide History, Inv, BuilderResult, ReplyRecord, ArrivalRecord, AssembledPayloads, PayloadBytes, Absent, Carries,
         Count,
         Join;
    FailedShape(w.reg, f);
    match e
    case Enter(c, now) => JoinLeavesFailed(w.reg, w.callers[c].member, w.callers[c].payload, now, f);
    case Assemble(c, now, rest) => AssembledIsSent(w, w.callers[c].at.f, now, rest);
    case Answer(c, reply, now) => SendingShape(w.reg, w.callers[c].at.f);
    case _ =>
  }

  lemma FailedShape(r: Registry, f: nat)
    requires Inv(r) && f < |r.formations| && !r.formations[f].Marker() && r.formations[f].terminal.Some?
    ensures var F := r.formations[f];
            && !F.sealed && F.closes == 1 && F.env.None? && F.slots == [] && F.sealer == Idle
            && F.cohort in r.forming && r.forming[F.cohort] == f
  {
    assert Shape(r, f);
  }

  lemma JoinLeavesFailed(r: Registry, member: LogicalRequest, payload: Bytes, now: int64, f: nat)
    requires Inv(r) && f < |r.formations| && !r.formations[f].Marker() && r.formations[f].terminal.Some?
    ensures f < |Join(r, member, payload, now).0.formations|
    ensures Join(r, member, payload, now).0.formations[f] == r.formations[f]
  {
    FailedShape(r, f);
  }

  lemma {:induction false} FailedForever(w: World, events: seq<Event>, f: nat, cohort: uint32, cause: Cause)
    requires WInv(w) && FailedFor(w, f, cohort, cause) && cause != AlreadySealed
    ensures WInv(Exec(w, events)) && FailedFor(Exec(w, events), f, cohort, cause)
    decreases |events|
  {
    hide WInv;
    if events != [] {
      if Enabled(w, events[0]) {
        FailureStays(w, events[0], f);
        StepKeeps(w, events[0]);
        FailedForever(Next(w, events[0]), events[1..], f, cohort, cause);
      } else {
        FailedForever(w, events[1..], f, cohort, cause);
      }
    }
  }

  /** No envelope has left for the cohort, and no formation of it is sealed or has one. */
  ghost predicate NeverSent(w: World, cohort: uint32) {
    && (forall k :: 0 <= k < |w.sent| ==> w.sent[k].f < |w.reg.formations| && CohortSent(w, k) != cohort)
    && (forall g :: 0 <= g < |w.reg.formations| && w.reg.formations[g].cohort == cohort ==>
          w.reg.formations[g].env.None? && !w.reg.formations[g].sealed)
  }

  lemma FailedIsNeverSent(w: World, f: nat, cohort: uint32, cause: Cause)
    requires WInv(w) && FailedFor(w, f, cohort, cause) && cause != AlreadySealed
    ensures NeverSent(w, cohort)
  {
    hide CallersOk, SealersOk, AdmitterOk, SlotsOk, CausesOk, TimesOk, EnvelopesOk, EmittedOk;
    forall g | 0 <= g < |w.reg.formations| && w.reg.formations[g].cohort == cohort
      ensures w.reg.formations[g].env.None? && !w.reg.formations[g].sealed
    {
      assert Shape(w.reg, g) && Shape(w.reg, f);
    }
  }

  /**
   Over every run: once a cohort that was still open has had a faulty arrival, it has failed with
   that cause whatever follows, its done is closed, and no envelope is ever sent under its id.
   */
  lemma FaultyCohortNeverSent(cfg: Config, before: seq<Event>, c: nat, now: int64, cause: Cause, after: seq<Event>)
    requires cfg.Valid() && Enabled(Reached(cfg, before), Enter(c, now))
    requires StillOpen(Reached(cfg, before), Reached(cfg, before).callers[c].member.cohort)
    requires Faulty(Reached(cfg, before), Reached(cfg, before).callers[c].member, cause)
    ensures var w := Reached(cfg, before);
            var (v, m) := (Exec(Next(w, Enter(c, now)), after), w.callers[c].member);
            FailedFor(v, PlaceOf(w, m.cohort), m.cohort, cause) && NeverSent(v, m.cohort)
  {
    var w := Reached(cfg, before);
    var m := w.callers[c].member;
    ReachedOk(cfg, before);
    hide WInv;
    FaultyArrivalFails(w, c, now, cause);
    StepKeeps(w, Enter(c, now));
    hide Enabled, Faulty, StillOpen, FailedFor, PlaceOf, NeverSent;
    FailedForever(Next(w, Enter(c, now)), after, PlaceOf(w, m.cohort), m.cohort, cause);
    FailedIsNeverSent(Exec(Next(w, Enter(c, now)), after), PlaceOf(w, m.cohort), m.cohort, cause);
  }

  /* ---- The other arrivals ---- */

  /** Formation f of an open cohort holds caller c's payload in its own slot. */
  ghost predicate HoldsPayload(w: World, f: nat, c: nat)
    requires c < |w.callers|
  {
    var caller := w.callers[c];
    && f < |w.reg.formations| && w.reg.formations[f].cohort == caller.member.cohort && caller.joined == Some(f)
    && (f, caller.member.ordinal as nat) in w.admitter && w.admitter[(f, caller.member.ordinal as nat)] == c
    && caller.member.ordinal < |w.reg.formations[f].slots|
    && w.reg.formations[f].slots[caller.member.ordinal] == Admitted(caller.payload)
  }

  /** Every ordinal of the cohort has been admitted. */
  ghost predicate WholeCohort(w: World, f: nat) {
    forall o: nat :: o < w.cfg.targetB ==> (f, o) in w.admitter
  }

  /** What the registry does with a good arrival. */
  ghost predicate AdmittedAs(r: Registry, f: nat, m: LogicalRequest, payload: Bytes, now: int64, q: Registry,
                             j: Joined)
  {
    && f < |q.formations| && |r.formations| <= |q.formations|
    && q.formations[f].cohort == m.cohort && m.ordinal < |q.formations[f].slots|
    && q.formations[f].slots[m.ordinal] == Admitted(payload)
    && q.formations[f].terminal.None? && q.formations[f].closes == 0
    && (forall g :: 0 <= g < |r.formations| && g != f ==> q.formations[g] == r.formations[g])
    && if q.formations[f].sealed then
         j == Completed(f) && q.formations[f].sealAt == now && q.formations[f].deadline != Armed
       else
         j == Held(f) && (f >= |r.formations| ==> q.formations[f].deadline == Armed)
  }

  lemma JoinAdmits(w: World, m: LogicalRequest, payload: Bytes, now: int64)
    requires WInv(w) && StillOpen(w, m.cohort) && m.ordinal < w.cfg.targetB && !Arrived(w, m)
    ensures var (q, j) := Join(w.reg, m, payload, now); AdmittedAs(w.reg, PlaceOf(w, m.cohort), m, payload, now, q, j)
  {
    var f := PlaceOf(w, m.cohort);
    OpenPlace(w, m.cohort);
    ArrivedHere(w, m);
    if f < |w.reg.formations| { SlotTells(w, f, m.ordinal); }
    hide WInv, Arrived, StillOpen;
  }

  /**
   A good arrival of a cohort still open is admitted to its own slot and held, with no record and
   no other cohort touched; it seals the cohort, at that instant and with its timer stopped, if
   and only if every ordinal has now arrived.
   */
  lemma GoodArrivalIsHeld(w: World, c: nat, now: int64)
    requires WInv(w) && Enabled(w, Enter(c, now)) && StillOpen(w, w.callers[c].member.cohort)
    requires w.callers[c].member.ordinal < w.cfg.targetB && !Arrived(w, w.callers[c].member)
    ensures var (v, m, f) := (Next(w, Enter(c, now)), w.callers[c].member, PlaceOf(w, w.callers[c].member.cohort));
            && |v.callers| == |w.callers| && HoldsPayload(v, f, c) && v.emitted == w.emitted && v.sent == w.sent
            && v.reg.formations[f].terminal.None? && v.reg.formations[f].closes == 0
            && v.callers[c].at == (if v.reg.formations[f].sealed then Sealing(f) else Waiting(f))
            && (v.reg.formations[f].sealed <==> WholeCohort(v, f))
            && (v.reg.formations[f].sealed ==>
                  v.reg.formations[f].sealAt == now && v.reg.formations[f].deadline != Armed)
            && (f >= |w.reg.formations| && !v.reg.formations[f].sealed ==> v.reg.formations[f].deadline == Armed)
            && (forall g :: 0 <= g < |w.reg.formations| && g != f ==> v.reg.formations[g] == w.reg.formations[g])
  {
    JoinAdmits(w, w.callers[c].member, w.callers[c].payload, now);
    StepKeeps(w, Enter(c, now));
    hide WInv, ArrivalRecord, Arrived, StillOpen, WholeCohort, Join, PlaceOf;
    Wholeness(Next(w, Enter(c, now)), PlaceOf(w, w.callers[c].member.cohort));
  }

  lemma Wholeness(w: World, f: nat)
    requires WInv(w) && f < |w.reg.formations| && w.reg.formations[f].terminal.None?
    ensures w.reg.formations[f].sealed <==> WholeCohort(w, f)
  {
    hide CallersOk, SealersOk, CausesOk, TimesOk, EnvelopesOk, SentOk, EmittedOk;
    assert Shape(w.reg, f);
    CountFull(w.reg.formations[f].slots);
  }

  /* ---- What else may happen to a cohort ---- */

  /** A closed proxy turns every arrival away: it leaves its record, and nothing else changes. */
  lemma ClosedTurnsAway(w: World, c: nat, now: int64)
    requires Enabled(w, Enter(c, now)) && w.reg.closed
    ensures Next(w, Enter(c, now)) == DepartUnanswered(w.(clock := now), c, STATUS_ERROR)
  {
  }

  /** These ordinals, in order, are the ones never admitted to formation f. */
  ghost predicate NeverAdmitted(w: World, f: nat, absent: seq<nat>) {
    Increasing(absent) && forall o: nat :: o in absent <==> o < w.cfg.targetB && (f, o) !in w.admitter
  }

  lemma AbsentAre(w: World, f: nat)
    requires WInv(w) && f < |w.reg.formations| && w.reg.formations[f].Open()
    ensures NeverAdmitted(w, f, Absent(w.reg.formations[f].slots)) && w.reg.formations[f].closes == 0
    ensures w.reg.formations[f].cohort in w.reg.forming && w.reg.forming[w.reg.formations[f].cohort] == f
    ensures w.reg.formations[f].env.None?
  {
    hide CallersOk, SealersOk, AdmitterOk, CausesOk, TimesOk, EnvelopesOk, SentOk, EmittedOk;
    assert Shape(w.reg, f);
  }

  /**
   A deadline that comes in time fails its cohort, naming exactly the ordinals never admitted; a late one
   does nothing.
   */
  lemma ExpiryFails(w: World, f: nat)
    requires WInv(w) && Enabled(w, ExpireDeadline(f))
    ensures var (v, F) := (Next(w, ExpireDeadline(f)), w.reg.formations[f]);
            && v == w.(reg := v.reg) && |v.reg.formations| == |w.reg.formations|
            && (forall g :: 0 <= g < |w.reg.formations| && g != f ==> v.reg.formations[g] == w.reg.formations[g])
            && if F.sealed || F.terminal.Some? then v.reg.formations[f] == F.(deadline := Finished)
               else
                 && v.reg.formations[f].deadline == Finished
                 && (exists absent :: NeverAdmitted(w, f, absent) && FailedFor(v, f, F.cohort, Expired(absent)))
                 && (forall d :: 0 <= d < |v.callers| && v.callers[d].at == Waiting(f) ==> OwedAnError(v, d))
  {
    var v, F := Next(w, ExpireDeadline(f)), w.reg.formations[f];
    if F.Open() {
      AbsentAre(w, f);
      hide WInv, NeverAdmitted;
      assert FailedFor(v, f, F.cohort, Expired(Absent(F.slots)));
    }
  }

  /** Formation f has been shut down over the ordinals never admitted, and whoever it holds is owed an error. */
  ghost predicate ShutAt(w: World, v: World, f: nat)
    requires f < |w.reg.formations|
  {
    && (exists absent :: NeverAdmitted(w, f, absent) && FailedFor(v, f, w.reg.formations[f].cohort, ShutDown(absent)))
    && v.reg.formations[f].deadline != Armed
    && (forall d :: 0 <= d < |v.callers| && v.callers[d].at == Waiting(f) ==> OwedAnError(v, d))
  }

  /** Close fails every cohort still open, naming the ordinals never admitted, and leaves every other as it is. */
  lemma CloseFailsOpen(w: World)
    requires WInv(w)
    ensures var v := Next(w, CloseProxy);
            && v == w.(reg := v.reg) && v.reg.closed && |v.reg.formations| == |w.reg.formations|
            && forall f :: 0 <= f < |w.reg.formations| ==>
                 if w.reg.formations[f].sealed || w.reg.formations[f].terminal.Some?
                 then v.reg.formations[f] == w.reg.formations[f] else ShutAt(w, v, f)
  {
    var v := Next(w, CloseProxy);
    forall f | 0 <= f < |w.reg.formations| && w.reg.formations[f].Open() ensures ShutAt(w, v, f) {
      AbsentAre(w, f);
      hide WInv, NeverAdmitted;
      assert FailedFor(v, f, w.reg.formations[f].cohort, ShutDown(Absent(w.reg.formations[f].slots)));
    }
  }

  /** A caller whose own wait ends leaves alone: its record says how, and no cohort is touched. */
  lemma LeavesAlone(w: World, c: nat, timedOut: bool)
    requires Enabled(w, Leave(c, timedOut))
    ensures var v := Next(w, Leave(c, timedOut));
            && v.reg == w.reg && v.sent == w.sent && |v.emitted| == |w.emitted| + 1
            && v.callers[c].at == Gone(|w.emitted|)
            && v.emitted[|w.emitted|].status == (if timedOut then STATUS_TIMEOUT else STATUS_ERROR)
            && (forall d :: 0 <= d < |w.callers| && d != c ==> v.callers[d] == w.callers[d])
  {
    hide ArrivalRecord;
  }

  /** Each instant is read as the step that writes it is taken: arrival, send, the backend's return, fan-out. */
  lemma InstantsAreTheirSteps(w: World, e: Event)
    requires WInv(w) && Enabled(w, e)
    ensures e.Submit? ==>
              Next(w, e).callers == w.callers + [Caller(e.member, e.payload, e.now, Entering, None)]
    ensures e.Assemble? ==>
              var G := Next(w, e).reg.formations[w.callers[e.c].at.f];
              && G.sendAt == e.now && G.env.Some? && G.env.value.sentAt == e.now
              && G.env.value.seal == Some(G.sealAt as int)
    ensures e.Answer? ==>
              var G := Next(w, e).reg.formations[w.callers[e.c].at.f];
              G.respRecvAt == e.now && G.reply == e.reply && G.closes == 1
    ensures e.Wake? && Own(w, e.c).terminal.None? ==>
              |Next(w, e).emitted| == |w.emitted| + 1 && Next(w, e).emitted[|w.emitted|].fanoutAt == e.now
  {
    hide History, Inv, BuilderResult, ReplyRecord, ArrivalRecord, AssembledPayloads, PayloadBytes, Absent, Count, Join;
    match e
    case Assemble(c, now, rest) => AssembledIsSent(w, w.callers[c].at.f, now, rest);
    case Answer(c, reply, now) => SendingShape(w.reg, w.callers[c].at.f);
    case _ =>
  }
}
