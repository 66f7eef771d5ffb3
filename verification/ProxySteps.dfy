/**
 What every step of the proxy keeps (internal/proxy/proxy.go, internal/proxy/cohort.go):
 the history the callers leave behind agrees with the formations, whichever step comes next.
 */
module ProxySteps {
  import opened Identity
  import opened Schema
  import opened Wire
  import opened Envelope
  import opened Formation
  import opened Proxy
  import R = Results

  /* ---- Steps that only touch formations ---- */

  /** A formation is left as it was, or an open one is failed; timers do not matter. */
  ghost predicate Quiet(F: Formation, G: Formation) {
    && G.cohort == F.cohort && G.Marker() == F.Marker() && G.sealed == F.sealed && G.sealAt == F.sealAt
    && G.env == F.env && G.sendAt == F.sendAt && G.respRecvAt == F.respRecvAt && G.sealer == F.sealer
    && G.reply == F.reply
    && (G.slots == F.slots || G.slots == [])
    && (F.sealed ==> G.closes == F.closes)
    && (G.terminal == F.terminal || (F.Open() && G.terminal.Some?))
  }

  /** A formation nobody has joined yet. */
  ghost predicate Blank(F: Formation) {
    && !F.sealed && F.env.None?
    && (forall o :: 0 <= o < |F.slots| ==> F.slots[o].Empty?)
    && (F.terminal.None? || !F.terminal.value.Expired?)
  }

  /** A caller that has only just arrived. */
  ghost predicate Arrived(caller: Caller, clock: int64) {
    caller.at == Entering && caller.joined.None? && caller.recvAt <= clock
  }

  /** v is w with formations left alone or failed, formations and callers added, and time gone by. */
  ghost predicate Extends(w: World, v: World) {
    && v == w.(reg := v.reg, callers := v.callers, clock := v.clock) && w.clock <= v.clock
    && |w.reg.formations| <= |v.reg.formations| && w.callers <= v.callers
    && (forall f :: 0 <= f < |w.reg.formations| ==>
          && Quiet(w.reg.formations[f], v.reg.formations[f])
          && (v.reg.formations[f].terminal == w.reg.formations[f].terminal || CauseOk(v, f)))
    && (forall f :: |w.reg.formations| <= f < |v.reg.formations| ==> Blank(v.reg.formations[f]))
    && (forall c :: |w.callers| <= c < |v.callers| ==> Arrived(v.callers[c], v.clock))
  }

  /** Formations keep what was sent and answered, callers keep who they are and what they left behind. */
  ghost predicate Preserves(w: World, v: World) {
    && v == w.(reg := v.reg, callers := v.callers, admitter := v.admitter, clock := v.clock) && w.clock <= v.clock
    && |w.reg.formations| <= |v.reg.formations| && |w.callers| <= |v.callers|
    && (forall f :: 0 <= f < |w.reg.formations| ==> KeepsAnswer(w.reg.formations[f], v.reg.formations[f]))
    && (forall f :: |w.reg.formations| <= f < |v.reg.formations| ==> v.reg.formations[f].env.None?)
    && (forall c :: 0 <= c < |w.callers| ==> KeepsIdentity(w.callers[c], v.callers[c]))
    && (forall f: nat, o: nat :: (f, o) in w.admitter ==>
          (f, o) in v.admitter && v.admitter[(f, o)] == w.admitter[(f, o)])
  }

  ghost predicate KeepsAnswer(F: Formation, G: Formation) {
    && G.cohort == F.cohort && G.env == F.env && (F.sealed ==> G.sealed)
    && (F.env.Some? ==> G.sealAt == F.sealAt && G.sendAt == F.sendAt)
    && (F.sealed && F.sealer == Over && F.env.Some? ==>
          G.sealer == Over && G.respRecvAt == F.respRecvAt && G.reply == F.reply)
  }

  ghost predicate KeepsIdentity(a: Caller, b: Caller) {
    && b.member == a.member && b.payload == a.payload && b.recvAt == a.recvAt
    && (a.at.Gone? ==> b == a)
  }

  lemma EvidenceKeeps(w: World, v: World)
    requires EnvelopesOk(w) && SentOk(w) && EmittedOk(w) && Preserves(w, v)
    ensures EnvelopesOk(v) && SentOk(v) && EmittedOk(v)
  {
    hide ReplyRecord, ArrivalRecord, Carries;
    forall f | 0 <= f < |v.reg.formations| && v.reg.formations[f].env.Some?
      ensures Carries(v, f, v.reg.formations[f].env.value) && HasSend(v, f)
    {
      CarriesDepends(w, v, f, w.reg.formations[f].env.value);
      assert HasSend(w, f);
    }
    forall k | 0 <= k < |v.emitted| ensures RecordOk(v, k) {
      assert RecordOk(w, k);
    }
  }

  lemma ExtendKeeps(w: World, v: World)
    requires History(w) && Extends(w, v)
    ensures History(v)
  {
    hide EnvelopesOk, SentOk, EmittedOk, Inv;
    var n := |w.reg.formations|;
    forall c | 0 <= c < |v.callers| ensures CallerOk(v, c) {
      assert c < |w.callers| ==> CallerOk(w, c);
    }
    forall f | 0 <= f < |v.reg.formations| && v.reg.formations[f].sealed && !v.reg.formations[f].Done()
      ensures HasSealer(v, f)
    {
      SealerStays(w, v, f);
    }
    forall f: nat, o: nat | (f, o) in w.admitter ensures f < n {
      assert CallerOk(w, w.admitter[(f, o)]);
    }
    forall f | 0 <= f < |v.reg.formations| ensures CauseOk(v, f) {
      assert f < n ==> CauseOk(w, f);
    }
    EvidenceKeeps(w, v);
  }

  lemma SealerStays(w: World, v: World, f: nat)
    requires HasSealer(w, f) && |w.callers| <= |v.callers|
    requires forall c :: 0 <= c < |w.callers| && w.callers[c].at.Sealing? ==> v.callers[c].at == w.callers[c].at
    ensures HasSealer(v, f)
  {
    var c :| 0 <= c < |w.callers| && w.callers[c].at == Sealing(f);
    assert v.callers[c].at == Sealing(f);
  }

  /** Carries depends on the formation, the admission history and the callers' payloads only. */
  lemma CarriesDepends(w: World, v: World, f: nat, env: Envelope)
    requires f < |w.reg.formations| && f < |v.reg.formations| && Carries(w, f, env)
    requires v.cfg == w.cfg && |v.callers| >= |w.callers|
    requires forall c :: 0 <= c < |w.callers| ==> v.callers[c].payload == w.callers[c].payload
    requires forall o: nat :: (f, o) in w.admitter ==>
               (f, o) in v.admitter && v.admitter[(f, o)] == w.admitter[(f, o)]
    requires var F, G := w.reg.formations[f], v.reg.formations[f];
             G.cohort == F.cohort && G.sealAt == F.sealAt && G.sendAt == F.sendAt
    ensures Carries(v, f, env)
  {
  }

  /* ---- Departure ---- */

  lemma DepartEvidence(w: World, c: nat, f: Option<nat>, fanoutAt: int64, status: Status, result: Option<R.Answer>,
                       rec: Record)
    requires EnvelopesOk(w) && SentOk(w) && EmittedOk(w)
    requires c < |w.callers| && (w.callers[c].at.Entering? || w.callers[c].at.Waiting?)
    requires var caller := w.callers[c]; match f
             case None =>
               && rec == ArrivalRecord(caller.member, caller.payload, caller.recvAt, status) && status != STATUS_OK
               && result.None?
             case Some(g) =>
               && caller.joined == Some(g) && g < |w.reg.formations|
               && Replied(w.reg.formations[g], caller, Emitted(c, f, fanoutAt, status, result, rec), w.clock)
    ensures var v := Depart(w, c, f, fanoutAt, status, result, rec);
            EnvelopesOk(v) && SentOk(v) && EmittedOk(v)
  {
    hide ReplyRecord, ArrivalRecord, Carries;
    var v := Depart(w, c, f, fanoutAt, status, result, rec);
    forall g | 0 <= g < |w.reg.formations| && w.reg.formations[g].env.Some?
      ensures Carries(v, g, w.reg.formations[g].env.value) && HasSend(v, g)
    {
      CarriesDepends(w, v, g, w.reg.formations[g].env.value);
      assert HasSend(w, g);
    }
    forall k | 0 <= k < |v.emitted| ensures RecordOk(v, k) {
      assert k < |w.emitted| ==> RecordOk(w, k);
    }
    forall j | 0 <= j < |w.emitted| ensures w.emitted[j].caller != c {
      assert RecordOk(w, j);
    }
  }

  lemma DepartPlaces(w: World, c: nat, f: Option<nat>, fanoutAt: int64, status: Status, result: Option<R.Answer>,
                     rec: Record)
    requires CallersOk(w) && SealersOk(w)
    requires c < |w.callers| && (w.callers[c].at.Entering? || w.callers[c].at.Waiting?)
    ensures var v := Depart(w, c, f, fanoutAt, status, result, rec); CallersOk(v) && SealersOk(v)
  {
    var v := Depart(w, c, f, fanoutAt, status, result, rec);
    forall d | 0 <= d < |v.callers| ensures CallerOk(v, d) {
      assert CallerOk(w, d);
    }
    forall g | 0 <= g < |w.reg.formations| && w.reg.formations[g].sealed && !w.reg.formations[g].Done()
      ensures HasSealer(v, g)
    {
      SealerStays(w, v, g);
    }
  }

  lemma DepartKeeps(w: World, c: nat, f: Option<nat>, fanoutAt: int64, status: Status, result: Option<R.Answer>,
                    rec: Record)
    requires History(w)
    requires c < |w.callers| && (w.callers[c].at.Entering? || w.callers[c].at.Waiting?)
    requires var caller := w.callers[c]; match f
             case None =>
               && rec == ArrivalRecord(caller.member, caller.payload, caller.recvAt, status) && status != STATUS_OK
               && result.None?
             case Some(g) =>
               && caller.joined == Some(g) && g < |w.reg.formations|
               && Replied(w.reg.formations[g], caller, Emitted(c, f, fanoutAt, status, result, rec), w.clock)
    ensures History(Depart(w, c, f, fanoutAt, status, result, rec))
  {
    DepartEvidence(w, c, f, fanoutAt, status, result, rec);
    DepartPlaces(w, c, f, fanoutAt, status, result, rec);
    hide EnvelopesOk, SentOk, EmittedOk, CallersOk, SealersOk, Replied, ArrivalRecord, Inv;
    var v := Depart(w, c, f, fanoutAt, status, result, rec);
    forall g | 0 <= g < |w.reg.formations| ensures CauseOk(v, g) {
      assert CauseOk(w, g);
    }
  }

  /* ---- Admission ---- */

  /** F with ordinal o admitted, sealed at the present instant if that completed it. */
  ghost predicate Takes(F: Formation, o: nat, payload: Bytes, G: Formation, clock: int64) {
    && F.Open() && F.env.None? && F.closes == 0 && o < |F.slots| && F.slots[o].Empty?
    && G.cohort == F.cohort && G.terminal.None? && G.closes == 0 && G.env.None?
    && G.slots == F.slots[o := Admitted(payload)]
    && (G.sealed ==> G.sealAt == clock)
  }

  /** Formation f becomes G and caller c is held by it, or is its sealing member if it is complete. */
  function JoinedBy(w: World, c: nat, f: nat, G: Formation): World
    requires c < |w.callers| && f < |w.reg.formations|
  {
    var caller := w.callers[c];
    SetCaller(w.(reg := w.reg.Put(f, G)), c,
              caller.(at := if G.sealed then Sealing(f) else Waiting(f), joined := Some(f)))
      .(admitter := w.admitter[(f, caller.member.ordinal) := c])
  }

  lemma AdmittanceTimes(w: World, c: nat, f: nat, G: Formation)
    requires History(w) && c < |w.callers| && w.callers[c].at.Entering? && f < |w.reg.formations|
    requires Takes(w.reg.formations[f], w.callers[c].member.ordinal, w.callers[c].payload, G, w.clock)
    ensures TimesOk(JoinedBy(w, c, f, G)) && CausesOk(JoinedBy(w, c, f, G))
  {
    hide EnvelopesOk, SentOk, EmittedOk, SealersOk, SlotsOk, Inv;
    var v := JoinedBy(w, c, f, G);
    assert CallerOk(w, c);
    forall g | 0 <= g < |v.reg.formations| ensures CauseOk(v, g) {
      assert CauseOk(w, g);
    }
    forall p: nat | (f, p) in w.admitter ensures w.callers[w.admitter[(f, p)]].recvAt <= w.clock {
      assert CallerOk(w, w.admitter[(f, p)]);
    }
  }

  lemma AdmittanceKeeps(w: World, c: nat, f: nat, G: Formation)
    requires History(w) && c < |w.callers| && w.callers[c].at.Entering? && f < |w.reg.formations|
    requires var caller := w.callers[c];
             && Takes(w.reg.formations[f], caller.member.ordinal, caller.payload, G, w.clock)
             && w.reg.formations[f].cohort == caller.member.cohort && caller.member.ordinal < w.cfg.targetB
    ensures History(JoinedBy(w, c, f, G))
  {
    hide EnvelopesOk, SentOk, EmittedOk, Inv, TimesOk, CausesOk;
    var v := JoinedBy(w, c, f, G);
    var o := w.callers[c].member.ordinal;
    assert (f, o) !in w.admitter && w.callers[c].joined.None? by {
      assert CallerOk(w, c);
    }
    forall d | 0 <= d < |v.callers| ensures CallerOk(v, d) {
      assert CallerOk(w, d);
    }
    forall d | 0 <= d < |w.callers| && w.callers[d].at.Sealing? ensures w.callers[d].at.f != f {
      assert CallerOk(w, d);
    }
    forall g | 0 <= g < |v.reg.formations| && v.reg.formations[g].sealed && !v.reg.formations[g].Done()
      ensures HasSealer(v, g)
    {
      if g == f {
        assert v.callers[c].at == Sealing(f);
      } else {
        SealerStays(w, v, g);
      }
    }
    AdmittanceTimes(w, c, f, G);
    EvidenceKeeps(w, v);
  }

  /* ---- The send ---- */

  lemma SendKeeps(w: World, f: nat, env: Envelope)
    requires History(w) && f < |w.reg.formations|
    requires w.reg.formations[f].sealed && w.reg.formations[f].env.None?
    requires var G := w.reg.formations[f].(sendAt := w.clock, env := Some(env), sealer := Sending);
             && Carries(w.(reg := w.reg.Put(f, G)), f, env) && env.envelopeID == (w.minted + 1) % TWO_64
    ensures var G := w.reg.formations[f].(sendAt := w.clock, env := Some(env), sealer := Sending);
            History(w.(reg := w.reg.Put(f, G), minted := w.minted + 1, sent := w.sent + [Departure(f, w.minted + 1)]))
  {
    hide ReplyRecord, ArrivalRecord, Carries, Inv;
    var G := w.reg.formations[f].(sendAt := w.clock, env := Some(env), sealer := Sending);
    var v := w.(reg := w.reg.Put(f, G), minted := w.minted + 1, sent := w.sent + [Departure(f, w.minted + 1)]);
    forall d | 0 <= d < |v.callers| ensures CallerOk(v, d) {
      assert CallerOk(w, d);
    }
    forall g | 0 <= g < |v.reg.formations| && v.reg.formations[g].sealed && !v.reg.formations[g].Done()
      ensures HasSealer(v, g)
    {
      SealerStays(w, v, g);
    }
    forall g | 0 <= g < |v.reg.formations| ensures CauseOk(v, g) {
      assert CauseOk(w, g);
    }
    forall g | 0 <= g < |v.reg.formations| && v.reg.formations[g].env.Some?
      ensures Carries(v, g, v.reg.formations[g].env.value)
      ensures HasSend(v, g)
    {
      if g == f {
        CarriesDepends(w.(reg := w.reg.Put(f, G)), v, f, env);
        assert v.sent[|w.sent|].f == f;
      } else {
        CarriesDepends(w, v, g, w.reg.formations[g].env.value);
        var k :| 0 <= k < |w.sent| && w.sent[k].f == g;
        assert v.sent[k].f == g;
      }
    }
    forall k | 0 <= k < |v.emitted| ensures RecordOk(v, k) {
      assert RecordOk(w, k);
    }
  }

  lemma AnswerTimes(w: World, c: nat, reply: Reply)
    requires History(w) && Inside(w, c) && w.callers[c].at.Sealing?
    requires Own(w, c).sealer == Sending && Own(w, c).env.Some? && Own(w, c).terminal.None?
    ensures var f, F := w.callers[c].at.f, Own(w, c);
            var G := F.(respRecvAt := w.clock, reply := reply, sealer := Over, closes := F.closes + 1);
            var v := SetCaller(w.(reg := w.reg.Put(f, G)), c, w.callers[c].(at := Waiting(f)));
            TimesOk(v) && CausesOk(v)
  {
    hide EnvelopesOk, SentOk, EmittedOk, SealersOk, CallersOk, SlotsOk, Inv;
    var f, F := w.callers[c].at.f, Own(w, c);
    var G := F.(respRecvAt := w.clock, reply := reply, sealer := Over, closes := F.closes + 1);
    var v := SetCaller(w.(reg := w.reg.Put(f, G)), c, w.callers[c].(at := Waiting(f)));
    forall g | 0 <= g < |v.reg.formations| ensures CauseOk(v, g) {
      assert CauseOk(w, g);
    }
  }

  lemma AnswerKeeps(w: World, c: nat, reply: Reply)
    requires History(w) && Inside(w, c) && w.callers[c].at.Sealing?
    requires Own(w, c).sealer == Sending && Own(w, c).env.Some? && Own(w, c).terminal.None? && Own(w, c).closes == 0
    ensures var f, F := w.callers[c].at.f, Own(w, c);
            var G := F.(respRecvAt := w.clock, reply := reply, sealer := Over, closes := F.closes + 1);
            History(SetCaller(w.(reg := w.reg.Put(f, G)), c, w.callers[c].(at := Waiting(f))))
  {
    hide EnvelopesOk, SentOk, EmittedOk, TimesOk, CausesOk, Inv;
    AnswerTimes(w, c, reply);
    var f, F := w.callers[c].at.f, Own(w, c);
    var G := F.(respRecvAt := w.clock, reply := reply, sealer := Over, closes := F.closes + 1);
    var v := SetCaller(w.(reg := w.reg.Put(f, G)), c, w.callers[c].(at := Waiting(f)));
    forall d | 0 <= d < |v.callers| ensures CallerOk(v, d) {
      assert CallerOk(w, d) && CallerOk(w, c);
      assert d != c && w.callers[d].at.Sealing? ==> w.callers[d].at.f != f;
    }
    forall g | 0 <= g < |v.reg.formations| && v.reg.formations[g].sealed && !v.reg.formations[g].Done()
      ensures HasSealer(v, g)
    {
      var d :| 0 <= d < |w.callers| && w.callers[d].at == Sealing(g);
      assert v.callers[d].at == Sealing(g);
    }
    EvidenceKeeps(w, v);
  }
}
