/**
 Cohort formation at the proxy as a state machine (internal/proxy/cohort.go). Each
 function is one critical section or one step of the sealing member; formations are
 named by index and never removed, as a Go pointer outlives its registry entry.
 */
module Formation {
  import opened Identity
  import opened Schema
  import opened Wire
  import opened Sorting
  import opened Envelope
  import R = Results
  import ByteAccounting

  datatype Slot = Empty | Admitted(payload: Bytes)

  /** Why a member or a cohort is refused. */
  datatype Cause =
    | ShuttingDown
    | OutOfRange(ordinal: uint32)
    | Duplicate(ordinal: uint32)
    | Expired(absent: seq<nat>)
    | ShutDown(absent: seq<nat>)
    | NotBuilt(fault: Fault)
    | AlreadySealed

  /** The deadline: armed, fired with its goroutine on the way to the lock, or finished. */
  datatype Timer = NoTimer | Armed | Fired | Finished

  /** What came back of the send: nothing yet, an error, or the response with the members' results. */
  datatype Reply = Unanswered | SendFailed | Response(results: seq<R.Answer>)

  /** Where the sealing member is. */
  datatype Sealer = Idle | Assembling | Sending | Over

  datatype Formation = Formation(
    cohort: uint32,
    targetB: nat,
    closes: nat,              // how often done was closed
    slots: seq<Slot>,
    arrived: nat,
    sealAt: int64,
    sealed: bool,
    deadline: Timer,
    terminal: Option<Cause>,
    sealer: Sealer,
    env: Option<Envelope>,
    sendAt: int64,
    respRecvAt: int64,
    reply: Reply)
  {
    predicate Done() {
      closes > 0
    }

    predicate Marker() {
      terminal == Some(AlreadySealed)
    }

    /** Still assembling. */
    predicate Open() {
      !sealed && terminal.None?
    }

    /** failLocked: the payloads are let go and every waiter is woken. */
    function Fail(cause: Cause): Formation {
      this.(terminal := Some(cause), slots := [], closes := closes + 1)
    }
  }

  /** newFormation, with its deadline armed. */
  function NewFormation(cohort: uint32, targetB: nat): Formation {
    Formation(cohort, targetB, 0, seq(targetB, _ => Empty), 0, 0, false, Armed, None, Idle, None, 0, 0, Unanswered)
  }

  /** sealedAlready: born closed, with nothing to read. */
  function SealedAlready(cohort: uint32, targetB: nat): Formation {
    Formation(cohort, targetB, 1, [], 0, 0, false, NoTimer, Some(AlreadySealed), Idle, None, 0, 0, Unanswered)
  }

  /** Stop prevents a timer from firing, but loses to one that already has. */
  function Stop(t: Timer): Timer {
    if t == Armed then Finished else t
  }

  /* ---- Slots ---- */

  function Count(slots: seq<Slot>): (n: nat)
    ensures n <= |slots|
  {
    if slots == [] then 0 else Count(slots[1..]) + (if slots[0].Admitted? then 1 else 0)
  }

  lemma {:induction false} CountAdmit(slots: seq<Slot>, o: nat, payload: Bytes)
    requires o < |slots| && slots[o].Empty?
    ensures Count(slots[o := Admitted(payload)]) == Count(slots) + 1
  {
    var next := slots[o := Admitted(payload)];
    if o == 0 {
      assert next[1..] == slots[1..];
    } else {
      CountAdmit(slots[1..], o - 1, payload);
      assert next[1..] == slots[1..][o - 1 := Admitted(payload)];
    }
  }

  lemma {:induction false} CountFull(slots: seq<Slot>)
    ensures Count(slots) == |slots| <==> forall o :: 0 <= o < |slots| ==> slots[o].Admitted?
  {
    if slots != [] {
      CountFull(slots[1..]);
      assert forall o :: 0 <= o < |slots[1..]| ==> slots[1..][o] == slots[o + 1];
      assert forall o :: 1 <= o < |slots| ==> slots[o] == slots[1..][o - 1];
    }
  }

  lemma {:induction false} CountSome(slots: seq<Slot>)
    requires Count(slots) > 0
    ensures exists o :: 0 <= o < |slots| && slots[o].Admitted?
  {
    if !slots[0].Admitted? {
      CountSome(slots[1..]);
      var o :| 0 <= o < |slots[1..]| && slots[1..][o].Admitted?;
      assert slots[o + 1].Admitted?;
    }
  }

  lemma {:induction false} CountNone(n: nat)
    ensures Count(seq(n, _ => Empty)) == 0
  {
    if n > 0 {
      CountNone(n - 1);
      assert seq(n, _ => Empty)[1..] == seq(n - 1, _ => Empty);
    }
  }

  /** absent: the ordinals from o on that have not arrived, in order. */
  function Absent(slots: seq<Slot>, o: nat := 0): (a: seq<nat>)
    requires o <= |slots|
    ensures forall p :: p in a <==> o <= p < |slots| && slots[p].Empty?
    ensures Increasing(a)
    decreases |slots| - o
  {
    if o == |slots| then []
    else if slots[o].Empty? then
      var rest := Absent(slots, o + 1);
      assert forall i :: 0 <= i < |rest| ==> rest[i] in rest;
      [o] + rest
    else Absent(slots, o + 1)
  }

  /** absent's loop. */
  method ListAbsent(slots: seq<Slot>) returns (a: seq<nat>)
    ensures a == Absent(slots)
  {
    a := [];
    assert [] + Absent(slots, 0) == Absent(slots, 0);
    for o := 0 to |slots|
      invariant a + Absent(slots, o) == Absent(slots)
    {
      if slots[o].Empty? {
        assert a + ([o] + Absent(slots, o + 1)) == a + [o] + Absent(slots, o + 1);
        a := a + [o];
      }
    }
    assert a + [] == a;
  }

  /* ---- The registry and its critical sections ---- */

  datatype Registry = Registry(
    targetB: nat,
    formations: seq<Formation>,
    forming: map<uint32, nat>,
    closed: bool)
  {
    ghost predicate InRange() {
      forall c :: c in forming ==> forming[c] < |formations|
    }

    function Put(f: nat, formation: Formation): Registry
      requires f < |formations|
    {
      this.(formations := formations[f := formation])
    }

    function Append(formation: Formation): Registry {
      this.(formations := formations + [formation], forming := forming[formation.cohort := |formations|])
    }
  }

  datatype Joined = Turned(cause: Cause) | Held(f: nat) | Completed(f: nat)

  /** The formation a member's cohort id names, opened on the first arrival. */
  function Opened(r: Registry, cohort: uint32): Registry {
    if cohort in r.forming then r else r.Append(NewFormation(cohort, r.targetB))
  }

  /** Admission to formation f. */
  function Admit(r: Registry, f: nat, member: LogicalRequest, payload: Bytes, now: int64): (Registry, Joined)
    requires f < |r.formations|
  {
    var F := r.formations[f];
    if F.terminal.Some? then (r, Turned(F.terminal.value))
    else if member.ordinal >= F.targetB || member.ordinal >= |F.slots| then
      (r.Put(f, F.Fail(OutOfRange(member.ordinal))), Turned(OutOfRange(member.ordinal)))
    else if F.slots[member.ordinal].Admitted? then
      (r.Put(f, F.Fail(Duplicate(member.ordinal))), Turned(Duplicate(member.ordinal)))
    else
      var G := F.(slots := F.slots[member.ordinal := Admitted(payload)], arrived := F.arrived + 1);
      if G.arrived < G.targetB then (r.Put(f, G), Held(f))
      else
        var H := G.(sealAt := now, sealed := true, deadline := Stop(G.deadline), sealer := Assembling);
        (r.Put(f, H).Append(SealedAlready(F.cohort, F.targetB)), Completed(f))
  }

  /** join. */
  function Join(r: Registry, member: LogicalRequest, payload: Bytes, now: int64): (Registry, Joined)
    requires r.InRange()
  {
    if r.closed then (r, Turned(ShuttingDown))
    else
      var q := Opened(r, member.cohort);
      Admit(q, q.forming[member.cohort], member, payload, now)
  }

  /** The deadline's goroutine starts. */
  function Fire(r: Registry, f: nat): Registry
    requires f < |r.formations|
  {
    r.Put(f, r.formations[f].(deadline := Fired))
  }

  /** expire: a settled cohort is left alone. */
  function Expire(r: Registry, f: nat): Registry
    requires f < |r.formations|
  {
    var F := r.formations[f].(deadline := Finished);
    r.Put(f, if F.Open() then F.Fail(Expired(Absent(F.slots))) else F)
  }

  /** What Close does to a formation it finds in the registry. */
  function ShutFormation(F: Formation): Formation {
    if F.Open() then F.(deadline := Stop(F.deadline)).Fail(ShutDown(Absent(F.slots))) else F
  }

  /** Close. */
  function Close(r: Registry): (q: Registry)
    ensures |q.formations| == |r.formations|
  {
    r.(closed := true, formations := seq(|r.formations|, f requires 0 <= f < |r.formations| =>
      if r.formations[f].cohort in r.forming && r.forming[r.formations[f].cohort] == f
      then ShutFormation(r.formations[f]) else r.formations[f]))
  }

  /** assembled: the members in ordinal order and the payload admitted for each. */
  function AssembledMembers(F: Formation): seq<LogicalRequest>
    requires F.targetB <= TWO_32
  {
    seq(F.targetB, o requires 0 <= o < F.targetB => LogicalRequest(F.cohort, o))
  }

  function AssembledPayloads(F: Formation): seq<Bytes> {
    seq(F.targetB, o requires 0 <= o < F.targetB =>
      if o < |F.slots| && F.slots[o].Admitted? then F.slots[o].payload else [])
  }

  /** sealAndSend up to the send, given what the builder returned. */
  function Assembled(r: Registry, f: nat, built: Built, now: int64): Registry
    requires f < |r.formations|
  {
    var F := r.formations[f].(sendAt := now);
    match built
    case Refused(fault) => r.Put(f, F.Fail(NotBuilt(fault)).(sealer := Over))
    case Sent(env) => r.Put(f, F.(env := Some(env), sealer := Sending))
  }

  /** sealAndSend from the backend's return to the close of done. */
  function Answered(r: Registry, f: nat, reply: Reply, now: int64): Registry
    requires f < |r.formations|
  {
    var F := r.formations[f];
    r.Put(f, F.(respRecvAt := now, reply := reply, sealer := Over, closes := F.closes + 1))
  }

  /* ---- What every step keeps ---- */

  /** The sealing member's progress after the seal. */
  ghost predicate SealerShape(F: Formation) {
    match F.sealer
    case Idle => false
    case Assembling => F.closes == 0 && F.env.None?
    case Sending => F.closes == 0 && F.env.Some?
    case Over => F.closes == 1 && F.env.Some?
  }

  /**
   The five shapes of a formation: the marker of a sealed cohort, sealed, assembling,
   and failed. `own` says the registry still names it; `settled` that the registry holds
   a marker under its cohort id.
   */
  ghost predicate ShapeOf(F: Formation, targetB: nat, closed: bool, own: bool, settled: bool) {
    && F.targetB == targetB
    && if F.Marker() then
         && F.closes == 1 && !F.sealed && F.slots == [] && F.sealer == Idle
         && F.env.None? && F.deadline == NoTimer && own
       else if F.sealed then
         && F.terminal.None? && F.arrived == |F.slots| == targetB && Count(F.slots) == targetB
         && SealerShape(F) && F.deadline != Armed && settled
       else if F.terminal.None? then
         && !closed && F.closes == 0 && |F.slots| == targetB && 0 < F.arrived == Count(F.slots) < targetB
         && (F.deadline == Armed || F.deadline == Fired) && F.sealer == Idle && F.env.None? && own
       else
         && F.closes == 1 && F.slots == [] && F.sealer == Idle && F.env.None? && own
  }

  ghost predicate Shape(r: Registry, f: nat)
    requires f < |r.formations| && r.InRange()
  {
    var F := r.formations[f];
    && F.cohort in r.forming
    && ShapeOf(F, r.targetB, r.closed, r.forming[F.cohort] == f, r.formations[r.forming[F.cohort]].Marker())
  }

  /** Every formation has one of the shapes, and a cohort id names one formation ever. */
  ghost predicate Inv(r: Registry) {
    && r.targetB > 0 && r.InRange()
    && (forall c :: c in r.forming ==> r.formations[r.forming[c]].cohort == c)
    && (forall f :: 0 <= f < |r.formations| ==> Shape(r, f))
    && Unique(r)
  }

  ghost predicate Unique(r: Registry) {
    forall f, g :: 0 <= f < g < |r.formations| && !r.formations[f].Marker() && !r.formations[g].Marker() ==>
      r.formations[f].cohort != r.formations[g].cohort
  }

  /** One formation's step within its cohort disturbs no other. */
  lemma PutKeeps(r: Registry, f: nat, F: Formation)
    requires Inv(r) && f < |r.formations| && F.cohort == r.formations[f].cohort && F.cohort in r.forming
    requires !F.Marker() && !r.formations[f].Marker()
    requires ShapeOf(F, r.targetB, r.closed, r.forming[F.cohort] == f,
                     r.forming[F.cohort] != f && r.formations[r.forming[F.cohort]].Marker())
    ensures Inv(r.Put(f, F))
  {
    hide ShapeOf;
    var q := r.Put(f, F);
    forall g | 0 <= g < |q.formations| ensures Shape(q, g) {
      assert Shape(r, g);
    }
  }

  /** The seal: formation f completes and a marker takes its place in the registry. */
  lemma SealKeeps(r: Registry, f: nat, F: Formation)
    requires Inv(r) && f < |r.formations| && F.cohort == r.formations[f].cohort && F.cohort in r.forming
    requires !F.Marker() && !r.formations[f].Marker() && r.forming[F.cohort] == f
    requires ShapeOf(F, r.targetB, r.closed, false, true)
    ensures Inv(r.Put(f, F).Append(SealedAlready(F.cohort, r.targetB)))
  {
    var q := r.Put(f, F).Append(SealedAlready(F.cohort, r.targetB));
    forall g | 0 <= g < |q.formations| ensures Shape(q, g) {
      if g < |r.formations| {
        assert Shape(r, g);
      }
    }
  }

  /** A formation opened for a new cohort id, in whatever shape its first member leaves it. */
  lemma OpenKeeps(r: Registry, F: Formation)
    requires Inv(r) && F.cohort !in r.forming && !F.Marker()
    requires ShapeOf(F, r.targetB, r.closed, true, false)
    ensures Inv(r.Append(F))
  {
    hide ShapeOf;
    var q := r.Append(F);
    forall g | 0 <= g < |q.formations| ensures Shape(q, g) {
      if g < |r.formations| {
        assert Shape(r, g);
      }
    }
    forall g | 0 <= g < |r.formations| ensures r.formations[g].cohort in r.forming {
      assert Shape(r, g);
    }
  }

  lemma AdmitKeeps(r: Registry, f: nat, member: LogicalRequest, payload: Bytes, now: int64)
    requires Inv(r) && !r.closed && member.cohort in r.forming && r.forming[member.cohort] == f
    ensures Inv(Admit(r, f, member, payload, now).0)
  {
    var F := r.formations[f];
    assert Shape(r, f);
    if F.terminal.None? {
      if member.ordinal >= F.targetB {
        PutKeeps(r, f, F.Fail(OutOfRange(member.ordinal)));
      } else if F.slots[member.ordinal].Admitted? {
        PutKeeps(r, f, F.Fail(Duplicate(member.ordinal)));
      } else {
        CountAdmit(F.slots, member.ordinal, payload);
        var G := F.(slots := F.slots[member.ordinal := Admitted(payload)], arrived := F.arrived + 1);
        if G.arrived < G.targetB {
          PutKeeps(r, f, G);
        } else {
          SealKeeps(r, f, G.(sealAt := now, sealed := true, deadline := Stop(G.deadline), sealer := Assembling));
        }
      }
    }
  }

  /** The first arrival of a cohort: its formation is opened and left in one of the shapes. */
  lemma FirstAdmitKeeps(r: Registry, member: LogicalRequest, payload: Bytes, now: int64)
    requires Inv(r) && !r.closed && member.cohort !in r.forming
    ensures Inv(Join(r, member, payload, now).0)
  {
    var F := NewFormation(member.cohort, r.targetB);
    var q, f := r.Append(F), |r.formations|;
    assert q.formations[f] == F && forall G :: q.Put(f, G).formations == r.formations + [G];
    CountNone(r.targetB);
    if member.ordinal >= r.targetB {
      OpenKeeps(r, F.Fail(OutOfRange(member.ordinal)));
      assert q.Put(f, F.Fail(OutOfRange(member.ordinal))) == r.Append(F.Fail(OutOfRange(member.ordinal)));
    } else {
      CountAdmit(F.slots, member.ordinal, payload);
      var G := F.(slots := F.slots[member.ordinal := Admitted(payload)], arrived := 1);
      if 1 < r.targetB {
        OpenKeeps(r, G);
        assert q.Put(f, G) == r.Append(G);
      } else {
        // A cohort of one seals on its first arrival: open it failed, then put the sealed form in place.
        var H := G.(sealAt := now, sealed := true, deadline := Finished, sealer := Assembling);
        var dummy := F.Fail(ShuttingDown);
        OpenKeeps(r, dummy);
        SealKeeps(r.Append(dummy), f, H);
        assert r.Append(dummy).Put(f, H) == q.Put(f, H);
      }
    }
  }

  lemma JoinKeeps(r: Registry, member: LogicalRequest, payload: Bytes, now: int64)
    requires Inv(r)
    ensures Inv(Join(r, member, payload, now).0)
  {
    if !r.closed {
      if member.cohort in r.forming {
        AdmitKeeps(r, r.forming[member.cohort], member, payload, now);
      } else {
        FirstAdmitKeeps(r, member, payload, now);
      }
    }
  }

  /** The formation an arrival is judged by: the cohort's own, and whole if it is still open. */
  lemma OpenedShape(r: Registry, cohort: uint32)
    requires Inv(r) && !r.closed
    ensures var q := Opened(r, cohort);
            && cohort in q.forming && q.forming[cohort] < |q.formations|
            && var F := q.formations[q.forming[cohort]];
            && F.cohort == cohort && F.targetB == r.targetB
            && (F.terminal.None? ==> F.Open() && F.closes == 0 && F.env.None? && |F.slots| == r.targetB)
  {
    if cohort in r.forming {
      assert Shape(r, r.forming[cohort]);
    }
  }

  lemma FireKeeps(r: Registry, f: nat)
    requires Inv(r) && f < |r.formations| && r.formations[f].deadline == Armed
    ensures Inv(Fire(r, f))
  {
    assert Shape(r, f);
    PutKeeps(r, f, r.formations[f].(deadline := Fired));
  }

  lemma ExpireKeeps(r: Registry, f: nat)
    requires Inv(r) && f < |r.formations| && r.formations[f].deadline == Fired
    ensures Inv(Expire(r, f))
  {
    assert Shape(r, f);
    var F := r.formations[f].(deadline := Finished);
    PutKeeps(r, f, if F.Open() then F.Fail(Expired(Absent(F.slots))) else F);
  }

  lemma CloseKeeps(r: Registry)
    requires Inv(r)
    ensures Inv(Close(r))
    ensures forall f :: 0 <= f < |r.formations| ==> !Close(r).formations[f].Open()
  {
    var q := Close(r);
    forall f | 0 <= f < |r.formations|
      ensures q.formations[f].cohort == r.formations[f].cohort
      ensures q.formations[f].Marker() == r.formations[f].Marker()
      ensures !q.formations[f].Open()
    {
      assert Shape(r, f);
    }
    forall f | 0 <= f < |q.formations| ensures Shape(q, f) {
      assert Shape(r, f);
    }
  }

  lemma AssembledKeeps(r: Registry, f: nat, env: Envelope, now: int64)
    requires Inv(r) && f < |r.formations| && r.formations[f].sealer == Assembling
    ensures Inv(Assembled(r, f, Sent(env), now))
  {
    assert Shape(r, f);
    PutKeeps(r, f, r.formations[f].(sendAt := now, env := Some(env), sealer := Sending));
  }

  lemma AnsweredKeeps(r: Registry, f: nat, reply: Reply, now: int64)
    requires Inv(r) && f < |r.formations| && r.formations[f].sealer == Sending
    ensures Inv(Answered(r, f, reply, now))
  {
    assert Shape(r, f);
    var F := r.formations[f];
    PutKeeps(r, f, F.(respRecvAt := now, reply := reply, sealer := Over, closes := F.closes + 1));
  }

  /** A sealed formation holds every one of its members' payloads. */
  lemma SealedIsComplete(r: Registry, f: nat)
    requires Inv(r) && f < |r.formations| && r.formations[f].sealer == Assembling
    ensures var F := r.formations[f];
            && F.sealed && F.env.None? && F.terminal.None? && |F.slots| == F.targetB == r.targetB > 0
            && forall o :: 0 <= o < |F.slots| ==> F.slots[o].Admitted?
  {
    assert Shape(r, f);
    CountFull(r.formations[f].slots);
  }

  /** The builder never refuses a complete cohort: it is sent, ordinal o at place o with what slot o held. */
  lemma CompleteIsSent(cfg: Config, id: uint64, F: Formation, now: int64, rest: nat)
    requires F.targetB == cfg.targetB == |F.slots| && 0 < F.targetB <= TWO_32
    requires forall o :: 0 <= o < |F.slots| ==> F.slots[o].Admitted?
    requires PayloadBytes(AssembledPayloads(F)) <= rest < TWO_63
    ensures var built := Aggregated(cfg, id, AssembledMembers(F), AssembledPayloads(F), F.sealAt, now, rest);
            && built.Sent?
            && built.env == Base(cfg, id).(
                 cohort := F.cohort, expectedMembers := F.targetB % TWO_32, aggregate := true, sentAt := now as int,
                 seal := Some(F.sealAt as int), requests := built.env.requests, logicalBytes := built.env.logicalBytes,
                 auxiliaryBytes := built.env.auxiliaryBytes)
            && |built.env.requests| == F.targetB
            && forall o :: 0 <= o < F.targetB ==>
                 built.env.requests[o] == MemberOf(LogicalRequest(F.cohort, o), F.slots[o].payload)
  {
    hide Uid, ByteAccounting.Auxiliary;
    var members, payloads := AssembledMembers(F), AssembledPayloads(F);
    assert Ordinals(members) == seq(F.targetB, o requires 0 <= o < F.targetB => o);
    IdentityIsExact(Ordinals(members));
    assert members[0].cohort == F.cohort;
    forall o: nat | o < F.targetB ensures PayloadFor(members, payloads, o) == F.slots[o].payload {
      PayloadForAt(members, payloads, o);
    }
  }

  /** done is closed at most once, and while it is open something is always there to close it. */
  lemma OneCloserAlways(r: Registry, f: nat)
    requires Inv(r) && f < |r.formations|
    ensures var F := r.formations[f];
            && F.closes <= 1
            && (!F.Done() ==> if F.sealed then F.sealer == Assembling || F.sealer == Sending
                              else F.deadline == Armed || F.deadline == Fired)
  {
    assert Shape(r, f);
  }
}
