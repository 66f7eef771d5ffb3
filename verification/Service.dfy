/**
 The proxy's registry as it is kept in memory (internal/proxy/cohort.go): formations are
 objects shared between the registry and the members waiting on them, and join, expire,
 Close and sealAndSend update them in place. Each method is one critical section, and
 refines the step of the same name on registry values.
 */
module Service {
  import opened Identity
  import opened Schema
  import opened Wire
  import opened Envelope
  import F = Formation

  /** formation. */
  class Forming {
    const cohort: uint32
    const targetB: nat
    var closes: nat
    var slots: seq<F.Slot>
    var arrived: nat
    var sealAt: int64
    var sealed: bool
    var deadline: F.Timer
    var terminal: Option<F.Cause>
    ghost var sealer: F.Sealer
    var env: Option<Envelope>
    var sendAt: int64
    var respRecvAt: int64
    var reply: F.Reply

    ghost function Value(): F.Formation
      reads this
    {
      F.Formation(cohort, targetB, closes, slots, arrived, sealAt, sealed, deadline, terminal, sealer, env, sendAt,
                  respRecvAt, reply)
    }

    /** newFormation, with the deadline the caller arms. */
    constructor Opened(cohort: uint32, targetB: nat)
      ensures Value() == F.NewFormation(cohort, targetB)
    {
      this.cohort, this.targetB := cohort, targetB;
      closes, slots, arrived := 0, seq(targetB, _ => F.Empty), 0;
      sealAt, sealed, deadline, terminal := 0, false, F.Armed, None;
      sealer, env, sendAt, respRecvAt, reply := F.Idle, None, 0, 0, F.Unanswered;
    }

    constructor SealedAlready(cohort: uint32, targetB: nat)
      ensures Value() == F.SealedAlready(cohort, targetB)
    {
      this.cohort, this.targetB := cohort, targetB;
      closes, slots, arrived := 1, [], 0;
      sealAt, sealed, deadline, terminal := 0, false, F.NoTimer, Some(F.AlreadySealed);
      sealer, env, sendAt, respRecvAt, reply := F.Idle, None, 0, 0, F.Unanswered;
    }

    method FailLocked(cause: F.Cause)
      modifies this
      ensures Value() == old(Value()).Fail(cause)
    {
      terminal := Some(cause);
      slots := [];
      closes := closes + 1;
    }

    /** What Close does to one cohort. */
    method Shut()
      modifies this
      ensures Value() == F.ShutFormation(old(Value()))
    {
      if !(sealed || terminal.Some?) {
        deadline := F.Stop(deadline);
        var missing := Absent();
        FailLocked(F.ShutDown(missing));
      }
    }

    /** absent. */
    method Absent() returns (a: seq<nat>)
      ensures a == F.Absent(slots)
    {
      a := F.ListAbsent(slots);
    }

    /** assembled: a walk over the slots. */
    method Assembled() returns (members: seq<LogicalRequest>, payloads: seq<Bytes>)
      requires targetB <= TWO_32 && |slots| == targetB && forall o :: 0 <= o < |slots| ==> slots[o].Admitted?
      ensures members == F.AssembledMembers(Value()) && payloads == F.AssembledPayloads(Value())
    {
      members, payloads := [], [];
      for o := 0 to |slots|
        invariant |members| == |payloads| == o
        invariant forall p :: 0 <= p < o ==> members[p] == LogicalRequest(cohort, p) && payloads[p] == slots[p].payload
      {
        members := members + [LogicalRequest(cohort, o)];
        payloads := payloads + [slots[o].payload];
      }
    }
  }

  class Service {
    const cfg: Config
    const builder: Builder
    var forming: map<uint32, Forming>
    var closed: bool

    /** Every formation ever made, in order, and which of them each cohort id names. */
    ghost var all: seq<Forming>
    ghost var named: map<uint32, nat>

    ghost predicate Valid()
      reads this, all
    {
      && (forall i, j :: 0 <= i < j < |all| ==> all[i] != all[j])
      && forming.Keys == named.Keys
      && (forall c :: c in named ==> named[c] < |all| && all[named[c]] == forming[c] && forming[c].cohort == c)
    }

    /** The registry value the memory stands for. */
    ghost function Abs(): F.Registry
      reads this, all
    {
      F.Registry(cfg.targetB, seq(|all|, i requires 0 <= i < |all| reads this, all => all[i].Value()), named, closed)
    }

    constructor (cfg: Config, builder: Builder)
      requires cfg.Valid() && builder.cfg == cfg
      ensures this.cfg == cfg && this.builder == builder && fresh(this)
      ensures Valid() && Abs() == F.Registry(cfg.targetB, [], map[], false)
    {
      this.cfg, this.builder := cfg, builder;
      forming, closed := map[], false;
      all, named := [], map[];
    }

    /** A formation enters the registry under its cohort id. */
    method Register(f: Forming)
      requires Valid() && f !in all
      modifies this
      ensures Valid() && all == old(all) + [f] && forming == old(forming)[f.cohort := f]
      ensures closed == old(closed) && Abs() == old(Abs()).Append(f.Value())
    {
      forming := forming[f.cohort := f];
      named := named[f.cohort := |all|];
      all := all + [f];
    }

    /** join. */
    method Join(member: LogicalRequest, payload: Bytes, now: int64)
      returns (f: Forming?, complete: bool, err: Option<F.Cause>)
      requires Valid() && F.Inv(Abs())
      modifies this, all
      ensures Valid() && F.Inv(Abs())
      ensures Abs() == F.Join(old(Abs()), member, payload, now).0
      ensures Answers(F.Join(old(Abs()), member, payload, now).1, f, complete, err)
    {
      F.JoinKeeps(Abs(), member, payload, now);
      if closed {
        return null, false, Some(F.ShuttingDown);
      }
      if member.cohort !in forming {
        var begun := new Forming.Opened(member.cohort, cfg.targetB);
        Register(begun);
      }
      F.OpenedShape(old(Abs()), member.cohort);
      assert Abs() == F.Opened(old(Abs()), member.cohort);
      f, complete, err := Admit(forming[member.cohort], named[member.cohort], member, payload, now);
    }

    /** What join returns, against the registry's answer. */
    ghost predicate Answers(j: F.Joined, f: Forming?, complete: bool, err: Option<F.Cause>)
      reads this, all
    {
      match j
      case Turned(cause) => f == null && !complete && err == Some(cause)
      case Held(i) => i < |all| && f == all[i] && !complete && err.None?
      case Completed(i) => i < |all| && f == all[i] && complete && err.None?
    }

    /** Formation i alone has changed. */
    twostate predicate OnlyAt(i: nat)
      reads this, all
    {
      && all == old(all) && named == old(named) && closed == old(closed) && forming == old(forming) && i < |all|
      && forall k :: 0 <= k < |all| && k != i ==> all[k].Value() == old(all[k].Value())
    }

    /** One object's update in memory is one formation's update in the registry value. */
    twostate lemma PutIs(i: nat)
      requires old(Valid()) && OnlyAt(i)
      ensures Valid() && Abs() == old(Abs()).Put(i, all[i].Value())
    {
    }

    method FailAt(f: Forming, ghost i: nat, cause: F.Cause)
      requires Valid() && i < |all| && all[i] == f
      modifies f
      ensures Valid() && Abs() == old(Abs()).Put(i, old(f.Value()).Fail(cause))
    {
      f.FailLocked(cause);
      PutIs(i);
    }

    method Seal(f: Forming, ghost i: nat, now: int64)
      requires Valid() && i < |all| && all[i] == f
      modifies f
      ensures Valid()
      ensures Abs() == old(Abs()).Put(i, old(f.Value()).(sealAt := now, sealed := true, sealer := F.Assembling,
                                                         deadline := F.Stop(old(f.deadline))))
    {
      f.sealAt, f.sealed, f.sealer := now, true, F.Assembling;
      f.deadline := F.Stop(f.deadline);
      PutIs(i);
    }

    /** The part of join that judges the member against its cohort's formation. */
    method Admit(f: Forming, ghost i: nat, member: LogicalRequest, payload: Bytes, now: int64)
      returns (r: Forming?, complete: bool, err: Option<F.Cause>)
      requires Valid() && i < |all| && all[i] == f
      requires f.terminal.None? ==> |f.slots| == f.targetB
      modifies this, f
      ensures Valid() && Abs() == F.Admit(old(Abs()), i, member, payload, now).0
      ensures Answers(F.Admit(old(Abs()), i, member, payload, now).1, r, complete, err)
    {
      ghost var before := Abs();
      assert before.formations[i] == f.Value();
      if f.terminal.Some? {
        return null, false, f.terminal;
      }
      if member.ordinal >= f.targetB {
        FailAt(f, i, F.OutOfRange(member.ordinal));
        return null, false, Some(F.OutOfRange(member.ordinal));
      }
      if f.slots[member.ordinal].Admitted? {
        FailAt(f, i, F.Duplicate(member.ordinal));
        return null, false, Some(F.Duplicate(member.ordinal));
      }
      f.slots := f.slots[member.ordinal := F.Admitted(payload)];
      f.arrived := f.arrived + 1;
      PutIs(i);
      if f.arrived < f.targetB {
        return f, false, None;
      }
      Complete(f, i, now);
      return f, true, None;
    }

    /** The seal, and the verdict it leaves on the cohort id. */
    method Complete(f: Forming, ghost i: nat, now: int64)
      requires Valid() && i < |all| && all[i] == f
      modifies this, f
      ensures Valid() && i < |all| && all[i] == f
      ensures Abs() == old(Abs()).Put(i, old(f.Value()).(sealAt := now, sealed := true, sealer := F.Assembling,
                                                         deadline := F.Stop(old(f.deadline))))
                                 .Append(F.SealedAlready(f.cohort, f.targetB))
    {
      Seal(f, i, now);
      var marker := new Forming.SealedAlready(f.cohort, f.targetB);
      Register(marker);
    }

    /** expire. */
    method Expire(f: Forming, ghost i: nat)
      requires Valid() && i < |all| && all[i] == f
      modifies f
      ensures Valid() && Abs() == F.Expire(old(Abs()), i)
    {
      f.deadline := F.Finished;
      if f.sealed || f.terminal.Some? {
        PutIs(i);
        return;
      }
      var absent := f.Absent();
      f.FailLocked(F.Expired(absent));
      PutIs(i);
    }

    /** Whether formation k, of cohort c, is the one the registry holds under its id. */
    ghost predicate Names(c: uint32, k: nat)
      reads this
    {
      c in named && named[c] == k
    }

    /** Close has dealt with every cohort but those in `cohorts`. */
    ghost predicate Halfway(was: seq<F.Formation>, cohorts: set<uint32>)
      reads this, all
    {
      && |was| == |all|
      && forall k :: 0 <= k < |all| ==>
           all[k].Value()
           == if Names(was[k].cohort, k) && was[k].cohort !in cohorts then F.ShutFormation(was[k]) else was[k]
    }

    lemma NoneShut()
      requires Valid()
      ensures Halfway(Abs().formations, forming.Keys) && Abs().forming == named && Abs().targetB == cfg.targetB
    {
    }

    lemma HeldIsKnown(c: uint32)
      requires Valid() && c in forming
      ensures forming[c] in all
    {
    }

    method MarkClosed(ghost was: seq<F.Formation>)
      requires Valid() && Halfway(was, forming.Keys)
      modifies this`closed
      ensures Valid() && closed && Halfway(was, forming.Keys)
    {
      closed := true;
    }

    lemma AllShut(r: F.Registry)
      requires Valid() && closed && Halfway(r.formations, {}) && named == r.forming && r.targetB == cfg.targetB
      ensures Abs() == F.Close(r)
    {
      assert Abs().formations == F.Close(r).formations;
    }

    /** Close: the registry's cohorts are failed one by one, in whatever order the map yields them. */
    method Close()
      requires Valid()
      modifies this, all
      ensures Valid() && Abs() == F.Close(old(Abs()))
    {
      hide *;
      ghost var was := Abs();
      NoneShut();
      MarkClosed(was.formations);
      var cohorts := forming.Keys;
      while cohorts != {}
        invariant Valid() && closed && all == old(all) && named == old(named) && cohorts <= forming.Keys
        invariant Halfway(was.formations, cohorts)
        decreases |cohorts|
      {
        var c :| c in cohorts;
        HeldIsKnown(c);
        CloseCohort(c, cohorts, was.formations);
        cohorts := cohorts - {c};
      }
      AllShut(was);
    }

    /** The body of Close's loop. */
    method CloseCohort(c: uint32, ghost cohorts: set<uint32>, ghost was: seq<F.Formation>)
      requires Valid() && c in cohorts && c in forming && Halfway(was, cohorts)
      modifies forming[c]
      ensures Valid() && Halfway(was, cohorts - {c})
    {
      var f := forming[c];
      ghost var i := named[c];
      assert f.Value() == was[i];
      f.Shut();
      PutIs(i);
    }

    /** sealAndSend up to the send: false when the builder refuses the cohort. */
    method Assemble(f: Forming, ghost i: nat, now: int64, rest: nat) returns (sent: bool)
      requires Valid() && F.Inv(Abs()) && i < |all| && all[i] == f
      requires f.sealer == F.Assembling && f.targetB <= TWO_32
      requires PayloadBytes(F.AssembledPayloads(f.Value())) <= rest < TWO_63 && builder.cfg == cfg
      modifies f, builder
      ensures Valid() && sent && builder.nextID == (old(builder.nextID) + 1) % TWO_64
      ensures var v := old(f.Value());
              var built := Aggregated(cfg, builder.nextID, F.AssembledMembers(v), F.AssembledPayloads(v), v.sealAt,
                                      now, rest);
              built.Sent? && Abs() == F.Assembled(old(Abs()), i, built, now)
    {
      F.SealedIsComplete(Abs(), i);
      var members, payloads := f.Assembled();
      f.sendAt := now;
      var built := builder.Aggregate(members, payloads, f.sealAt, now, rest);
      F.CompleteIsSent(cfg, builder.nextID, old(f.Value()), now, rest);
      if built.Refused? {
        f.FailLocked(F.NotBuilt(built.fault));
        return false;
      }
      f.env, f.sealer := Some(built.env), F.Sending;
      PutIs(i);
      sent := true;
    }

    /** sealAndSend from the backend's return to the close of done. */
    method Answer(f: Forming, ghost i: nat, reply: F.Reply, now: int64)
      requires Valid() && i < |all| && all[i] == f
      modifies f
      ensures Valid() && Abs() == F.Answered(old(Abs()), i, reply, now)
    {
      f.respRecvAt, f.reply := now, reply;
      f.sealer, f.closes := F.Over, f.closes + 1;
      PutIs(i);
    }
  }
}
