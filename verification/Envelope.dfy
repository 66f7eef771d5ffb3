/** The proxy-to-adapter transport contract (internal/envelope/envelope.go). */
module Envelope {
  import opened Identity
  import opened Schema
  import opened Wire
  import opened Sorting
  import ByteAccounting

  const ENVELOPE_SCHEMA: uint32 := 1

  datatype Config = Config(run: Bytes, cell: Cell, clockDomain: Bytes, targetB: nat)
  {
    predicate Valid() {
      run != [] && clockDomain != [] && 0 < targetB < TWO_63
    }
  }

  /** One logical request as the envelope carries it. */
  datatype Member = Member(cohort: uint32, ordinal: uint32, uid: int64, payload: Bytes)

  datatype Envelope = Envelope(
    schemaVersion: uint32,
    run: Bytes,
    cell: Cell,
    clockDomain: Bytes,
    targetB: uint32,
    vectorize: bool,
    cohort: uint32,
    envelopeID: uint64,
    expectedMembers: uint32,
    aggregate: bool,
    sentAt: int,
    seal: Option<int>,
    requests: seq<Member>,
    logicalBytes: nat,
    auxiliaryBytes: nat)

  datatype Fault =
    | PayloadCount | NoMembers | MixedCohorts | NotACohort
    | WrongSchema | WrongRun | WrongCell | WrongClockDomain | WrongTargetB
    | WrongAggregate | WrongVectorize | MemberCount | AggregateCount | NoSeal
    | IndependentCount | UnexpectedSeal | WrongUid | ForeignMember | EmptyPayload
    | NotCanonical

  datatype Built = Sent(env: Envelope) | Refused(fault: Fault)

  function MemberOf(r: LogicalRequest, payload: Bytes): Member {
    Member(r.cohort, r.ordinal, Uid(r), payload)
  }

  function Base(cfg: Config, id: uint64): Envelope {
    Envelope(ENVELOPE_SCHEMA, cfg.run, cfg.cell, cfg.clockDomain, cfg.targetB % TWO_32,
             cfg.cell.VectorizesCompute(), 0, id, 0, false, 0, None, [], 0, 0)
  }

  function PayloadBytes(payloads: seq<Bytes>): nat {
    if payloads == [] then 0 else |payloads[0]| + PayloadBytes(payloads[1..])
  }

  /* ---- Cohort membership ---- */

  function Ordinals(members: seq<LogicalRequest>): (o: seq<nat>)
    ensures |o| == |members|
  {
    seq(|members|, i requires 0 <= i < |members| => members[i].ordinal)
  }

  function RequestsOf(members: seq<Member>): (r: seq<LogicalRequest>)
    ensures |r| == |members|
  {
    seq(|members|, i requires 0 <= i < |members| => LogicalRequest(members[i].cohort, members[i].ordinal))
  }

  /** Each ordinal below B exactly once, and nothing else. */
  ghost predicate ExactCohort(ordinals: seq<nat>, targetB: nat) {
    && (forall i :: 0 <= i < |ordinals| ==> ordinals[i] < targetB)
    && (forall o :: 0 <= o < targetB ==> multiset(ordinals)[o] == 1)
  }

  ghost predicate Ascending(ordinals: seq<nat>) {
    forall i, j :: 0 <= i < j < |ordinals| ==> ordinals[i] <= ordinals[j]
  }

  lemma OnceMeansPresent(s: seq<nat>, o: nat) returns (i: nat)
    requires multiset(s)[o] >= 1
    ensures i < |s| && s[i] == o
  {
    assert o in multiset(s);
    assert o in s;
    i :| 0 <= i < |s| && s[i] == o;
  }

  /** Sorted ordinals that form an exact cohort are 0, 1, ..., B-1. */
  lemma ExactSortedIsIdentity(s: seq<nat>, targetB: nat)
    requires ExactCohort(s, targetB) && Ascending(s)
    ensures |s| == targetB && forall i :: 0 <= i < |s| ==> s[i] == i
  {
    forall i, j | 0 <= i < j < |s| ensures s[i] < s[j] {
      OnceMeansDistinct(s, i, j);
    }
    forall i | 0 <= i < |s| ensures s[i] >= i {
      AtLeastIndex(s, i);
    }
    forall o: nat | o < targetB ensures o < |s| && s[o] == o {
      HitsIndex(s, targetB, o);
    }
    if targetB > 0 { HitsIndex(s, targetB, targetB - 1); }
    if |s| > targetB {
      AtLeastIndex(s, targetB);
    }
  }

  lemma {:induction false} AtLeastIndex(s: seq<nat>, i: nat)
    requires Increasing(s) && i < |s|
    ensures s[i] >= i
  {
    if i > 0 {
      AtLeastIndex(s, i - 1);
    }
  }

  lemma {:induction false} HitsIndex(s: seq<nat>, targetB: nat, o: nat)
    requires ExactCohort(s, targetB) && Increasing(s) && o < targetB
    ensures o < |s| && s[o] == o
    decreases o
  {
    var k := OnceMeansPresent(s, o);
    AtLeastIndex(s, k);
    if k < o {
      HitsIndex(s, targetB, k);
    }
  }

  /** The identity sequence is an exact cohort. */
  lemma {:induction false} IdentityIsExact(s: seq<nat>)
    requires forall i :: 0 <= i < |s| ==> s[i] == i
    ensures ExactCohort(s, |s|)
  {
    if s != [] {
      var n := |s| - 1;
      IdentityIsExact(s[..n]);
      assert s == s[..n] + [n];
      assert multiset(s) == multiset(s[..n]) + multiset{n};
      assert n !in s[..n];
      assert multiset(s[..n])[n] == 0;
    }
  }

  /* ---- Construction ---- */

  lemma ExactFitsOrdinal(members: seq<LogicalRequest>, targetB: nat)
    requires ExactCohort(Ordinals(members), targetB)
    ensures targetB <= TWO_32
  {
    if targetB > TWO_32 {
      var k := OnceMeansPresent(Ordinals(members), TWO_32);
    }
  }

  /** The payload that arrived with ordinal o. */
  function PayloadFor(members: seq<LogicalRequest>, payloads: seq<Bytes>, o: nat): Bytes
    requires |members| == |payloads|
  {
    if members == [] then []
    else if members[0].ordinal == o then payloads[0]
    else PayloadFor(members[1..], payloads[1..], o)
  }

  /** The cohort's members in ordinal order, each with its own payload. */
  function Canonical(cohort: uint32, members: seq<LogicalRequest>, payloads: seq<Bytes>, targetB: nat): (c: seq<Member>)
    requires |members| == |payloads| && targetB <= TWO_32
    ensures |c| == targetB
  {
    seq(targetB, o requires 0 <= o < targetB =>
      MemberOf(LogicalRequest(cohort, o), PayloadFor(members, payloads, o)))
  }

  /** Builder.Aggregate, as a function of what it was given. `rest` is the envelope's size but for its own counter. */
  ghost function Aggregated(cfg: Config, id: uint64, members: seq<LogicalRequest>, payloads: seq<Bytes>,
                            seal: int, sentAt: int, rest: nat): Built
    requires PayloadBytes(payloads) <= rest < TWO_63
  {
    if |members| != |payloads| then Refused(PayloadCount)
    else if members == [] then Refused(NoMembers)
    else if exists i :: 0 <= i < |members| && members[i].cohort != members[0].cohort then Refused(MixedCohorts)
    else if !ExactCohort(Ordinals(members), cfg.targetB) then Refused(NotACohort)
    else
      ExactFitsOrdinal(members, cfg.targetB);
      var logical := PayloadBytes(payloads);
      Sent(Base(cfg, id).(cohort := members[0].cohort, expectedMembers := |members| % TWO_32, aggregate := true,
                          sentAt := sentAt, seal := Some(seal),
                          requests := Canonical(members[0].cohort, members, payloads, cfg.targetB),
                          logicalBytes := logical, auxiliaryBytes := ByteAccounting.Auxiliary(rest, logical)))
  }

  /* ---- Arrival order does not matter ---- */

  function Pairs(members: seq<LogicalRequest>, payloads: seq<Bytes>): (p: seq<(LogicalRequest, Bytes)>)
    requires |members| == |payloads|
    ensures |p| == |members|
  {
    seq(|members|, i requires 0 <= i < |members| => (members[i], payloads[i]))
  }

  lemma {:induction false} PayloadForAt(members: seq<LogicalRequest>, payloads: seq<Bytes>, k: nat)
    requires |members| == |payloads| && k < |members|
    requires forall i :: 0 <= i < k ==> members[i].ordinal != members[k].ordinal
    ensures PayloadFor(members, payloads, members[k].ordinal) == payloads[k]
  {
    if k > 0 {
      assert members[0].ordinal != members[k].ordinal;
      PayloadForAt(members[1..], payloads[1..], k - 1);
    }
  }

  /** In an exact cohort every member's payload is found under its ordinal. */
  lemma PayloadForMember(members: seq<LogicalRequest>, payloads: seq<Bytes>, targetB: nat, k: nat)
    requires |members| == |payloads| && k < |members| && ExactCohort(Ordinals(members), targetB)
    ensures PayloadFor(members, payloads, members[k].ordinal) == payloads[k]
  {
    forall i | 0 <= i < k ensures members[i].ordinal != members[k].ordinal {
      OnceMeansDistinct(Ordinals(members), i, k);
    }
    PayloadForAt(members, payloads, k);
  }

  lemma PairsFindOrdinal(m1: seq<LogicalRequest>, p1: seq<Bytes>, m2: seq<LogicalRequest>, p2: seq<Bytes>,
                         targetB: nat, o: nat)
    requires |m1| == |p1| && |m2| == |p2| && o < targetB
    requires ExactCohort(Ordinals(m1), targetB) && ExactCohort(Ordinals(m2), targetB)
    requires multiset(Pairs(m1, p1)) == multiset(Pairs(m2, p2))
    ensures PayloadFor(m1, p1, o) == PayloadFor(m2, p2, o)
  {
    var k := OnceMeansPresent(Ordinals(m1), o);
    PayloadForMember(m1, p1, targetB, k);
    var pair := Pairs(m1, p1)[k];
    assert pair in multiset(Pairs(m2, p2));
    assert pair in Pairs(m2, p2);
    var l :| 0 <= l < |m2| && Pairs(m2, p2)[l] == pair;
    PayloadForMember(m2, p2, targetB, l);
  }

  lemma {:induction false} PayloadBytesWithout(payloads: seq<Bytes>, k: nat)
    requires k < |payloads|
    ensures PayloadBytes(payloads) == |payloads[k]| + PayloadBytes(payloads[..k] + payloads[k + 1..])
  {
    if k == 0 {
      assert payloads[..0] + payloads[1..] == payloads[1..];
    } else {
      PayloadBytesWithout(payloads[1..], k - 1);
      var rest := payloads[..k] + payloads[k + 1..];
      assert rest[1..] == payloads[1..][..k - 1] + payloads[1..][k..];
    }
  }

  /** Two arrival orders have the same ordinals, each as often, and payloads of the same total size. */
  lemma {:induction false} SameArrivals(m1: seq<LogicalRequest>, p1: seq<Bytes>, m2: seq<LogicalRequest>,
                                        p2: seq<Bytes>)
    requires |m1| == |p1| && |m2| == |p2| && multiset(Pairs(m1, p1)) == multiset(Pairs(m2, p2))
    ensures multiset(Ordinals(m1)) == multiset(Ordinals(m2)) && PayloadBytes(p1) == PayloadBytes(p2)
  {
    if m1 == [] {
      assert Pairs(m1, p1) == [];
      EmptyMatches(Pairs(m2, p2));
    } else {
      var k := TailMatches(Pairs(m1, p1), Pairs(m2, p2));
      var m, p := m2[..k] + m2[k + 1..], p2[..k] + p2[k + 1..];
      assert Pairs(m1, p1)[1..] == Pairs(m1[1..], p1[1..]);
      assert Pairs(m2, p2)[..k] + Pairs(m2, p2)[k + 1..] == Pairs(m, p);
      SameArrivals(m1[1..], p1[1..], m, p);
      assert Pairs(m2, p2)[k] == Pairs(m1, p1)[0];
      PayloadBytesWithout(p2, k);
      RemoveAt(Ordinals(m2), k);
      assert Ordinals(m2)[..k] + Ordinals(m2)[k + 1..] == Ordinals(m);
      assert Ordinals(m1) == [Ordinals(m1)[0]] + Ordinals(m1[1..]);
    }
  }

  /** And the same exact cohorts. */
  lemma SameExact(a: seq<nat>, b: seq<nat>, targetB: nat)
    requires multiset(a) == multiset(b) && ExactCohort(a, targetB)
    ensures ExactCohort(b, targetB)
  {
    forall i | 0 <= i < |b| ensures b[i] < targetB {
      assert b[i] in multiset(a);
      assert b[i] in a;
    }
  }

  lemma SameCohorts(m1: seq<LogicalRequest>, p1: seq<Bytes>, m2: seq<LogicalRequest>, p2: seq<Bytes>, j: nat)
    requires |m1| == |p1| && |m2| == |p2| && multiset(Pairs(m1, p1)) == multiset(Pairs(m2, p2)) && j < |m2|
    ensures exists i :: 0 <= i < |m1| && m1[i] == m2[j]
  {
    var pair := Pairs(m2, p2)[j];
    assert pair in multiset(Pairs(m1, p1));
    var i :| 0 <= i < |m1| && Pairs(m1, p1)[i] == pair;
  }

  /**
   The order the members arrived in decides nothing: both orders are sent or both refused, for
   the same fault, and what is sent carries the same members and as many bytes of them.
   */
  lemma ArrivalOrderIrrelevant(m1: seq<LogicalRequest>, p1: seq<Bytes>, m2: seq<LogicalRequest>, p2: seq<Bytes>,
                               cfg: Config, id: uint64, seal: int, sentAt: int, rest: nat)
    requires |m1| == |p1| && |m2| == |p2| && multiset(Pairs(m1, p1)) == multiset(Pairs(m2, p2))
    requires PayloadBytes(p1) <= rest < TWO_63
    ensures PayloadBytes(p2) == PayloadBytes(p1)
    ensures Aggregated(cfg, id, m1, p1, seal, sentAt, rest) == Aggregated(cfg, id, m2, p2, seal, sentAt, rest)
  {
    SameArrivals(m1, p1, m2, p2);
    assert |multiset(Ordinals(m1))| == |m1| && |multiset(Ordinals(m2))| == |m2|;
    if m1 != [] {
      if forall i :: 0 <= i < |m1| ==> m1[i].cohort == m1[0].cohort {
        OneCohortEither(m1, p1, m2, p2);
      }
      if forall i :: 0 <= i < |m2| ==> m2[i].cohort == m2[0].cohort {
        OneCohortEither(m2, p2, m1, p1);
      }
      if ExactCohort(Ordinals(m1), cfg.targetB) {
        SameExact(Ordinals(m1), Ordinals(m2), cfg.targetB);
        forall o: nat | o < cfg.targetB ensures PayloadFor(m1, p1, o) == PayloadFor(m2, p2, o) {
          PairsFindOrdinal(m1, p1, m2, p2, cfg.targetB, o);
        }
      } else if ExactCohort(Ordinals(m2), cfg.targetB) {
        SameExact(Ordinals(m2), Ordinals(m1), cfg.targetB);
      }
    }
  }

  lemma OneCohortEither(m1: seq<LogicalRequest>, p1: seq<Bytes>, m2: seq<LogicalRequest>, p2: seq<Bytes>)
    requires |m1| == |p1| == |m2| == |p2| && m1 != [] && multiset(Pairs(m1, p1)) == multiset(Pairs(m2, p2))
    requires forall i :: 0 <= i < |m1| ==> m1[i].cohort == m1[0].cohort
    ensures m2[0].cohort == m1[0].cohort && forall i :: 0 <= i < |m2| ==> m2[i].cohort == m2[0].cohort
  {
    forall j | 0 <= j < |m2| ensures m2[j].cohort == m1[0].cohort {
      SameCohorts(m1, p1, m2, p2, j);
    }
  }

  /* ---- Validation ---- */

  /** What the adapter requires of an arriving envelope. */
  type Expectation = Config

  function MemberFault(m: Member, cohort: uint32): Option<Fault> {
    if m.uid != Uid(LogicalRequest(m.cohort, m.ordinal)) then Some(WrongUid)
    else if m.cohort != cohort then Some(ForeignMember)
    else if m.payload == [] then Some(EmptyPayload)
    else None
  }

  /** The first faulty member's first fault. */
  function FirstMemberFault(members: seq<Member>, cohort: uint32): Option<Fault> {
    if members == [] then None
    else match MemberFault(members[0], cohort)
      case Some(f) => Some(f)
      case None => FirstMemberFault(members[1..], cohort)
  }

  lemma {:induction false} NoMemberFault(members: seq<Member>, cohort: uint32)
    ensures FirstMemberFault(members, cohort).None? <==>
            forall i :: 0 <= i < |members| ==> MemberFault(members[i], cohort).None?
  {
    if members != [] {
      NoMemberFault(members[1..], cohort);
      assert forall i :: 1 <= i < |members| ==> members[i] == members[1..][i - 1];
      assert forall i :: 0 <= i < |members[1..]| ==> members[1..][i] == members[i + 1];
    }
  }

  /** The header and shape tests, in the order Validate makes them. */
  function ShapeFault(env: Envelope, exp: Expectation): Option<Fault> {
    if env.schemaVersion != ENVELOPE_SCHEMA then Some(WrongSchema)
    else if env.run != exp.run then Some(WrongRun)
    else if env.cell != exp.cell then Some(WrongCell)
    else if env.clockDomain != exp.clockDomain then Some(WrongClockDomain)
    else if env.targetB != exp.targetB then Some(WrongTargetB)
    else if env.aggregate != exp.cell.AggregatesEnvelopes() then Some(WrongAggregate)
    else if env.vectorize != exp.cell.VectorizesCompute() then Some(WrongVectorize)
    else if |env.requests| != env.expectedMembers then Some(MemberCount)
    else if env.aggregate then
      if |env.requests| != exp.targetB then Some(AggregateCount)
      else if env.seal.None? then Some(NoSeal)
      else None
    else
      if |env.requests| != 1 then Some(IndependentCount)
      else if env.seal.Some? then Some(UnexpectedSeal)
      else None
  }

  ghost function ValidateFault(env: Envelope, exp: Expectation): Option<Fault> {
    if ShapeFault(env, exp).Some? then ShapeFault(env, exp)
    else if FirstMemberFault(env.requests, env.cohort).Some? then FirstMemberFault(env.requests, env.cohort)
    else if env.aggregate && !ExactCohort(Ordinals(RequestsOf(env.requests)), exp.targetB) then Some(NotACohort)
    else if !Increasing(Ordinals(RequestsOf(env.requests))) then Some(NotCanonical)
    else None
  }

  ghost predicate Accepted(env: Envelope, exp: Expectation) {
    ValidateFault(env, exp).None?
  }

  lemma CanonicalMember(cohort: uint32, members: seq<LogicalRequest>, payloads: seq<Bytes>, targetB: nat, k: nat)
    requires |members| == |payloads| && k < |members| && ExactCohort(Ordinals(members), targetB) && targetB <= TWO_32
    ensures members[k].ordinal < targetB
    ensures Canonical(cohort, members, payloads, targetB)[members[k].ordinal].payload == payloads[k]
  {
    PayloadForMember(members, payloads, targetB, k);
    assert Ordinals(members)[k] < targetB;
  }

  /** The canonical list passes the member tests exactly when no payload is empty. */
  lemma CanonicalMembersPass(cohort: uint32, members: seq<LogicalRequest>, payloads: seq<Bytes>, targetB: nat)
    requires |members| == |payloads| && ExactCohort(Ordinals(members), targetB) && targetB <= TWO_32
    ensures FirstMemberFault(Canonical(cohort, members, payloads, targetB), cohort).None?
       <==> forall i :: 0 <= i < |payloads| ==> payloads[i] != []
  {
    var c := Canonical(cohort, members, payloads, targetB);
    NoMemberFault(c, cohort);
    if forall i :: 0 <= i < |payloads| ==> payloads[i] != [] {
      forall o | 0 <= o < |c| ensures MemberFault(c[o], cohort).None? {
        var k := OnceMeansPresent(Ordinals(members), o);
        CanonicalMember(cohort, members, payloads, targetB, k);
      }
    } else {
      var k :| 0 <= k < |payloads| && payloads[k] == [];
      CanonicalMember(cohort, members, payloads, targetB, k);
      assert MemberFault(c[members[k].ordinal], cohort) == Some(EmptyPayload);
    }
  }

  /**
   Aggregate and Validate agree: what the builder of an A=on cell sends is accepted under
   the builder's own expectation exactly when every payload is non-empty.
   */
  lemma AggregateIsAccepted(cfg: Config, id: uint64, members: seq<LogicalRequest>, payloads: seq<Bytes>,
                            seal: int, sentAt: int, rest: nat)
    requires cfg.cell.AggregatesEnvelopes() && cfg.targetB < TWO_32
    requires PayloadBytes(payloads) <= rest < TWO_63
    requires Aggregated(cfg, id, members, payloads, seal, sentAt, rest).Sent?
    ensures Accepted(Aggregated(cfg, id, members, payloads, seal, sentAt, rest).env, cfg)
       <==> forall i :: 0 <= i < |payloads| ==> payloads[i] != []
  {
    hide FirstMemberFault, PayloadFor, PayloadBytes, Uid, ExactCohort, Increasing, Canonical, Aggregated, ShapeFault;
    AggregatedShape(cfg, id, members, payloads, seal, sentAt, rest);
    var env := Aggregated(cfg, id, members, payloads, seal, sentAt, rest).env;
    CanonicalMembersPass(env.cohort, members, payloads, cfg.targetB);
    CanonicalOrdinals(env.cohort, members, payloads, cfg.targetB);
  }

  /** What the builder sends has the header and shape Validate looks for. */
  lemma AggregatedShape(cfg: Config, id: uint64, members: seq<LogicalRequest>, payloads: seq<Bytes>,
                        seal: int, sentAt: int, rest: nat)
    requires cfg.cell.AggregatesEnvelopes() && cfg.targetB < TWO_32
    requires PayloadBytes(payloads) <= rest < TWO_63
    requires Aggregated(cfg, id, members, payloads, seal, sentAt, rest).Sent?
    ensures |members| == |payloads| && ExactCohort(Ordinals(members), cfg.targetB)
    ensures var env := Aggregated(cfg, id, members, payloads, seal, sentAt, rest).env;
            && ShapeFault(env, cfg).None? && env.aggregate
            && env.requests == Canonical(env.cohort, members, payloads, cfg.targetB)
  {
    hide PayloadFor, PayloadBytes, Uid, ExactCohort, Canonical, ByteAccounting.Auxiliary;
    assert |members| == cfg.targetB by { ExactCount(Ordinals(members), cfg.targetB); }
    assert |members| % TWO_32 == |members|;
  }

  lemma CanonicalOrdinals(cohort: uint32, members: seq<LogicalRequest>, payloads: seq<Bytes>, targetB: nat)
    requires |members| == |payloads| && targetB <= TWO_32
    ensures var ordinals := Ordinals(RequestsOf(Canonical(cohort, members, payloads, targetB)));
            ExactCohort(ordinals, targetB) && Increasing(ordinals)
  {
    hide PayloadFor, Uid;
    var ordinals := Ordinals(RequestsOf(Canonical(cohort, members, payloads, targetB)));
    assert forall i :: 0 <= i < |ordinals| ==> ordinals[i] == i;
    IdentityIsExact(ordinals);
  }

  /** An exact cohort has B members. */
  lemma ExactCount(s: seq<nat>, targetB: nat)
    requires ExactCohort(s, targetB)
    ensures |s| == targetB
  {
    var upTo := seq(targetB, i requires 0 <= i < targetB => i);
    IdentityIsExact(upTo);
    forall o: nat ensures multiset(s)[o] == multiset(upTo)[o] {
      if o >= targetB {
        assert o !in s && o !in upTo;
      }
    }
    assert multiset(s) == multiset(upTo);
    assert |multiset(s)| == |multiset(upTo)|;
  }

  /** The envelope's header is the one the adapter's run calls for. */
  predicate RightHeader(env: Envelope, exp: Expectation) {
    && env.schemaVersion == 1 && env.run == exp.run && env.cell == exp.cell && env.clockDomain == exp.clockDomain
    && env.targetB == exp.targetB && env.expectedMembers == |env.requests|
    && (env.aggregate <==> exp.cell in {F10, F11D, F11P}) && (env.vectorize <==> exp.cell in {F01, F11D, F11P})
  }

  /** Every member is of the envelope's cohort, under its own uid, and carries a payload. */
  ghost predicate RightMembers(env: Envelope) {
    forall i :: 0 <= i < |env.requests| ==>
      && env.requests[i].cohort == env.cohort && env.requests[i].payload != []
      && env.requests[i].uid == Uid(LogicalRequest(env.cohort, env.requests[i].ordinal))
  }

  /**
   An envelope is accepted if and only if its header is the run's, its members are of its cohort
   with their own uids and a payload, and it carries either a sealed cohort, ordinal i at place i
   of B, or a single request that no proxy sealed.
   */
  lemma AcceptedExactly(env: Envelope, exp: Expectation)
    ensures Accepted(env, exp) <==>
              && RightHeader(env, exp) && RightMembers(env)
              && if env.aggregate then
                   && |env.requests| == exp.targetB && env.seal.Some?
                   && forall i :: 0 <= i < |env.requests| ==> env.requests[i].ordinal == i
                 else |env.requests| == 1 && env.seal.None?
  {
    hide Uid, ExactCohort;
    NoMemberFault(env.requests, env.cohort);
    var ordinals := Ordinals(RequestsOf(env.requests));
    assert forall i :: 0 <= i < |env.requests| ==> ordinals[i] == env.requests[i].ordinal;
    MemberTests(env);
    hide MemberFault, RightMembers, FirstMemberFault;
    if env.aggregate {
      if ExactCohort(ordinals, exp.targetB) && Increasing(ordinals) {
        ExactSortedIsIdentity(ordinals, exp.targetB);
      }
      if |ordinals| == exp.targetB && forall i :: 0 <= i < |ordinals| ==> ordinals[i] == i {
        IdentityIsExact(ordinals);
      }
    }
  }

  lemma MemberTests(env: Envelope)
    ensures (forall i :: 0 <= i < |env.requests| ==> MemberFault(env.requests[i], env.cohort).None?) <==>
            RightMembers(env)
  {
    hide Uid;
  }

  /* ---- What the builder sends ---- */

  /** Each of 0, ..., B-1 is the ordinal of exactly one of them, and all are of one cohort. */
  ghost predicate OneOfEach(members: seq<LogicalRequest>, targetB: nat) {
    && |members| == targetB > 0
    && (forall i :: 0 <= i < |members| ==> members[i].ordinal < targetB && members[i].cohort == members[0].cohort)
    && (forall i, j :: 0 <= i < j < |members| ==> members[i].ordinal != members[j].ordinal)
  }

  lemma {:induction false} DistinctCount(s: seq<nat>, o: nat)
    requires Distinct(s)
    ensures multiset(s)[o] == if o in s then 1 else 0
  {
    if s != [] {
      DistinctCount(s[1..], o);
      assert s == [s[0]] + s[1..];
    }
  }

  function Below(n: nat): (s: set<nat>)
    ensures |s| == n && forall o: nat :: o in s <==> o < n
  {
    if n == 0 then {} else Below(n - 1) + {n - 1}
  }

  /** B distinct numbers below B are all the numbers below B. */
  lemma DistinctIsExact(s: seq<nat>)
    requires Distinct(s) && forall i :: 0 <= i < |s| ==> s[i] < |s|
    ensures ExactCohort(s, |s|)
  {
    var all := Elements(s);
    DistinctSize(s);
    assert all <= Below(|s|);
    SameSize(all, Below(|s|));
    forall o: nat | o < |s| ensures multiset(s)[o] == 1 {
      DistinctCount(s, o);
      assert o in all;
    }
  }

  lemma SameSize(a: set<nat>, b: set<nat>)
    requires a <= b && |b| <= |a|
    ensures a == b
  {
    assert b == a + (b - a);
    assert |b - a| == 0;
  }

  lemma OneOfEachIsExact(members: seq<LogicalRequest>, targetB: nat)
    requires members != [] && forall i :: 0 <= i < |members| ==> members[i].cohort == members[0].cohort
    ensures ExactCohort(Ordinals(members), targetB) <==> OneOfEach(members, targetB)
  {
    var ordinals := Ordinals(members);
    if ExactCohort(ordinals, targetB) {
      ExactCount(ordinals, targetB);
      forall i, j | 0 <= i < j < |members| ensures members[i].ordinal != members[j].ordinal {
        assert ordinals[i] < targetB;
        OnceMeansDistinct(ordinals, i, j);
      }
      assert forall i :: 0 <= i < |members| ==> members[i].ordinal == ordinals[i];
    }
    if OneOfEach(members, targetB) {
      assert forall i :: 0 <= i < |ordinals| ==> ordinals[i] == members[i].ordinal;
      DistinctIsExact(ordinals);
    }
  }

  /**
   The run's header, the cohort's seal, every member at its ordinal's place with its own payload, and
   counted bytes.
   */
  ghost predicate SentAs(env: Envelope, cfg: Config, id: uint64, members: seq<LogicalRequest>, payloads: seq<Bytes>,
                         seal: int, sentAt: int, rest: nat)
    requires |members| == |payloads| && members != []
  {
    && env.schemaVersion == 1 && env.run == cfg.run && env.cell == cfg.cell && env.clockDomain == cfg.clockDomain
    && env.targetB == cfg.targetB % TWO_32 && (env.vectorize <==> cfg.cell in {F01, F11D, F11P})
    && env.envelopeID == id && env.cohort == members[0].cohort && env.expectedMembers == |members| % TWO_32
    && env.aggregate && env.sentAt == sentAt && env.seal == Some(seal) && |env.requests| == |members|
    && (forall k :: 0 <= k < |members| ==>
          && members[k].ordinal < |env.requests|
          && env.requests[members[k].ordinal]
             == Member(members[k].cohort, members[k].ordinal, Uid(members[k]), payloads[k]))
    && env.logicalBytes == PayloadBytes(payloads)
    && ByteAccounting.Partitions(rest, env.logicalBytes, env.auxiliaryBytes)
    && forall other: nat :: ByteAccounting.Partitions(rest, env.logicalBytes, other) ==> env.auxiliaryBytes <= other
  }

  /**
   What the builder does, in its caller's terms: it sends exactly a whole cohort with a payload
   each, and otherwise names what is wrong; every member is at its ordinal's place with its own
   payload, and the two counters are the payloads' bytes and the rest of the envelope's size.
   */
  lemma AggregatedExactly(cfg: Config, id: uint64, members: seq<LogicalRequest>, payloads: seq<Bytes>,
                          seal: int, sentAt: int, rest: nat)
    requires PayloadBytes(payloads) <= rest < TWO_63
    ensures var built := Aggregated(cfg, id, members, payloads, seal, sentAt, rest);
            && (built.Sent? <==> |members| == |payloads| && OneOfEach(members, cfg.targetB))
            && (built == Refused(PayloadCount) <==> |members| != |payloads|)
            && (built == Refused(NoMembers) <==> members == [] && payloads == [])
            && (built == Refused(MixedCohorts) <==> |members| == |payloads| && Mixed(members))
            && (built.Sent? ==> SentAs(built.env, cfg, id, members, payloads, seal, sentAt, rest))
  {
    hide PayloadBytes, Uid, ExactCohort, PayloadFor, ByteAccounting.Auxiliary, SentAs, ByteAccounting.Partitions;
    if |members| == |payloads| && members != [] && !Mixed(members) {
      assert forall i :: 0 <= i < |members| ==> members[i].cohort == members[0].cohort;
      OneOfEachIsExact(members, cfg.targetB);
      if OneOfEach(members, cfg.targetB) {
        SentAll(cfg, id, members, payloads, seal, sentAt, rest);
      }
    }
  }

  ghost predicate Mixed(members: seq<LogicalRequest>) {
    exists i, j :: 0 <= i < j < |members| && members[i].cohort != members[j].cohort
  }

  lemma SentAll(cfg: Config, id: uint64, members: seq<LogicalRequest>, payloads: seq<Bytes>,
                seal: int, sentAt: int, rest: nat)
    requires PayloadBytes(payloads) <= rest < TWO_63
    requires |members| == |payloads| && members != [] && OneOfEach(members, cfg.targetB)
    ensures var built := Aggregated(cfg, id, members, payloads, seal, sentAt, rest);
            built.Sent? && SentAs(built.env, cfg, id, members, payloads, seal, sentAt, rest)
  {
    hide PayloadBytes, Uid, ExactCohort, PayloadFor, ByteAccounting.Auxiliary, ByteAccounting.Partitions;
    OneOfEachIsExact(members, cfg.targetB);
    ExactFitsOrdinal(members, cfg.targetB);
    var logical := PayloadBytes(payloads);
    forall other: nat | ByteAccounting.Partitions(rest, logical, other)
      ensures ByteAccounting.Auxiliary(rest, logical) <= other
    {
      ByteAccounting.AuxiliaryIsLeast(rest, logical, other);
    }
    forall k | 0 <= k < |members|
      ensures PayloadFor(members, payloads, members[k].ordinal) == payloads[k]
    {
      PayloadForMember(members, payloads, cfg.targetB, k);
    }
  }

  /* ---- What each refusal says ---- */

  /** Some ordinal of the cohort is not among the members. */
  ghost predicate SomeMissing(env: Envelope, targetB: nat) {
    exists o: nat :: o < targetB && o !in Ordinals(RequestsOf(env.requests))
  }

  /** What is wrong with an envelope refused for this fault. */
  ghost predicate Wrong(f: Fault, env: Envelope, exp: Expectation) {
    match f
    case WrongSchema => env.schemaVersion != 1
    case WrongRun => env.run != exp.run
    case WrongCell => env.cell != exp.cell
    case WrongClockDomain => env.clockDomain != exp.clockDomain
    case WrongTargetB => env.targetB != exp.targetB
    case WrongAggregate => !(env.aggregate <==> exp.cell in {F10, F11D, F11P})
    case WrongVectorize => !(env.vectorize <==> exp.cell in {F01, F11D, F11P})
    case MemberCount => |env.requests| != env.expectedMembers
    case AggregateCount => env.aggregate && |env.requests| != exp.targetB
    case NoSeal => env.aggregate && env.seal.None?
    case IndependentCount => !env.aggregate && |env.requests| != 1
    case UnexpectedSeal => !env.aggregate && env.seal.Some?
    case WrongUid => exists m :: m in env.requests && m.uid != Uid(LogicalRequest(m.cohort, m.ordinal))
    case ForeignMember => exists m :: m in env.requests && m.cohort != env.cohort
    case EmptyPayload => exists m :: m in env.requests && m.payload == []
    case NotACohort => env.aggregate && SomeMissing(env, exp.targetB)
    case NotCanonical =>
      exists i, j :: 0 <= i < j < |env.requests| && env.requests[i].ordinal >= env.requests[j].ordinal
    case _ => false
  }

  /** Every refusal names something that is wrong with the envelope. */
  lemma FaultIsTrue(env: Envelope, exp: Expectation)
    requires ValidateFault(env, exp).Some?
    ensures Wrong(ValidateFault(env, exp).value, env, exp)
  {
    hide Uid, ExactCohort;
    if ShapeFault(env, exp).None? {
      if FirstMemberFault(env.requests, env.cohort).Some? {
        MemberFaultIsTrue(env.requests, env.cohort);
      } else if env.aggregate && !ExactCohort(Ordinals(RequestsOf(env.requests)), exp.targetB) {
        NotExactMisses(Ordinals(RequestsOf(env.requests)));
      }
    }
  }

  lemma {:induction false} MemberFaultIsTrue(members: seq<Member>, cohort: uint32)
    requires FirstMemberFault(members, cohort).Some?
    ensures exists m :: m in members && MemberFault(m, cohort) == FirstMemberFault(members, cohort)
  {
    if MemberFault(members[0], cohort).Some? {
      assert members[0] in members;
    } else {
      MemberFaultIsTrue(members[1..], cohort);
      var m :| m in members[1..] && MemberFault(m, cohort) == FirstMemberFault(members[1..], cohort);
      assert m in members;
    }
  }

  /** As many ordinals as the cohort has, and no exact cohort: one is missing. */
  lemma NotExactMisses(s: seq<nat>)
    requires !ExactCohort(s, |s|)
    ensures exists o: nat :: o < |s| && o !in s
  {
    if forall o: nat :: o < |s| ==> o in s {
      assert Below(|s|) <= Elements(s);
      DistinctSize(s);
      SameSize(Below(|s|), Elements(s));
      assert forall i :: 0 <= i < |s| ==> s[i] in Elements(s);
      DistinctIsExact(s);
    }
  }

  /* ---- The methods ---- */

  lemma {:induction false} PayloadBytesAppend(a: seq<Bytes>, x: Bytes)
    ensures PayloadBytes(a + [x]) == PayloadBytes(a) + |x|
  {
    if a == [] {
      assert [x][1..] == [];
    } else {
      PayloadBytesAppend(a[1..], x);
      assert (a + [x])[1..] == a[1..] + [x];
    }
  }

  lemma {:induction false} PayloadBytesRemove(a: seq<Bytes>, k: nat)
    requires k < |a|
    ensures PayloadBytes(a) == PayloadBytes(a[..k] + a[k + 1..]) + |a[k]|
  {
    if k == 0 {
      assert a[..0] + a[1..] == a[1..];
    } else {
      PayloadBytesRemove(a[1..], k - 1);
      assert (a[..k] + a[k + 1..])[1..] == a[1..][..k - 1] + a[1..][k..];
    }
  }

  /** The payload total does not depend on the order it is summed in. */
  lemma {:induction false} PayloadBytesMultiset(a: seq<Bytes>, b: seq<Bytes>)
    requires multiset(a) == multiset(b)
    ensures PayloadBytes(a) == PayloadBytes(b)
  {
    if a == [] {
      EmptyMatches(b);
    } else {
      var k := TailMatches(a, b);
      PayloadBytesMultiset(a[1..], b[..k] + b[k + 1..]);
      PayloadBytesRemove(b, k);
    }
  }

  /** requests lists the members in the order `order` gives. */
  ghost predicate Listed(members: seq<LogicalRequest>, payloads: seq<Bytes>, order: seq<nat>, requests: seq<Member>) {
    && |members| == |payloads| == |order| == |requests|
    && multiset(order) == multiset(Indices(|members|))
    && (forall i :: 0 <= i < |order| ==> order[i] < |members|)
    && (forall i :: 0 <= i < |order| ==> requests[i] == MemberOf(members[order[i]], payloads[order[i]]))
  }

  lemma ExactDependsOnMultiset(a: seq<nat>, b: seq<nat>, targetB: nat)
    requires multiset(a) == multiset(b) && ExactCohort(a, targetB)
    ensures ExactCohort(b, targetB)
  {
    forall i | 0 <= i < |b| ensures b[i] < targetB {
      assert b[i] in multiset(b);
      assert b[i] in a;
    }
  }

  /** The listed ordinals are an exact cohort exactly when the given ones are. */
  lemma SortedMembership(members: seq<LogicalRequest>, payloads: seq<Bytes>, order: seq<nat>, requests: seq<Member>,
                         targetB: nat)
    requires Listed(members, payloads, order, requests)
    ensures ExactCohort(Ordinals(RequestsOf(requests)), targetB) <==> ExactCohort(Ordinals(members), targetB)
  {
    var given, listed := Ordinals(members), Ordinals(RequestsOf(requests));
    Rearranged(given, order);
    assert listed == Pick(given, order);
    if ExactCohort(given, targetB) { ExactDependsOnMultiset(given, listed, targetB); }
    if ExactCohort(listed, targetB) { ExactDependsOnMultiset(listed, given, targetB); }
  }

  /** Listed in ascending order, an exact cohort is the canonical list. */
  lemma SortedIsCanonical(members: seq<LogicalRequest>, payloads: seq<Bytes>, order: seq<nat>, requests: seq<Member>,
                          targetB: nat)
    requires Listed(members, payloads, order, requests) && members != []
    requires ExactCohort(Ordinals(members), targetB) && targetB <= TWO_32
    requires forall i, j :: 0 <= i < j < |order| ==> members[order[i]].ordinal <= members[order[j]].ordinal
    requires forall i :: 0 <= i < |members| ==> members[i].cohort == members[0].cohort
    ensures requests == Canonical(members[0].cohort, members, payloads, targetB)
  {
    SortedMembership(members, payloads, order, requests, targetB);
    ExactSortedIsIdentity(Ordinals(RequestsOf(requests)), targetB);
    forall o | 0 <= o < |requests|
      ensures requests[o] == Canonical(members[0].cohort, members, payloads, targetB)[o]
    {
      assert Ordinals(RequestsOf(requests))[o] == o;
      PayloadForMember(members, payloads, targetB, order[o]);
    }
  }

  ghost predicate OrderedBy(members: seq<LogicalRequest>, order: seq<nat>) {
    && (forall i :: 0 <= i < |order| ==> order[i] < |members|)
    && (forall i, j :: 0 <= i < j < |order| ==> members[order[i]].ordinal <= members[order[j]].ordinal)
  }

  lemma InsertOrdered(members: seq<LogicalRequest>, order: seq<nat>, at: nat, n: nat)
    requires OrderedBy(members, order) && at <= |order| && n < |members|
    requires forall i :: 0 <= i < at ==> members[order[i]].ordinal <= members[n].ordinal
    requires forall i :: at <= i < |order| ==> members[n].ordinal <= members[order[i]].ordinal
    ensures OrderedBy(members, order[..at] + [n] + order[at..])
  {
    var after := order[..at] + [n] + order[at..];
    assert forall i :: 0 <= i < at ==> after[i] == order[i];
    assert after[at] == n;
    assert forall i :: at < i < |after| ==> after[i] == order[i - 1];
  }

  /** sort.Slice by ordinal: some permutation of the indices that puts the ordinals in ascending order. */
  method CanonicalOrder(members: seq<LogicalRequest>) returns (order: seq<nat>)
    ensures multiset(order) == multiset(Indices(|members|)) && |order| == |members|
    ensures OrderedBy(members, order)
  {
    order := [];
    for n := 0 to |members|
      invariant |order| == n && multiset(order) == multiset(Indices(n))
      invariant OrderedBy(members, order)
    {
      var at := FindPlace(members, order, n);
      InsertOrdered(members, order, at, n);
      InsertMultiset(order, at, n);
      assert Indices(n + 1) == Indices(n) + [n];
      hide OrderedBy, Indices;
      order := order[..at] + [n] + order[at..];
    }
  }

  /** Where member n belongs among the members already ordered. */
  method FindPlace(members: seq<LogicalRequest>, order: seq<nat>, n: nat) returns (at: nat)
    requires OrderedBy(members, order) && n < |members|
    ensures at <= |order|
    ensures forall i :: 0 <= i < at ==> members[order[i]].ordinal <= members[n].ordinal
    ensures forall i :: at <= i < |order| ==> members[n].ordinal <= members[order[i]].ordinal
  {
    at := |order|;
    while at > 0 && members[order[at - 1]].ordinal > members[n].ordinal
      invariant 0 <= at <= |order|
      invariant forall i :: at <= i < |order| ==> members[order[i]].ordinal > members[n].ordinal
    {
      at := at - 1;
    }
  }

  datatype CohortFaults = CohortFaults(repeated: seq<nat>, missing: seq<nat>, strays: seq<nat>)

  /**
   checkCohortMembership: one count per ordinal, then every fault by name. It finds none
   exactly when the ordinals are an exact cohort.
   */
  method CheckCohortMembership(ordinals: seq<nat>, targetB: nat) returns (f: CohortFaults)
    ensures f == CohortFaults([], [], []) <==> ExactCohort(ordinals, targetB)
    ensures forall o :: o in f.missing <==> 0 <= o < targetB && multiset(ordinals)[o] == 0
    ensures forall o :: o in f.repeated <==> 0 <= o < targetB && multiset(ordinals)[o] > 1
    ensures forall o :: o in f.strays <==> o in ordinals && o >= targetB
  {
    var seen := new nat[targetB](_ => 0);
    var strays: seq<nat> := [];
    for i := 0 to |ordinals|
      invariant forall o :: 0 <= o < targetB ==> seen[o] == multiset(ordinals[..i])[o]
      invariant forall o :: o in strays <==> o in ordinals[..i] && o >= targetB
    {
      assert ordinals[..i + 1] == ordinals[..i] + [ordinals[i]];
      if ordinals[i] >= targetB {
        strays := strays + [ordinals[i]];
      } else {
        seen[ordinals[i]] := seen[ordinals[i]] + 1;
      }
    }
    assert ordinals[..|ordinals|] == ordinals;
    var repeated: seq<nat>, missing: seq<nat> := [], [];
    for o := 0 to targetB
      invariant forall p :: p in missing <==> 0 <= p < o && multiset(ordinals)[p] == 0
      invariant forall p :: p in repeated <==> 0 <= p < o && multiset(ordinals)[p] > 1
    {
      if seen[o] == 0 {
        missing := missing + [o];
      } else if seen[o] > 1 {
        repeated := repeated + [o];
      }
    }
    f := CohortFaults(repeated, missing, strays);
    FaultlessIsExact(ordinals, targetB, f);
  }

  lemma FaultlessIsExact(ordinals: seq<nat>, targetB: nat, f: CohortFaults)
    requires forall o :: o in f.missing <==> 0 <= o < targetB && multiset(ordinals)[o] == 0
    requires forall o :: o in f.repeated <==> 0 <= o < targetB && multiset(ordinals)[o] > 1
    requires forall o :: o in f.strays <==> o in ordinals && o >= targetB
    ensures f == CohortFaults([], [], []) <==> ExactCohort(ordinals, targetB)
  {
    if f == CohortFaults([], [], []) {
      forall o: nat | o < targetB ensures multiset(ordinals)[o] == 1 {
        assert o !in f.missing && o !in f.repeated;
      }
      forall i | 0 <= i < |ordinals| ensures ordinals[i] < targetB {
        assert ordinals[i] in ordinals && ordinals[i] !in f.strays;
      }
    }
    if ExactCohort(ordinals, targetB) {
      HeadIn(f.missing);
      HeadIn(f.repeated);
      HeadIn(f.strays);
      assert forall o :: o in ordinals ==> o < targetB;
    }
  }

  /** checkCanonicalOrder compares neighbours only; that decides the order of every pair. */
  method CheckCanonicalOrder(members: seq<Member>) returns (fault: Option<Fault>)
    ensures fault.None? <==> Increasing(Ordinals(RequestsOf(members)))
    ensures fault.Some? ==> fault.value == NotCanonical
  {
    ghost var ordinals := Ordinals(RequestsOf(members));
    var i := 1;
    while i < |members|
      invariant 1 <= i
      invariant forall j, k :: 0 <= j < k < i && k < |members| ==> ordinals[j] < ordinals[k]
    {
      if members[i].ordinal <= members[i - 1].ordinal {
        assert ordinals[i] <= ordinals[i - 1];
        return Some(NotCanonical);
      }
      assert ordinals[i - 1] < ordinals[i];
      i := i + 1;
    }
    fault := None;
  }

  /** Validate. */
  method Validate(env: Envelope, exp: Expectation) returns (fault: Option<Fault>)
    ensures fault == ValidateFault(env, exp)
  {
    fault := ShapeFault(env, exp);
    if fault.Some? {
      return fault;
    }
    fault := FirstMemberFault(env.requests, env.cohort);
    if fault.Some? {
      return fault;
    }
    if env.aggregate {
      var faults := CheckCohortMembership(Ordinals(RequestsOf(env.requests)), exp.targetB);
      if faults != CohortFaults([], [], []) {
        return Some(NotACohort);
      }
    }
    fault := CheckCanonicalOrder(env.requests);
  }

  /** Mints envelopes for one run; the counter is shared by both constructions. */
  class Builder {
    const cfg: Config
    var nextID: uint64

    constructor (cfg: Config)
      requires cfg.Valid()
      ensures this.cfg == cfg && nextID == 0
    {
      this.cfg, nextID := cfg, 0;
    }

    method NextBase() returns (env: Envelope)
      modifies this
      ensures nextID == (old(nextID) + 1) % TWO_64 && env == Base(cfg, nextID)
    {
      nextID := (nextID + 1) % TWO_64;
      env := Base(cfg, nextID);
    }

    /** Independent: one member, no seal. */
    method Independent(member: LogicalRequest, payload: Bytes, sentAt: int, rest: nat) returns (env: Envelope)
      requires |payload| <= rest < TWO_63
      modifies this
      ensures nextID == (old(nextID) + 1) % TWO_64 && env.envelopeID == nextID
      ensures env.requests == [MemberOf(member, payload)] && env.seal.None? && !env.aggregate
      ensures env.sentAt == sentAt && env.cohort == member.cohort
      ensures ByteAccounting.Partitions(rest, env.logicalBytes, env.auxiliaryBytes) && env.logicalBytes == |payload|
      ensures !cfg.cell.AggregatesEnvelopes() && cfg.targetB < TWO_32 ==> (Accepted(env, cfg) <==> payload != [])
    {
      env := NextBase();
      env := env.(cohort := member.cohort, expectedMembers := 1, sentAt := sentAt,
                  requests := [MemberOf(member, payload)], logicalBytes := |payload|);
      var auxiliary := ByteAccounting.AccountBytes(rest, |payload|);
      env := env.(auxiliaryBytes := auxiliary);
      NoMemberFault(env.requests, env.cohort);
      assert MemberFault(env.requests[0], env.cohort).None? <==> payload != [];
    }

    /** Aggregate: canonical order, one cohort, exact membership, counted bytes. */
    method Aggregate(members: seq<LogicalRequest>, payloads: seq<Bytes>, seal: int, sentAt: int, rest: nat)
      returns (built: Built)
      requires PayloadBytes(payloads) <= rest < TWO_63
      modifies this
      ensures nextID == if |members| == |payloads| > 0 then (old(nextID) + 1) % TWO_64 else old(nextID)
      ensures built == Aggregated(cfg, nextID, members, payloads, seal, sentAt, rest)
    {
      if |members| != |payloads| {
        return Refused(PayloadCount);
      }
      if members == [] {
        return Refused(NoMembers);
      }
      var cohort := members[0].cohort;
      var env := NextBase();
      var order := CanonicalOrder(members);
      ghost var id := nextID;
      var requests: seq<Member>, logical := [], 0;
      ghost var taken: seq<Bytes> := [];
      for n := 0 to |order|
        invariant nextID == id && id == (old(nextID) + 1) % TWO_64
        invariant |requests| == n == |taken|
        invariant forall i :: 0 <= i < n ==> taken[i] == payloads[order[i]]
        invariant forall i :: 0 <= i < n ==>
                    requests[i] == MemberOf(members[order[i]], payloads[order[i]]) && members[order[i]].cohort == cohort
        invariant logical == PayloadBytes(taken)
      {
        var i := order[n];
        if members[i].cohort != cohort {
          return Refused(MixedCohorts);
        }
        requests := requests + [MemberOf(members[i], payloads[i])];
        PayloadBytesAppend(taken, payloads[i]);
        taken := taken + [payloads[i]];
        logical := logical + |payloads[i]|;
      }
      Rearranged(members, order);
      Rearranged(payloads, order);
      assert taken == Pick(payloads, order);
      PayloadBytesMultiset(taken, payloads);
      forall k | 0 <= k < |members| ensures members[k].cohort == cohort {
        assert k in order;
        var i :| 0 <= i < |order| && order[i] == k;
      }
      var faults := CheckCohortMembership(Ordinals(RequestsOf(requests)), cfg.targetB);
      SortedMembership(members, payloads, order, requests, cfg.targetB);
      if faults != CohortFaults([], [], []) {
        return Refused(NotACohort);
      }
      ExactFitsOrdinal(members, cfg.targetB);
      SortedIsCanonical(members, payloads, order, requests, cfg.targetB);
      var auxiliary := ByteAccounting.AccountBytes(rest, logical);
      built := Sent(env.(cohort := cohort, expectedMembers := |members| % TWO_32, aggregate := true, sentAt := sentAt,
                         seal := Some(seal), requests := requests, logicalBytes := logical,
                         auxiliaryBytes := auxiliary));
    }
  }
}
