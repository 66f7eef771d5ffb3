/**
 The longest record an event stream can carry, and with it exactly when a bank that NewWriter
 accepts holds every frame (internal/events/writer.go, NewWriter and Record).
 */
module Widest {
  import opened Identity
  import opened Schema
  import opened Wire
  import opened Codec
  import opened Stream
  import opened BankPool
  import RequestId

  const EVERY_TIMESTAMP: Timestamps := [-1, -1, -1, -1, -1, -1, -1, -1, -1, -1, -1, -1, -1, -1, -1, -1]

  /** n uids whose varints are the longest. */
  function LongUids(n: nat): (u: seq<int64>)
    ensures |u| == n && forall i :: 0 <= i < n ==> u[i] == -1
  {
    if n == 0 then [] else [-1] + LongUids(n - 1)
  }

  /** Every field present and as long as its type allows; a negative number is the longest varint. */
  const WIDEST := Record(
    TWO_8 - 1, TWO_64 - 1, TWO_32 - 1, TWO_32 - 1, TWO_64 - 1, TWO_64 - 1, TWO_32 - 1, TWO_8 - 1, EVERY_TIMESTAMP,
    TWO_32 - 1, TWO_32 - 1, TWO_32 - 1, Dispatch(TWO_32 - 1, -1, -1, TWO_8 - 1), true,
    LongUids(MAX_MEMBERSHIP), TWO_32 - 1)

  function Size(fs: seq<Field>): nat {
    |EncodeFields(fs)|
  }

  /** The room a header takes on every record. */
  function HeaderSize(h: RunHeader): nat {
    Size(HeaderFields(h))
  }

  /** The most a record can take behind its header. */
  function WidestSize(writer: uint32): nat {
    Size(RecordFields(WIDEST, writer))
  }

  /* ---- Larger values are no shorter ---- */

  lemma {:induction false} WiderVarint(u: nat, v: nat)
    requires u <= v
    ensures |Uvarint(u)| <= |Uvarint(v)|
  {
    if u >= 0x80 { WiderVarint(u / 0x80, v / 0x80); }
  }

  lemma {:induction false} WiderDigits(m: nat, n: nat)
    requires m <= n
    ensures |RequestId.Digits(m)| <= |RequestId.Digits(n)|
  {
    if m >= 10 { WiderDigits(m / 10, n / 10); }
  }

  lemma WiderField(number: nat, u: uint64, v: uint64)
    requires u <= v && v > 0
    ensures Size([Varint(number, u)]) <= Size([Varint(number, v)]) == Size(OptVarint(number, v))
    ensures Size(OptVarint(number, u)) <= Size(OptVarint(number, v))
  {
    WiderVarint(u, v);
    EncodeOne(Varint(number, u));
    EncodeOne(Varint(number, v));
  }

  lemma WiderBytes(number: nat, s: Bytes, t: Bytes)
    requires |s| <= |t| && t != []
    ensures Size(OptBytes(number, s)) <= Size(OptBytes(number, t))
  {
    WiderVarint(|s|, |t|);
    EncodeOne(Delimited(number, s));
    EncodeOne(Delimited(number, t));
  }

  lemma WiderBoth(a: seq<Field>, b: seq<Field>, c: seq<Field>, d: seq<Field>)
    requires Size(a) <= Size(c) && Size(b) <= Size(d)
    ensures Size(a + b) <= Size(c + d)
  {
    EncodeFieldsConcat(a, b);
    EncodeFieldsConcat(c, d);
  }

  /** One more scalar behind each list. */
  lemma WiderThen(a: seq<Field>, c: seq<Field>, number: nat, u: uint64, v: uint64)
    requires Size(a) <= Size(c) && u <= v && v > 0
    ensures Size(a + OptVarint(number, u)) <= Size(c + OptVarint(number, v))
  {
    WiderField(number, u, v);
    WiderBoth(a, OptVarint(number, u), c, OptVarint(number, v));
  }

  /* ---- Group by group ---- */

  lemma WidestIdentity(r: Record, writer: uint32)
    ensures Size(IdentityFields(r, writer)) <= Size(IdentityFields(WIDEST, writer))
  {
    hide OptVarint, Size;
    var w := WIDEST;
    var a, a' := OptVarint(7, r.emitter), OptVarint(7, w.emitter);
    WiderField(7, r.emitter, w.emitter);
    WiderBoth(a, OptVarint(8, writer), a', OptVarint(8, writer));
    var b, b' := a + OptVarint(8, writer), a' + OptVarint(8, writer);
    WiderThen(b, b', 9, r.sequence, w.sequence);
    var c, c' := b + OptVarint(9, r.sequence), b' + OptVarint(9, w.sequence);
    WiderThen(c, c', 10, r.cohort, w.cohort);
    var d, d' := c + OptVarint(10, r.cohort), c' + OptVarint(10, w.cohort);
    WiderThen(d, d', 11, r.ordinal, w.ordinal);
    var e, e' := d + OptVarint(11, r.ordinal), d' + OptVarint(11, w.ordinal);
    WiderThen(e, e', 12, r.envelopeID, w.envelopeID);
    WiderThen(e + OptVarint(12, r.envelopeID), e' + OptVarint(12, w.envelopeID), 13, r.executionID, w.executionID);
  }

  lemma WidestRequestId(r: Record)
    ensures Size(RequestIdField(r)) <= Size(RequestIdField(WIDEST))
  {
    RequestId.RenderLength(r.Request());
    RequestId.RenderLength(WIDEST.Request());
    WiderDigits(r.cohort, WIDEST.cohort);
    WiderDigits(r.ordinal, WIDEST.ordinal);
    WiderBytes(14, RequestId.Render(r.Request()), RequestId.Render(WIDEST.Request()));
  }

  lemma WidestOutcome(r: Record)
    ensures Size(OutcomeFields(r)) <= Size(OutcomeFields(WIDEST))
  {
    hide OptVarint, Size;
    WiderField(15, r.presence, WIDEST.presence);
    WiderThen(OptVarint(15, r.presence), OptVarint(15, WIDEST.presence), 16, r.status, WIDEST.status);
  }

  /** A word of ones holds every stage. */
  lemma {:induction false} FullMask(k: nat, s: Stage)
    requires s <= k
    ensures MaskHas(Pow2(k) - 1, s)
  {
    var half := Pow2(k - 1);
    assert Pow2(k) == 2 * half;
    if s > 1 {
      FullMask(k - 1, s - 1);
      assert (2 * half - 1) / 2 == half - 1;
    }
  }

  lemma WidestStage(r: Record, s: Stage)
    ensures Size(StageField(r, s)) <= Size(StageField(WIDEST, s))
  {
    hide MaskHas, EncodeFields, LongUids;
    var top: uint64 := TWO_64 - 1;
    assert WIDEST.Has(s) && ToUint64(WIDEST.ts[s]) == top by {
      Pow2Of32();
      FullMask(32, s);
    }
    WiderField(19 + s, ToUint64(r.ts[s]), top);
    EncodeOne(Varint(19 + s, top));
  }

  lemma {:induction false} WidestTimestamps(r: Record, s: nat)
    requires 1 <= s <= STAGE_COUNT + 1
    ensures Size(TimestampFields(r, s)) <= Size(TimestampFields(WIDEST, s))
    decreases STAGE_COUNT + 1 - s
  {
    hide StageField, Size, MaskHas;
    if s <= STAGE_COUNT {
      WidestTimestamps(r, s + 1);
      WidestStage(r, s);
      WiderBoth(StageField(r, s), TimestampFields(r, s + 1), StageField(WIDEST, s), TimestampFields(WIDEST, s + 1));
    }
  }

  lemma WidestCounters(r: Record)
    ensures Size(CounterFields(r)) <= Size(CounterFields(WIDEST))
  {
    hide OptVarint, Size;
    var w := WIDEST;
    WiderField(40, r.logicalBytes, w.logicalBytes);
    WiderThen(OptVarint(40, r.logicalBytes), OptVarint(40, w.logicalBytes), 41, r.envelopeBytes, w.envelopeBytes);
    WiderThen(OptVarint(40, r.logicalBytes) + OptVarint(41, r.envelopeBytes),
              OptVarint(40, w.logicalBytes) + OptVarint(41, w.envelopeBytes), 42, r.batchSize, w.batchSize);
  }

  /** A list of no more uids, each packed in full length, is no shorter. */
  lemma {:induction false} WiderUids(uids: seq<int64>, wide: seq<int64>)
    requires |uids| <= |wide| && forall i :: 0 <= i < |wide| ==> wide[i] == -1
    ensures |PackUids(uids)| <= |PackUids(wide)|
  {
    if uids != [] {
      WiderVarint(ToUint64(uids[0]), ToUint64(-1));
      WiderUids(uids[1..], wide[1..]);
    }
  }

  lemma WidestMembership(r: Record)
    ensures Size(MembershipFields(r)) <= Size(MembershipFields(WIDEST))
  {
    PackUidsLength(r.membership);
    PackUidsLength(WIDEST.membership);
    WiderUids(r.membership, WIDEST.membership);
    hide OptVarint, OptBytes, Size;
    WiderBytes(43, PackUids(r.membership), PackUids(WIDEST.membership));
    WiderThen(OptBytes(43, PackUids(r.membership)), OptBytes(43, PackUids(WIDEST.membership)), 44,
              r.membershipCount, WIDEST.membershipCount);
  }

  lemma WidestDispatch(r: Record)
    ensures Size(DispatchFields(r)) <= Size(DispatchFields(WIDEST))
  {
    EncodeOne(Varint(45, 0));
    if r.hasDispatch {
      var d, w := r.dispatch, WIDEST.dispatch;
      var a, a' := Varint(45, d.dispatched), Varint(45, w.dispatched);
      var b, b' := Varint(46, ToUint64(d.skewNanos)), Varint(46, ToUint64(w.skewNanos));
      var c, c' := Varint(47, ToUint64(d.cpuNanos)), Varint(47, ToUint64(w.cpuNanos));
      WiderField(45, d.dispatched, w.dispatched);
      WiderField(46, ToUint64(d.skewNanos), ToUint64(w.skewNanos));
      WiderField(47, ToUint64(d.cpuNanos), ToUint64(w.cpuNanos));
      hide OptVarint, Size;
      WiderBoth([a], [b], [a'], [b']);
      WiderBoth([a] + [b], [c], [a'] + [b'], [c']);
      assert [a] + [b] + [c] == [a, b, c] && [a'] + [b'] + [c'] == [a', b', c'];
      WiderThen([a, b, c], [a', b', c'], 48, d.cpuScope, w.cpuScope);
    }
  }

  /** No record is longer than the widest one. */
  lemma WidestRecord(r: Record, writer: uint32)
    ensures Size(RecordFields(r, writer)) <= WidestSize(writer)
  {
    hide IdentityFields, RequestIdField, OutcomeFields, TimestampFields, CounterFields, MembershipFields,
         DispatchFields, Size;
    var w := WIDEST;
    WidestIdentity(r, writer);
    WidestRequestId(r);
    WidestOutcome(r);
    WidestTimestamps(r, 1);
    WidestCounters(r);
    WidestMembership(r);
    WidestDispatch(r);
    var a, a' := IdentityFields(r, writer) + RequestIdField(r), IdentityFields(w, writer) + RequestIdField(w);
    WiderBoth(IdentityFields(r, writer), RequestIdField(r), IdentityFields(w, writer), RequestIdField(w));
    var b, b' := a + OutcomeFields(r), a' + OutcomeFields(w);
    WiderBoth(a, OutcomeFields(r), a', OutcomeFields(w));
    var c, c' := b + TimestampFields(r), b' + TimestampFields(w);
    WiderBoth(b, TimestampFields(r), b', TimestampFields(w));
    var d, d' := c + CounterFields(r), c' + CounterFields(w);
    WiderBoth(c, CounterFields(r), c', CounterFields(w));
    WiderBoth(d, MembershipFields(r), d', MembershipFields(w));
    WiderBoth(d + MembershipFields(r), DispatchFields(r), d' + MembershipFields(w), DispatchFields(w));
  }

  /* ---- Exactly when a bank is large enough ---- */

  /** Every record is encoded behind the reserved prefix of an empty bank without outgrowing it. */
  ghost predicate NoneReallocates(h: RunHeader, bankBytes: nat) {
    forall r :: MAX_VARINT + |Body(h, r)| <= bankBytes
  }

  lemma WidestBody(h: RunHeader, r: Record)
    ensures |Body(h, r)| <= HeaderSize(h) + WidestSize(h.writerID) == |Body(h, WIDEST)|
    ensures |Frame(Body(h, r))| <= |Frame(Body(h, WIDEST))|
  {
    hide RecordFields, HeaderFields, EncodeFields, Uvarint;
    WidestRecord(r, h.writerID);
    WiderVarint(|Body(h, r)|, |Body(h, WIDEST)|);
  }

  /**
   What a new writer would have to check: its run header beside the widest record. The frames
   of all records fit an empty bank if and only if that one's does, and none is ever copied to
   a larger buffer if and only if the header leaves that one room behind the reserved prefix.
   */
  lemma BankLargeEnough(h: RunHeader, bankBytes: nat)
    ensures EveryFrameFits(h, bankBytes) <==>
              var size := HeaderSize(h) + WidestSize(h.writerID); VarintLen(size) + size <= bankBytes
    ensures NoneReallocates(h, bankBytes) <==> MAX_VARINT + HeaderSize(h) + WidestSize(h.writerID) <= bankBytes
  {
    hide Body, HeaderSize, WidestSize;
    WidestBody(h, WIDEST);
    forall r ensures |Body(h, r)| <= |Body(h, WIDEST)| && |Frame(Body(h, r))| <= |Frame(Body(h, WIDEST))| {
      WidestBody(h, r);
    }
  }

  /**
   Record does not look at the room again after it has rotated: a record too long for an empty
   bank is accepted, and what the bank is then to hold outgrows it.
   */
  lemma RotatedBankOverflows(p: Pool, i: nat)
    requires Partition(p) && i < |p.waiting| && !p.closed
    requires p.free != [] && p.free[0] < |p.content| && p.content[p.free[0]] == []
    requires |Frame(Body(p.h, p.waiting[i]))| > p.bankBytes && p.bankBytes < TWO_63
    ensures Accepts(p) && Enter(p, i).active == p.free[0]
    ensures p.free[0] < |Enter(p, i).content| && |Enter(p, i).content[p.free[0]]| > p.bankBytes
    ensures !Streaming(Enter(p, i))
  {
    hide Body, Frame, HeaderFields, EncodeFields;
    assert p.free[0] in p.free;
    if Roomy(p) {
      FrameFits(p.h, p.waiting[i]);
      assert false;
    }
  }

  /* ---- Exactly when every run keeps its banks in order ---- */

  /** n calls of Record that have not come to the lock yet. */
  function Calls(r: Record, n: nat): seq<Event> {
    seq(n, _ => BeginRecord(r))
  }

  /** q is p after n calls with r that have not come to the lock: they are numbered from 1. */
  ghost predicate Waits(p: Pool, r: Record, n: nat, q: Pool) {
    && q == p.(sequence := n % TWO_64, waiting := q.waiting, calls := q.calls) && |q.waiting| == n
    && (n > 0 ==> q.waiting[n - 1] == r.(sequence := n % TWO_64))
  }

  lemma WaitsOneMore(p: Pool, r: Record, n: nat, q: Pool)
    requires Waits(p, r, n, q)
    ensures Waits(p, r, n + 1, After(q, BeginRecord(r)))
  {
    assert (n % TWO_64 + 1) % TWO_64 == (n + 1) % TWO_64;
  }

  lemma OneMore(p: Pool, schedule: seq<Event>, e: Event)
    ensures Exec(p, schedule + [e]) == After(Exec(p, schedule), e)
  {
    assert (schedule + [e])[..|schedule|] == schedule;
  }

  lemma {:induction false} CallsWait(p: Pool, r: Record, n: nat)
    requires p.sequence == 0 && p.waiting == []
    ensures Waits(p, r, n, Exec(p, Calls(r, n)))
  {
    if n > 0 {
      CallsWait(p, r, n - 1);
      hide Waits, Exec, After;
      WaitsOneMore(p, r, n - 1, Exec(p, Calls(r, n - 1)));
      OneMore(p, Calls(r, n - 1), BeginRecord(r));
      assert Calls(r, n) == Calls(r, n - 1) + [BeginRecord(r)];
    }
  }

  /** The n-th call of a new writer, if its record is too long for an empty bank, breaks the order. */
  lemma CallOverflows(h: RunHeader, bankBytes: nat, banks: nat, r: Record, n: nat)
    requires banks >= 2 && bankBytes < TWO_63 && n > 0
    requires |Frame(Body(h, r.(sequence := n % TWO_64)))| > bankBytes
    ensures var p := Exec(NewPool(h, bankBytes, banks), Calls(r, n));
            var q := Exec(NewPool(h, bankBytes, banks), Calls(r, n) + [EnterLock(n - 1)]);
            && Streaming(p) && Accepts(p) && q.active < |q.content|
            && |q.content[q.active]| > bankBytes && !Streaming(q)
  {
    hide Frame, Body, Enter, Accepts, Streaming, Exec, Calls;
    var start, p := NewPool(h, bankBytes, banks), Exec(NewPool(h, bankBytes, banks), Calls(r, n));
    CallsWait(start, r, n);
    NewPoolInOrder(h, bankBytes, banks);
    WaitingInOrder(start, p);
    assert Partition(p) by { StreamingPartition(p); }
    RotatedBankOverflows(p, n - 1);
    OneMore(start, Calls(r, n), EnterLock(n - 1));
  }

  lemma WaitingInOrder(p: Pool, q: Pool)
    requires Streaming(p) && q == p.(sequence := q.sequence, waiting := q.waiting, calls := q.calls)
    ensures Streaming(q)
  {
    SameFlow(p, q);
  }

  lemma WidestOverflows(h: RunHeader, bankBytes: nat)
    requires !EveryFrameFits(h, bankBytes)
    ensures |Frame(Body(h, WIDEST))| > bankBytes
  {
    hide Frame, Body;
    forall r ensures |Frame(Body(h, r))| <= |Frame(Body(h, WIDEST))| {
      WidestBody(h, r);
    }
  }

  /**
   The size NewWriter checks is not what keeps frames inside banks. What does is that every
   record's frame fits an empty one: then, and only then, every run of a new writer keeps its
   banks within their size and the accepted frames on their way in lock order.
   */
  lemma EveryRunStreams(h: RunHeader, bankBytes: nat, banks: nat)
    requires banks >= 2 && 4 * MAX_BODY_SIZE <= bankBytes < TWO_63
    ensures (forall schedule :: Streaming(Exec(NewPool(h, bankBytes, banks), schedule))) <==>
            EveryFrameFits(h, bankBytes)
  {
    hide Frame, Body, Streaming, Exec, WIDEST;
    if EveryFrameFits(h, bankBytes) {
      NewPoolInOrder(h, bankBytes, banks);
      forall schedule ensures Streaming(Exec(NewPool(h, bankBytes, banks), schedule)) {
        ExecKeeps(NewPool(h, bankBytes, banks), schedule);
      }
    } else {
      WidestOverflows(h, bankBytes);
      var schedule := Calls(WIDEST, TWO_64 - 1) + [EnterLock(TWO_64 - 2)];
      WidestIsLast();
      CallOverflows(h, bankBytes, banks, WIDEST, TWO_64 - 1);
      assert !Streaming(Exec(NewPool(h, bankBytes, banks), schedule));
    }
  }

  lemma WidestIsLast()
    ensures WIDEST.(sequence := (TWO_64 - 1) % TWO_64) == WIDEST
  {
  }

  /** There are such headers at every bank size: one as long as the bank leaves no record room. */
  lemma LongHeaderNeverFits(h: RunHeader, r: Record, bankBytes: nat)
    requires bankBytes <= |h.experiment|
    ensures |Frame(Body(h, r))| > bankBytes
  {
    hide EncodeFields;
    var version, rest := OptVarint(1, SCHEMA_VERSION), OptBytes(3, h.session) + OptBytes(4, h.run) + OptBytes(5, h.cell)
                                                       + OptBytes(6, h.clockDomain);
    if h.experiment != [] {
      var experiment := Delimited(2, h.experiment);
      assert HeaderFields(h) == version + [experiment] + rest;
      EncodeFieldsConcat(version + [experiment], rest);
      EncodeFieldsConcat(version, [experiment]);
      EncodeOne(experiment);
    }
  }

  /** With such a header the first call of a new writer already breaks the order, whatever it records. */
  lemma FirstCallOverflows(h: RunHeader, bankBytes: nat, banks: nat, r: Record)
    requires banks >= 2 && bankBytes < TWO_63 && bankBytes <= |h.experiment|
    ensures var p := Exec(NewPool(h, bankBytes, banks), [BeginRecord(r)]);
            var q := Exec(NewPool(h, bankBytes, banks), [BeginRecord(r), EnterLock(0)]);
            && p.waiting == [r.(sequence := 1)] && Streaming(p) && Accepts(p)
            && q.active < |q.content| && |q.content[q.active]| > bankBytes && !Streaming(q)
  {
    hide Frame, Body, Enter, Accepts, Streaming, Exec;
    LongHeaderNeverFits(h, r.(sequence := 1), bankBytes);
    CallOverflows(h, bankBytes, banks, r, 1);
    CallsWait(NewPool(h, bankBytes, banks), r, 1);
    assert Calls(r, 1) == [BeginRecord(r)];
    assert [BeginRecord(r)] + [EnterLock(0)] == [BeginRecord(r), EnterLock(0)];
  }
}
