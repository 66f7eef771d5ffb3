/**
 The event record as api/events/v1/event.proto declares it: which field has which number, what
 each carries, and how numbers and fields are put into bytes. The table below is written from the
 declaration, and the codec (internal/events/codec.go) is held to it on both sides.
 */
module Proto {
  import opened Identity
  import opened Schema
  import opened Wire
  import opened Codec
  import RequestId
  import RT = RoundTrip
  import Stream

  /** What the number field of each number carries; 0 for a number that is not one. */
  function NumberIn(d: Decoded, field: nat): uint64 {
    var r := d.record;
    match field
    case 1 => d.schemaVersion
    case 7 => r.emitter
    case 8 => d.header.writerID
    case 9 => r.sequence
    case 10 => r.cohort
    case 11 => r.ordinal
    case 12 => r.envelopeID
    case 13 => r.executionID
    case 15 => r.presence
    case 16 => r.status
    case 20 => ToUint64(r.ts[SCHED])
    case 21 => ToUint64(r.ts[CLIENT_SEND])
    case 22 => ToUint64(r.ts[PROXY_RECV])
    case 23 => ToUint64(r.ts[COHORT_SEAL])
    case 24 => ToUint64(r.ts[PROXY_SEND])
    case 25 => ToUint64(r.ts[ADAPTER_RECV])
    case 26 => ToUint64(r.ts[ADAPTER_DISPATCH])
    case 27 => ToUint64(r.ts[QUEUE_START])
    case 28 => ToUint64(r.ts[COMPUTE_START])
    case 29 => ToUint64(r.ts[COMPUTE_END])
    case 30 => ToUint64(r.ts[ADAPTER_RESULT])
    case 31 => ToUint64(r.ts[ADAPTER_SEND])
    case 32 => ToUint64(r.ts[PROXY_RESP_RECV])
    case 33 => ToUint64(r.ts[PROXY_FANOUT])
    case 34 => ToUint64(r.ts[CLIENT_RECV])
    case 40 => r.logicalBytes
    case 41 => r.envelopeBytes
    case 42 => r.batchSize
    case 44 => r.membershipCount
    case 45 => r.dispatch.dispatched
    case 46 => ToUint64(r.dispatch.skewNanos)
    case 47 => ToUint64(r.dispatch.cpuNanos)
    case 48 => r.dispatch.cpuScope
    case _ => 0
  }

  /** What the text or packed field of each number carries. */
  function TextIn(d: Decoded, field: nat): seq<byte> {
    match field
    case 2 => d.header.experiment
    case 3 => d.header.session
    case 4 => d.header.run
    case 5 => d.header.cell
    case 6 => d.header.clockDomain
    case 14 => RequestId.Render(d.record.Request())
    case 43 => PackUids(d.record.membership)
    case _ => []
  }

  /** The optional fields, which are there even when they carry zero: the timestamps and the dispatch evidence. */
  predicate Optional(field: nat) {
    20 <= field <= 34 || 45 <= field <= 47
  }

  /** Whether the optional field of the number is set: the stage's presence bit, or the evidence as a whole. */
  predicate OptionalSet(d: Decoded, field: nat)
    requires Optional(field)
  {
    if field <= 34 then d.record.Has(field - 19) else d.record.hasDispatch
  }

  /** Whether a number field is on the wire. */
  predicate NumberSet(d: Decoded, field: nat) {
    if Optional(field) then OptionalSet(d, field)
    else NumberIn(d, field) != 0 && (field == 48 ==> d.record.hasDispatch)
  }

  /** The list's fields are numbered upwards, from above lo to hi at most. */
  ghost predicate Rising(fs: seq<Field>, lo: nat, hi: nat) {
    && (forall i :: 0 <= i < |fs| ==> lo < fs[i].number <= hi)
    && forall i, j :: 0 <= i < j < |fs| ==> fs[i].number < fs[j].number
  }

  /** The field carries what the table says its number does, and is on the wire. */
  predicate Says(d: Decoded, f: Field) {
    match f
    case Varint(k, v) => NumberSet(d, k) && v == NumberIn(d, k)
    case Delimited(k, s) => TextIn(d, k) != [] && s == TextIn(d, k)
  }

  /** The list holds exactly the fields above lo and up to hi that the table says are set, each once. */
  ghost predicate Holds(fs: seq<Field>, d: Decoded, lo: nat, hi: nat) {
    Rising(fs, lo, hi) && forall f: Field :: f in fs <==> lo < f.number <= hi && Says(d, f)
  }

  /* ---- The encoder ---- */

  /** What the encoder is given, as the table reads it. */
  function Given(h: RunHeader, r: Record): Decoded {
    Decoded(SCHEMA_VERSION, h, r)
  }

  lemma NothingHeld(d: Decoded, lo: nat)
    ensures Holds([], d, lo, lo)
  {
  }

  lemma HoldsBoth(a: seq<Field>, b: seq<Field>, d: Decoded, lo: nat, mid: nat, hi: nat)
    requires lo <= mid <= hi && Holds(a, d, lo, mid) && Holds(b, d, mid, hi)
    ensures Holds(a + b, d, lo, hi)
  {
    hide Says;
    forall f: Field ensures f in a + b <==> lo < f.number <= hi && Says(d, f) {
      assert f in a + b <==> f in a || f in b;
    }
  }

  /** Numbers without a field. */
  lemma HoldsGap(a: seq<Field>, d: Decoded, lo: nat, mid: nat, hi: nat)
    requires lo <= mid <= hi && Holds(a, d, lo, mid)
    requires (mid >= 48 || (16 <= mid && hi <= 19) || (34 <= mid && hi <= 39))
    ensures Holds(a, d, lo, hi)
  {
    forall f: Field ensures f in a <==> lo < f.number <= hi && Says(d, f) {
      assert f.number > mid && f.number <= hi ==> !Says(d, f);
    }
  }

  lemma HoldsScalar(a: seq<Field>, d: Decoded, lo: nat, k: nat)
    requires 0 < k && lo < k && Holds(a, d, lo, k - 1) && !Optional(k) && TextIn(d, k) == []
    requires k == 48 ==> d.record.hasDispatch
    ensures Holds(a + OptVarint(k, NumberIn(d, k)), d, lo, k)
  {
    hide NumberIn, TextIn;
    assert Holds(OptVarint(k, NumberIn(d, k)), d, k - 1, k);
    HoldsBoth(a, OptVarint(k, NumberIn(d, k)), d, lo, k - 1, k);
  }

  lemma HoldsText(a: seq<Field>, d: Decoded, lo: nat, k: nat)
    requires 0 < k && lo < k && Holds(a, d, lo, k - 1) && !Optional(k) && NumberIn(d, k) == 0 && |TextIn(d, k)| < TWO_63
    ensures Holds(a + OptBytes(k, TextIn(d, k)), d, lo, k)
  {
    hide NumberIn, TextIn;
    assert Holds(OptBytes(k, TextIn(d, k)), d, k - 1, k);
    HoldsBoth(a, OptBytes(k, TextIn(d, k)), d, lo, k - 1, k);
  }

  lemma HoldsOptional(a: seq<Field>, d: Decoded, lo: nat, k: nat)
    requires 0 < k && lo < k && Holds(a, d, lo, k - 1) && Optional(k)
    ensures Holds(a + (if OptionalSet(d, k) then [Varint(k, NumberIn(d, k))] else []), d, lo, k)
  {
    var one := if OptionalSet(d, k) then [Varint(k, NumberIn(d, k))] else [];
    assert TextIn(d, k) == [];
    hide NumberIn, TextIn;
    assert Holds(one, d, k - 1, k);
    HoldsBoth(a, one, d, lo, k - 1, k);
  }

  lemma HeaderHolds(h: RunHeader, r: Record)
    ensures Holds(HeaderFields(h), Given(h, r), 0, 6)
  {
    hide Holds, OptVarint, OptBytes;
    var d := Given(h, r);
    NothingHeld(d, 0);
    HoldsScalar([], d, 0, 1);
    var a := [] + OptVarint(1, SCHEMA_VERSION);
    assert a == OptVarint(1, SCHEMA_VERSION);
    HoldsText(a, d, 0, 2);
    HoldsText(a + OptBytes(2, h.experiment), d, 0, 3);
    var b := a + OptBytes(2, h.experiment) + OptBytes(3, h.session);
    HoldsText(b, d, 0, 4);
    HoldsText(b + OptBytes(4, h.run), d, 0, 5);
    HoldsText(b + OptBytes(4, h.run) + OptBytes(5, h.cell), d, 0, 6);
  }

  lemma IdentityHolds(h: RunHeader, r: Record)
    ensures Holds(IdentityFields(r, h.writerID), Given(h, r), 6, 13)
  {
    hide Holds, OptVarint;
    var d := Given(h, r);
    NothingHeld(d, 6);
    HoldsScalar([], d, 6, 7);
    var a := [] + OptVarint(7, r.emitter);
    assert a == OptVarint(7, r.emitter);
    HoldsScalar(a, d, 6, 8);
    HoldsScalar(a + OptVarint(8, h.writerID), d, 6, 9);
    var b := a + OptVarint(8, h.writerID) + OptVarint(9, r.sequence);
    HoldsScalar(b, d, 6, 10);
    HoldsScalar(b + OptVarint(10, r.cohort), d, 6, 11);
    var c := b + OptVarint(10, r.cohort) + OptVarint(11, r.ordinal);
    HoldsScalar(c, d, 6, 12);
    HoldsScalar(c + OptVarint(12, r.envelopeID), d, 6, 13);
  }

  lemma OutcomeHolds(h: RunHeader, r: Record)
    ensures Holds(RequestIdField(r) + OutcomeFields(r), Given(h, r), 13, 19)
  {
    hide Holds, OptVarint, OptBytes;
    var d := Given(h, r);
    RequestId.RenderLength(r.Request());
    NothingHeld(d, 13);
    HoldsText([], d, 13, 14);
    var a := [] + RequestIdField(r);
    assert a == RequestIdField(r);
    HoldsScalar(a, d, 13, 15);
    HoldsScalar(a + OptVarint(15, r.presence), d, 13, 16);
    assert a + OptVarint(15, r.presence) + OptVarint(16, r.status) == RequestIdField(r) + OutcomeFields(r);
    HoldsGap(RequestIdField(r) + OutcomeFields(r), d, 13, 16, 19);
  }

  /** The table's row for each timestamp: stage s has number 19 + s. */
  lemma StageNumber(d: Decoded, s: Stage)
    ensures NumberIn(d, 19 + s) == ToUint64(d.record.ts[s])
  {
    hide ToUint64;
  }

  lemma {:induction false} TimestampsHold(d: Decoded, s: nat)
    requires 1 <= s <= STAGE_COUNT + 1
    ensures Holds(TimestampFields(d.record, s), d, 18 + s, 34)
    decreases STAGE_COUNT + 1 - s
  {
    hide Holds, NumberIn;
    if s > STAGE_COUNT {
      NothingHeld(d, 34);
    } else {
      TimestampsHold(d, s + 1);
      NothingHeld(d, 18 + s);
      HoldsOptional([], d, 18 + s, 19 + s);
      StageNumber(d, s);
      assert [] + StageField(d.record, s) == StageField(d.record, s);
      HoldsBoth(StageField(d.record, s), TimestampFields(d.record, s + 1), d, 18 + s, 19 + s, 34);
    }
  }

  lemma CountersHold(h: RunHeader, r: Record)
    ensures Holds(CounterFields(r), Given(h, r), 39, 42)
  {
    hide Holds, OptVarint;
    var d := Given(h, r);
    NothingHeld(d, 39);
    HoldsScalar([], d, 39, 40);
    var a := [] + OptVarint(40, r.logicalBytes);
    assert a == OptVarint(40, r.logicalBytes);
    HoldsScalar(a, d, 39, 41);
    HoldsScalar(a + OptVarint(41, r.envelopeBytes), d, 39, 42);
  }

  lemma MembershipHolds(h: RunHeader, r: Record)
    ensures Holds(MembershipFields(r), Given(h, r), 42, 44)
  {
    hide Holds, OptVarint, OptBytes;
    var d := Given(h, r);
    PackUidsLength(r.membership);
    NothingHeld(d, 42);
    HoldsText([], d, 42, 43);
    var a := [] + OptBytes(43, PackUids(r.membership));
    assert a == OptBytes(43, PackUids(r.membership));
    HoldsScalar(a, d, 42, 44);
  }

  lemma DispatchHolds(h: RunHeader, r: Record)
    ensures Holds(DispatchFields(r), Given(h, r), 44, 48)
  {
    hide Holds, OptVarint;
    var d, e := Given(h, r), r.dispatch;
    NothingHeld(d, 44);
    HoldsOptional([], d, 44, 45);
    if r.hasDispatch {
      var a: seq<Field> := [] + [Varint(45, e.dispatched)];
      HoldsOptional(a, d, 44, 46);
      HoldsOptional(a + [Varint(46, ToUint64(e.skewNanos))], d, 44, 47);
      var b := a + [Varint(46, ToUint64(e.skewNanos))] + [Varint(47, ToUint64(e.cpuNanos))];
      assert b == [Varint(45, e.dispatched), Varint(46, ToUint64(e.skewNanos)), Varint(47, ToUint64(e.cpuNanos))];
      HoldsScalar(b, d, 44, 48);
    } else {
      NoneWithoutEvidence(d);
    }
  }

  lemma NoneWithoutEvidence(d: Decoded)
    requires !d.record.hasDispatch
    ensures Holds([], d, 44, 48)
  {
  }

  /**
   The encoder keeps to the declaration: the header's and the record's fields are exactly the
   table's, each once, in the order of their numbers.
   */
  lemma EncodesTheTable(h: RunHeader, r: Record)
    ensures Holds(HeaderFields(h) + RecordFields(r, h.writerID), Given(h, r), 0, 48)
  {
    hide Holds, HeaderFields, IdentityFields, RequestIdField, OutcomeFields, TimestampFields, CounterFields,
         MembershipFields, DispatchFields;
    var d := Given(h, r);
    HeaderHolds(h, r);
    IdentityHolds(h, r);
    OutcomeHolds(h, r);
    TimestampsHold(d, 1);
    HoldsGap(TimestampFields(r), d, 19, 34, 39);
    CountersHold(h, r);
    MembershipHolds(h, r);
    DispatchHolds(h, r);
    var a := HeaderFields(h) + IdentityFields(r, h.writerID);
    HoldsBoth(HeaderFields(h), IdentityFields(r, h.writerID), d, 0, 6, 13);
    var b := a + (RequestIdField(r) + OutcomeFields(r));
    HoldsBoth(a, RequestIdField(r) + OutcomeFields(r), d, 0, 13, 19);
    HoldsBoth(b, TimestampFields(r), d, 0, 19, 39);
    HoldsBoth(b + TimestampFields(r), CounterFields(r), d, 0, 39, 42);
    var c := b + TimestampFields(r) + CounterFields(r);
    HoldsBoth(c, MembershipFields(r), d, 0, 42, 44);
    HoldsBoth(c + MembershipFields(r), DispatchFields(r), d, 0, 44, 48);
    assert c + MembershipFields(r) + DispatchFields(r) == HeaderFields(h) + RecordFields(r, h.writerID);
  }

  /* ---- The decoder ---- */

  /** How many values a number field may take. */
  function Span(field: nat): nat {
    if field in {7, 16, 48} then 0x100
    else if field in {1, 8, 10, 11, 15, 40, 41, 42, 44, 45} then 0x1_0000_0000
    else TWO_64
  }

  predicate IsNumber(field: nat) {
    field == 1 || 7 <= field <= 13 || field == 15 || field == 16 || 20 <= field <= 34
    || 40 <= field <= 42 || 44 <= field <= 48
  }

  /** Decoding has changed no field but this one. */
  ghost predicate OnlyAt(d: Decoded, e: Decoded, field: nat) {
    && (forall k: nat :: k != field ==> NumberIn(e, k) == NumberIn(d, k))
    && (forall k: nat :: 2 <= k <= 6 && k != field ==> TextIn(e, k) == TextIn(d, k))
    && e.record.ts[0] == d.record.ts[0]
    && (field != 43 ==> e.record.membership == d.record.membership)
  }

  /** A number field read sets its own field, to the value in the field's width, and no other. */
  lemma ReadsNumber(k: nat, v: uint64, st: Reading)
    requires IsNumber(k)
    ensures Apply(Varint(k, v), st).Ok?
    ensures var (d, e) := (st.d, Apply(Varint(k, v), st).value.d);
            && NumberIn(e, k) == v % Span(k) && OnlyAt(d, e, k)
            && e.record.hasDispatch == (d.record.hasDispatch || 45 <= k <= 47)
  {
    if 20 <= k <= 34 {
      ReadsStage(k - 19, v, st.d);
    } else {
      hide ToUint64, ToInt64, NumberIn, TextIn;
      if k == 1 || k == 8 { ReadsRun(k, v, st.d); }
      if k == 7 || 9 <= k <= 13 { ReadsIdentity(k, v, st.d); }
      if k == 15 || k == 16 || k == 40 { ReadsOutcome(k, v, st.d); }
      if k == 41 || k == 42 || k == 44 { ReadsCounter(k, v, st.d); }
      if k == 45 || k == 48 { ReadsEvidence(k, v, st.d); }
      if k == 46 || k == 47 { ReadsNanos(k, v, st.d); }
    }
  }

  lemma ReadsStage(s: Stage, v: uint64, d: Decoded)
    ensures var e := SetVarint(d, 19 + s, v);
            && NumberIn(e, 19 + s) == v && OnlyAt(d, e, 19 + s) && e.record.hasDispatch == d.record.hasDispatch
  {
  }

  ghost predicate Sets(d: Decoded, e: Decoded, k: nat, v: uint64) {
    && NumberIn(e, k) == v % Span(k) && OnlyAt(d, e, k)
    && e.record.hasDispatch == (d.record.hasDispatch || 45 <= k <= 47)
  }

  lemma ReadsRun(k: nat, v: uint64, d: Decoded)
    requires k == 1 || k == 8
    ensures Sets(d, SetVarint(d, k, v), k, v)
  {
    hide ToUint64, ToInt64;
  }

  lemma ReadsIdentity(k: nat, v: uint64, d: Decoded)
    requires k == 7 || 9 <= k <= 13
    ensures Sets(d, SetVarint(d, k, v), k, v)
  {
    hide ToUint64, ToInt64;
  }

  lemma ReadsOutcome(k: nat, v: uint64, d: Decoded)
    requires k == 15 || k == 16 || k == 40
    ensures Sets(d, SetVarint(d, k, v), k, v)
  {
    hide ToUint64, ToInt64;
  }

  lemma ReadsCounter(k: nat, v: uint64, d: Decoded)
    requires k == 41 || k == 42 || k == 44
    ensures Sets(d, SetVarint(d, k, v), k, v)
  {
    hide ToUint64, ToInt64;
  }

  lemma ReadsNanos(k: nat, v: uint64, d: Decoded)
    requires k == 46 || k == 47
    ensures Sets(d, SetVarint(d, k, v), k, v)
  {
  }

  lemma ReadsEvidence(k: nat, v: uint64, d: Decoded)
    requires k == 45 || k == 48
    ensures Sets(d, SetVarint(d, k, v), k, v)
  {
    hide ToUint64, ToInt64;
  }

  /** A text field read sets its own field and no other. */
  lemma ReadsText(k: nat, s: Bytes, st: Reading)
    requires 2 <= k <= 6
    ensures Apply(Delimited(k, s), st).Ok?
    ensures var (d, e) := (st.d, Apply(Delimited(k, s), st).value.d);
            TextIn(e, k) == s && OnlyAt(d, e, k) && e.record == d.record
  {
    hide ToUint64;
  }

  /** The packed list of at most 64 uids read back is the list, counted. */
  lemma ReadsUids(uids: Uids, st: Reading)
    requires |PackUids(uids)| < TWO_63
    ensures Apply(Delimited(43, PackUids(uids)), st)
         == Ok(st.(d := st.d.(record := st.d.record.(membership := uids, membershipCount := |uids|))))
  {
    hide UnpackUids, PackUids;
    RT.UnpackInvertsPack(uids);
  }

  /* ---- Bytes ---- */

  /** The number a base-128 varint spells: seven bits a byte, the lowest first. */
  function Spelled(b: seq<byte>): nat {
    if b == [] then 0 else b[0] % 128 + 128 * Spelled(b[1..])
  }

  /** A varint: every byte but the last has its top bit set. */
  predicate IsVarint(b: seq<byte>) {
    b != [] && b[|b| - 1] < 128 && forall i :: 0 <= i < |b| - 1 ==> b[i] >= 128
  }

  lemma {:induction false} VarintSpells(v: nat)
    ensures IsVarint(Uvarint(v)) && Spelled(Uvarint(v)) == v
    ensures |Uvarint(v)| > 1 ==> Uvarint(v)[|Uvarint(v)| - 1] != 0
  {
    if v >= 0x80 {
      VarintSpells(v / 0x80);
      assert Uvarint(v)[1..] == Uvarint(v / 0x80);
    }
  }

  /** A field is its tag, number and wire type, and then its value: a number as a varint, a text behind its length. */
  lemma FieldSpells(f: Field)
    ensures match f
            case Varint(k, v) =>
              exists t, n :: IsVarint(t) && Spelled(t) == 8 * k && IsVarint(n) && Spelled(n) == v && f.Encode() == t + n
            case Delimited(k, s) =>
              exists t, n :: IsVarint(t) && Spelled(t) == 8 * k + 2 && IsVarint(n) && Spelled(n) == |s|
                             && f.Encode() == t + n + s
  {
    hide Uvarint, Spelled;
    match f
    case Varint(k, v) =>
      VarintSpells(k * 8);
      VarintSpells(v);
    case Delimited(k, s) =>
      VarintSpells(k * 8 + 2);
      VarintSpells(|s|);
  }

  /** A frame on the stream is its body behind the body's length. */
  lemma FrameSpells(body: seq<byte>)
    ensures exists n :: IsVarint(n) && Spelled(n) == |body| && Stream.Frame(body) == n + body
  {
    hide Uvarint, Spelled;
    VarintSpells(|body|);
  }

  /** The first n bytes are a varint of v, in 64 bits and ten bytes at most. */
  predicate Reads(b: seq<byte>, v: nat, n: nat) {
    1 <= n <= |b| && n <= 10 && v < TWO_64 && IsVarint(b[..n]) && Spelled(b[..n]) == v
  }

  lemma {:induction false} VarintReadsAt(b: seq<byte>, i: nat, v: nat, n: nat)
    requires i < MAX_VARINT
    ensures ReadUvarint(b, i) == Some((v, n)) <==>
            1 <= n <= |b| && n <= MAX_VARINT - i && v < Room(i) && IsVarint(b[..n]) && Spelled(b[..n]) == v
    decreases |b|
  {
    if b != [] {
      if b[0] < 0x80 {
        if 1 < n <= |b| { assert b[..n][0] == b[0]; }
        assert b[..1] == [b[0]] && b[..1][1..] == [];
      } else if i + 1 < MAX_VARINT {
        VarintReadsAt(b[1..], i + 1, v / 128, if n > 0 then n - 1 else 0);
        ReadUvarintFits(b[1..], i + 1);
        if 1 < n <= |b| {
          VarintTail(b[..n]);
          assert b[..n][1..] == b[1..][..n - 1];
        }
        if n == 1 { assert b[..1][0] == b[0]; }
      } else if n == 1 {
        assert b[..1][0] == b[0];
      }
    }
  }

  lemma VarintTail(b: seq<byte>)
    requires |b| > 1
    ensures IsVarint(b) <==> b[0] >= 128 && IsVarint(b[1..])
    ensures b[0] >= 128 ==> Spelled(b) == b[0] - 128 + 128 * Spelled(b[1..])
  {
    if b[0] >= 128 && IsVarint(b[1..]) {
      forall i | 0 <= i < |b| - 1 ensures b[i] >= 128 {
        assert i > 0 ==> b[i] == b[1..][i - 1];
      }
    }
    if IsVarint(b) {
      forall i | 0 <= i < |b[1..]| - 1 ensures b[1..][i] >= 128 {
        assert b[1..][i] == b[i + 1];
      }
    }
  }

  /** A varint is read exactly where one stands: well ended, within ten bytes and 64 bits, shortest or not. */
  lemma VarintReadExactly(b: seq<byte>, v: uint64, n: nat)
    ensures ReadUint64(b) == Some((v, n)) <==> Reads(b, v, n)
  {
    RoomAtStart();
    VarintReadsAt(b, 0, v, n);
    ReadUvarintFits(b, 0);
  }

  /** What one field's reading takes: its tag as a varint, then a number, or a length and that many bytes. */
  ghost predicate FieldStands(b: seq<byte>, f: Field, n: nat) {
    match f
    case Varint(k, v) =>
      exists t: nat :: t <= |b| && Reads(b, 8 * k, t) && t < n && Reads(b[t..], v, n - t)
    case Delimited(k, s) =>
      exists t: nat, l: nat ::
        && t <= |b| && Reads(b, 8 * k + 2, t) && Reads(b[t..], |s|, l)
        && n == t + l + |s| && n <= |b| && s == b[t + l..n]
  }

  /**
   A field is read exactly where one stands: a tag of wire type 0 with a number behind it, or of
   wire type 2 with a length and that many bytes; every other input is an error.
   */
  lemma FieldReadExactly(b: Bytes, f: Field, n: nat)
    requires b != []
    ensures ReadField(b) == Ok((f, n)) <==> FieldStands(b, f, n)
  {
    hide ReadUint64, Reads;
    if ReadField(b) == Ok((f, n)) {
      var (tag, t) := ReadUint64(b).value;
      VarintReadExactly(b, tag, t);
      match f {
        case Varint(k, v) => VarintReadExactly(b[t..], v, n - t);
        case Delimited(k, s) =>
          var (size, l) := ReadUint64(b[t..]).value;
          VarintReadExactly(b[t..], size, l);
          assert b[t..][l..l + size] == b[t + l..t + l + size];
      }
    }
    if FieldStands(b, f, n) {
      StandingIsRead(b, f, n);
    }
  }

  lemma StandingIsRead(b: Bytes, f: Field, n: nat)
    requires b != [] && FieldStands(b, f, n)
    ensures ReadField(b) == Ok((f, n))
  {
    hide ReadUint64, Reads;
    match f {
      case Varint(k, v) =>
        var t: nat :| t <= |b| && Reads(b, 8 * k, t) && t < n && Reads(b[t..], v, n - t);
        ReadsBound(b, 8 * k, t);
        VarintReadExactly(b, 8 * k, t);
        VarintReadExactly(b[t..], v, n - t);
      case Delimited(k, s) =>
        var t: nat, l: nat :| t <= |b| && Reads(b, 8 * k + 2, t) && Reads(b[t..], |s|, l) && n == t + l + |s|
                              && n <= |b| && s == b[t + l..n];
        ReadsBound(b, 8 * k + 2, t);
        VarintReadExactly(b, 8 * k + 2, t);
        VarintReadExactly(b[t..], |s|, l);
        assert b[t..][l..l + |s|] == b[t + l..n];
    }
  }

  lemma ReadsBound(b: seq<byte>, v: nat, n: nat)
    requires Reads(b, v, n)
    ensures v < TWO_64 && 1 <= n <= |b|
  {
  }
}
