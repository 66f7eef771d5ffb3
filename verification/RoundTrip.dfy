/** Decoding inverts encoding: the parser/printer law of the event codec. */
module RoundTrip {
  import opened Identity
  import opened Schema
  import opened Wire
  import opened Codec
  import RequestId

  /* ---- Any field list ---- */

  ghost predicate Numbered(fs: seq<Field>) {
    forall f :: f in fs ==> f.number <= MAX_FIELD_NUMBER
  }

  function Outcome(r: Result<Reading>): Result<Decoded> {
    match r
    case Err(e) => Err(e)
    case Ok(st) => Ok(Finish(st))
  }

  lemma EncodeFieldsHead(fs: seq<Field>)
    requires fs != []
    ensures EncodeFields(fs) == fs[0].Encode() + EncodeFields(fs[1..])
  {
    assert fs == [fs[0]] + fs[1..];
    EncodeFieldsConcat([fs[0]], fs[1..]);
    EncodeOne(fs[0]);
  }

  /** Decode's continuation after one field. */
  function Continue(applied: Result<Reading>, rest: Bytes): Result<Decoded> {
    match applied
    case Err(e) => Err(e)
    case Ok(next) => DecodeFrom(rest, next)
  }

  lemma DecodeHead(f: Field, rest: Bytes, st: Reading)
    requires f.number <= MAX_FIELD_NUMBER && |f.Encode() + rest| < TWO_63
    ensures DecodeFrom(f.Encode() + rest, st) == Continue(Apply(f, st), rest)
  {
    ReadFieldEncoded(f, rest);
    assert (f.Encode() + rest)[|f.Encode()|..] == rest;
  }

  /** Decoding the encoding of any field list applies exactly those fields, in order. */
  lemma {:induction false} DecodeEncoded(fs: seq<Field>, st: Reading)
    requires Numbered(fs) && |EncodeFields(fs)| < TWO_63
    ensures DecodeFrom(EncodeFields(fs), st) == Outcome(ApplyAll(fs, st))
  {
    if fs == [] {
      assert Encodings(fs) == [];
    } else {
      EncodeFieldsHead(fs);
      DecodeHead(fs[0], EncodeFields(fs[1..]), st);
      match Apply(fs[0], st) {
        case Err(_) =>
        case Ok(next) => DecodeEncoded(fs[1..], next);
      }
    }
  }

  lemma {:induction false} ApplyConcat(a: seq<Field>, b: seq<Field>, st: Reading, mid: Reading)
    requires ApplyAll(a, st) == Ok(mid)
    ensures ApplyAll(a + b, st) == ApplyAll(b, mid)
  {
    if a == [] {
      assert a + b == b;
    } else {
      assert (a + b)[0] == a[0] && (a + b)[1..] == a[1..] + b;
      ApplyConcat(a[1..], b, Apply(a[0], st).value, mid);
    }
  }

  lemma ApplyOne(f: Field, st: Reading)
    ensures ApplyAll([f], st) == Apply(f, st)
  {
    assert [f][1..] == [];
    match Apply(f, st) {
      case Err(_) =>
      case Ok(next) => assert ApplyAll([], next) == Ok(next);
    }
  }

  /* ---- Fields that restore nothing ---- */

  /** The decoder has a place for the field: a number of its own under the right wire type. The request id has none. */
  predicate Restores(f: Field) {
    match f
    case Varint(k, _) => k == 1 || (7 <= k <= 16 && k != 14) || 20 <= k < 20 + STAGE_COUNT || (40 <= k <= 48 && k != 43)
    case Delimited(k, _) => 2 <= k <= 6 || k == 43
  }

  lemma NumberedWithout(a: seq<Field>, f: Field, b: seq<Field>)
    requires Numbered(a + [f] + b)
    ensures Numbered(a + b)
  {
    assert forall g :: g in a + b ==> g in a + [f] + b;
  }

  /** A field the decoder has no place for is skipped: wherever it stands, the body decodes as without it. */
  lemma OtherFieldSkipped(a: seq<Field>, f: Field, b: seq<Field>, st: Reading)
    requires !Restores(f) && Numbered(a + [f] + b)
    requires |EncodeFields(a + [f] + b)| < TWO_63 && |EncodeFields(a + b)| < TWO_63
    ensures DecodeFrom(EncodeFields(a + [f] + b), st) == DecodeFrom(EncodeFields(a + b), st)
  {
    hide *;
    NumberedWithout(a, f, b);
    DecodeEncoded(a + [f] + b, st);
    DecodeEncoded(a + b, st);
    assert a + [f] + b == a + ([f] + b);
    SkipOther(a, f, b, st);
  }

  lemma {:induction false} SkipOther(a: seq<Field>, f: Field, b: seq<Field>, st: Reading)
    requires !Restores(f)
    ensures ApplyAll(a + ([f] + b), st) == ApplyAll(a + b, st)
  {
    if a == [] {
      assert a + ([f] + b) == [f] + b && a + b == b && ([f] + b)[1..] == b;
      assert Apply(f, st) == Ok(st);
    } else {
      assert (a + ([f] + b))[1..] == a[1..] + ([f] + b) && (a + b)[1..] == a[1..] + b;
      match Apply(a[0], st) {
        case Err(_) =>
        case Ok(next) => SkipOther(a[1..], f, b, next);
      }
    }
  }

  /* ---- One field at a time ---- */

  function VarintStep(st: Reading, k: nat, v: uint64): Reading {
    Reading(SetVarint(st.d, k, v), st.countSeen || k == 44)
  }

  lemma Then(fs: seq<Field>, f: Field, st0: Reading, st: Reading)
    requires ApplyAll(fs, st0) == Ok(st)
    ensures ApplyAll(fs + [f], st0) == Apply(f, st)
  {
    ApplyConcat(fs, [f], st0, st);
    ApplyOne(f, st);
  }

  /** An optional scalar sets its field, or is absent and finds the field already zero. */
  lemma ThenOpt(fs: seq<Field>, k: nat, v: uint64, st0: Reading, st: Reading, next: Reading)
    requires ApplyAll(fs, st0) == Ok(st)
    requires next == if v == 0 then st else VarintStep(st, k, v)
    ensures ApplyAll(fs + OptVarint(k, v), st0) == Ok(next)
  {
    if v == 0 {
      assert fs + [] == fs;
    } else {
      Then(fs, Varint(k, v), st0, st);
    }
  }

  lemma ThenBytes(fs: seq<Field>, k: nat, s: Bytes, st0: Reading, st: Reading, next: Reading)
    requires ApplyAll(fs, st0) == Ok(st)
    requires if s == [] then next == st else Apply(Delimited(k, s), st) == Ok(next)
    ensures ApplyAll(fs + OptBytes(k, s), st0) == Ok(next)
  {
    if s == [] {
      assert fs + [] == fs;
    } else {
      Then(fs, Delimited(k, s), st0, st);
    }
  }

  /* ---- One group at a time ---- */

  /** A header's fields set the schema version and every part of the header but the writer id. */
  lemma ApplyHeader(h: RunHeader)
    ensures ApplyAll(HeaderFields(h), START)
         == Ok(Reading(Decoded(SCHEMA_VERSION, h.(writerID := 0), EMPTY_RECORD), false))
  {
    var e := EMPTY_HEADER;
    var h2 := e.(experiment := h.experiment);
    var h3 := h2.(session := h.session);
    var h4 := h3.(run := h.run);
    var h5 := h4.(cell := h.cell);
    var h6 := h5.(clockDomain := h.clockDomain);
    var s1 := Reading(Decoded(SCHEMA_VERSION, e, EMPTY_RECORD), false);
    var s2, s3, s4 := s1.(d := s1.d.(header := h2)), s1.(d := s1.d.(header := h3)), s1.(d := s1.d.(header := h4));
    var s5, s6 := s1.(d := s1.d.(header := h5)), s1.(d := s1.d.(header := h6));
    var f1 := OptVarint(1, SCHEMA_VERSION);
    var f2 := f1 + OptBytes(2, h.experiment);
    var f3 := f2 + OptBytes(3, h.session);
    var f4 := f3 + OptBytes(4, h.run);
    var f5 := f4 + OptBytes(5, h.cell);
    ApplyOne(Varint(1, SCHEMA_VERSION), START);
    ThenBytes(f1, 2, h.experiment, START, s1, s2);
    ThenBytes(f2, 3, h.session, START, s2, s3);
    ThenBytes(f3, 4, h.run, START, s3, s4);
    ThenBytes(f4, 5, h.cell, START, s4, s5);
    ThenBytes(f5, 6, h.clockDomain, START, s5, s6);
  }

  lemma ApplyIdentity(r: Record, writer: uint32, st: Reading)
    requires st.d.record == EMPTY_RECORD && st.d.header.writerID == 0
    ensures ApplyAll(IdentityFields(r, writer), st)
         == Ok(st.(d := st.d.(header := st.d.header.(writerID := writer),
                   record := EMPTY_RECORD.(emitter := r.emitter, sequence := r.sequence, cohort := r.cohort,
                     ordinal := r.ordinal, envelopeID := r.envelopeID, executionID := r.executionID))))
  {
    var r7 := EMPTY_RECORD.(emitter := r.emitter);
    var r9 := r7.(sequence := r.sequence);
    var r10 := r9.(cohort := r.cohort);
    var r11 := r10.(ordinal := r.ordinal);
    var r12 := r11.(envelopeID := r.envelopeID);
    var r13 := r12.(executionID := r.executionID);
    var s7 := st.(d := st.d.(record := r7));
    var s8 := s7.(d := s7.d.(header := st.d.header.(writerID := writer)));
    var s9, s10, s11 := s8.(d := s8.d.(record := r9)), s8.(d := s8.d.(record := r10)), s8.(d := s8.d.(record := r11));
    var s12, s13 := s8.(d := s8.d.(record := r12)), s8.(d := s8.d.(record := r13));
    var f7 := OptVarint(7, r.emitter);
    var f8 := f7 + OptVarint(8, writer);
    var f9 := f8 + OptVarint(9, r.sequence);
    var f10 := f9 + OptVarint(10, r.cohort);
    var f11 := f10 + OptVarint(11, r.ordinal);
    var f12 := f11 + OptVarint(12, r.envelopeID);
    assert [] + f7 == f7;
    ThenOpt([], 7, r.emitter, st, st, s7);
    ThenOpt(f7, 8, writer, st, s7, s8);
    ThenOpt(f8, 9, r.sequence, st, s8, s9);
    ThenOpt(f9, 10, r.cohort, st, s9, s10);
    ThenOpt(f10, 11, r.ordinal, st, s10, s11);
    ThenOpt(f11, 12, r.envelopeID, st, s11, s12);
    ThenOpt(f12, 13, r.executionID, st, s12, s13);
  }

  lemma ApplyRequestId(r: Record, st: Reading)
    ensures ApplyAll(RequestIdField(r), st) == Ok(st)
  {
    RequestId.RenderLength(r.Request());
    ApplyOne(Delimited(14, RequestId.Render(r.Request())), st);
  }

  lemma ApplyOutcome(r: Record, st: Reading)
    requires st.d.record.presence == 0 && st.d.record.status == 0
    ensures ApplyAll(OutcomeFields(r), st)
         == Ok(st.(d := st.d.(record := st.d.record.(presence := r.presence, status := r.status))))
  {
    var s15 := st.(d := st.d.(record := st.d.record.(presence := r.presence)));
    var s16 := s15.(d := s15.d.(record := s15.d.record.(status := r.status)));
    var f15 := OptVarint(15, r.presence);
    assert [] + f15 == f15;
    ThenOpt([], 15, r.presence, st, st, s15);
    ThenOpt(f15, 16, r.status, st, s15, s16);
  }

  /** ts with the stages from s on replaced by r's present ones. */
  function MergeTimestamps(ts: Timestamps, r: Record, s: nat): Timestamps
    requires 1 <= s <= STAGE_COUNT + 1
    decreases STAGE_COUNT + 1 - s
  {
    if s > STAGE_COUNT then ts
    else MergeTimestamps(if r.Has(s) then ts[s := r.ts[s]] else ts, r, s + 1)
  }

  lemma {:induction false} MergeTimestampsAt(ts: Timestamps, r: Record, s: nat, i: nat)
    requires 1 <= s <= STAGE_COUNT + 1 && i <= STAGE_COUNT
    ensures MergeTimestamps(ts, r, s)[i] == if s <= i && r.Has(i) then r.ts[i] else ts[i]
    decreases STAGE_COUNT + 1 - s
  {
    if s <= STAGE_COUNT {
      MergeTimestampsAt(if r.Has(s) then ts[s := r.ts[s]] else ts, r, s + 1, i);
    }
  }

  lemma ApplyStage(t: int64, s: Stage, st: Reading)
    ensures ApplyAll([Varint(19 + s, ToUint64(t))], st)
         == Ok(st.(d := st.d.(record := st.d.record.(ts := st.d.record.ts[s := t]))))
  {
    SignReturns(t);
    hide ToUint64, ToInt64, ApplyAll;
    ApplyOne(Varint(19 + s, ToUint64(t)), st);
  }

  lemma SignReturns(t: int64)
    ensures ToInt64(ToUint64(t)) == t
  {
  }

  lemma MergeNext(ts: Timestamps, r: Record, s: Stage)
    ensures MergeTimestamps(ts, r, s) == MergeTimestamps(if r.Has(s) then ts[s := r.ts[s]] else ts, r, s + 1)
  {
    hide MaskHas;
  }

  /** One stage's field, if it has one, and the stages after it. */
  lemma ThenStages(r: Record, s: Stage, st: Reading, next: Reading, end: Reading)
    requires ApplyAll(StageField(r, s), st) == Ok(next) && ApplyAll(TimestampFields(r, s + 1), next) == Ok(end)
    ensures ApplyAll(TimestampFields(r, s), st) == Ok(end)
  {
    assert TimestampFields(r, s) == StageField(r, s) + TimestampFields(r, s + 1);
    hide *;
    ApplyConcat(StageField(r, s), TimestampFields(r, s + 1), st, next);
  }

  lemma ApplyStageField(r: Record, s: Stage, st: Reading)
    ensures ApplyAll(StageField(r, s), st)
         == Ok(if r.Has(s) then st.(d := st.d.(record := st.d.record.(ts := st.d.record.ts[s := r.ts[s]]))) else st)
  {
    hide MaskHas, ToUint64;
    if r.Has(s) { ApplyStage(r.ts[s], s, st); }
  }

  lemma {:induction false} ApplyTimestamps(r: Record, s: nat, st: Reading)
    requires 1 <= s <= STAGE_COUNT + 1
    ensures ApplyAll(TimestampFields(r, s), st)
         == Ok(st.(d := st.d.(record := st.d.record.(ts := MergeTimestamps(st.d.record.ts, r, s)))))
    decreases STAGE_COUNT + 1 - s
  {
    if s <= STAGE_COUNT {
      MergeNext(st.d.record.ts, r, s);
      hide Apply, ApplyAll, MergeTimestamps, MaskHas, TimestampFields, StageField;
      var ts := if r.Has(s) then st.d.record.ts[s := r.ts[s]] else st.d.record.ts;
      var next := st.(d := st.d.(record := st.d.record.(ts := ts)));
      ApplyStageField(r, s, st);
      ApplyTimestamps(r, s + 1, next);
      ThenStages(r, s, st, next, next.(d := next.d.(record := next.d.record.(ts := MergeTimestamps(ts, r, s + 1)))));
    }
  }

  lemma ApplyCounters(r: Record, st: Reading)
    requires var z := st.d.record; z.logicalBytes == 0 && z.envelopeBytes == 0 && z.batchSize == 0
    ensures ApplyAll(CounterFields(r), st)
         == Ok(st.(d := st.d.(record := st.d.record.(logicalBytes := r.logicalBytes,
                   envelopeBytes := r.envelopeBytes, batchSize := r.batchSize))))
  {
    var s40 := st.(d := st.d.(record := st.d.record.(logicalBytes := r.logicalBytes)));
    var s41 := s40.(d := s40.d.(record := s40.d.record.(envelopeBytes := r.envelopeBytes)));
    var s42 := s41.(d := s41.d.(record := s41.d.record.(batchSize := r.batchSize)));
    var f40 := OptVarint(40, r.logicalBytes);
    var f41 := f40 + OptVarint(41, r.envelopeBytes);
    assert [] + f40 == f40;
    ThenOpt([], 40, r.logicalBytes, st, st, s40);
    ThenOpt(f40, 41, r.envelopeBytes, st, s40, s41);
    ThenOpt(f41, 42, r.batchSize, st, s41, s42);
  }

  lemma {:induction false} UnpackInvertsPack(uids: seq<int64>)
    ensures UnpackUids(PackUids(uids)) == Ok(uids)
  {
    if uids != [] {
      var head, tail := Uvarint(ToUint64(uids[0])), PackUids(uids[1..]);
      UvarintReadsBack(ToUint64(uids[0]), tail);
      assert (head + tail)[|head|..] == tail;
      UnpackInvertsPack(uids[1..]);
      assert ToInt64(ToUint64(uids[0])) == uids[0];
      assert PackUids(uids) == head + tail;
      assert [uids[0]] + uids[1..] == uids;
    }
  }

  function StoredUids(r: Record): seq<Field> {
    PackUidsLength(r.membership);
    OptBytes(43, PackUids(r.membership))
  }

  lemma ApplyStoredUids(r: Record, st: Reading)
    requires st.d.record.membership == [] && st.d.record.membershipCount == 0
    ensures ApplyAll(StoredUids(r), st) == Ok(st.(d := st.d.(record := st.d.record.SetMembership(r.membership))))
  {
    if r.membership != [] {
      PackUidsLength(r.membership);
      UnpackInvertsPack(r.membership);
      ApplyOne(Delimited(43, PackUids(r.membership)), st);
    }
  }

  lemma ApplyMembership(r: Record, st: Reading)
    requires st.d.record.membership == [] && st.d.record.membershipCount == 0 && !st.countSeen
    ensures ApplyAll(MembershipFields(r), st)
         == Ok(Reading(st.d.(record := st.d.record.(membership := r.membership, membershipCount :=
                   if r.membershipCount == 0 then |r.membership| else r.membershipCount)),
               r.membershipCount != 0))
  {
    var s43 := st.(d := st.d.(record := st.d.record.SetMembership(r.membership)));
    ApplyStoredUids(r, st);
    ThenOpt(StoredUids(r), 44, r.membershipCount, st, s43,
            if r.membershipCount == 0 then s43 else VarintStep(s43, 44, r.membershipCount));
  }

  lemma ApplyDispatch(r: Record, st: Reading)
    requires st.d.record.dispatch == NO_DISPATCH && !st.d.record.hasDispatch
    ensures ApplyAll(DispatchFields(r), st)
         == Ok(if r.hasDispatch
               then st.(d := st.d.(record := st.d.record.(dispatch := r.dispatch, hasDispatch := true)))
               else st)
  {
    if r.hasDispatch {
      var d := r.dispatch;
      var d45 := NO_DISPATCH.(dispatched := d.dispatched);
      var d46 := d45.(skewNanos := d.skewNanos);
      var d47 := d46.(cpuNanos := d.cpuNanos);
      var s45 := st.(d := st.d.(record := st.d.record.(dispatch := d45, hasDispatch := true)));
      var s46 := s45.(d := s45.d.(record := s45.d.record.(dispatch := d46)));
      var s47 := s46.(d := s46.d.(record := s46.d.record.(dispatch := d47)));
      var s48 := s47.(d := s47.d.(record := s47.d.record.(dispatch := d)));
      var f45, f46, f47 :=
        Varint(45, d.dispatched), Varint(46, ToUint64(d.skewNanos)), Varint(47, ToUint64(d.cpuNanos));
      ApplyOne(f45, st);
      Then([f45], f46, st, s45);
      Then([f45] + [f46], f47, st, s46);
      assert [f45] + [f46] + [f47] == [f45, f46, f47];
      ThenOpt([f45, f46, f47], 48, d.cpuScope, st, s47, s48);
    }
  }

  /* ---- The whole record ---- */

  /** What a record is read back as. */
  function Canonical(r: Record): Record {
    r.(ts := MergeTimestamps(NO_TIMESTAMPS, r, 1),
       membershipCount := if r.membershipCount == 0 then |r.membership| else r.membershipCount,
       dispatch := if r.hasDispatch then r.dispatch else NO_DISPATCH)
  }

  /**
   Absence is typed: an absent timestamp holds zero, stored members carry a count, and a
   record that observed no dispatch holds no dispatch values.
   */
  predicate Normalised(r: Record) {
    && (forall i: nat :: i <= STAGE_COUNT ==> (i == 0 || !r.Has(i)) ==> r.ts[i] == 0)
    && (r.membershipCount == 0 ==> r.membership == [])
    && (!r.hasDispatch ==> r.dispatch == NO_DISPATCH)
  }

  lemma CanonicalIsIdentity(r: Record)
    ensures Canonical(r) == r <==> Normalised(r)
  {
    forall i: nat | i <= STAGE_COUNT
      ensures Canonical(r).ts[i] == if 1 <= i && r.Has(i) then r.ts[i] else 0
    {
      MergeTimestampsAt(NO_TIMESTAMPS, r, 1, i);
      assert NO_TIMESTAMPS[i] == 0;
    }
    if Normalised(r) {
      assert Canonical(r).ts == r.ts;
    }
    if Canonical(r) == r {
      forall i: nat | i <= STAGE_COUNT && (i == 0 || !r.Has(i)) ensures r.ts[i] == 0 {
        assert Canonical(r).ts[i] == 0;
      }
    }
  }

  /** A record's fields, applied to an empty record, set the writer id and the record's canonical form, nothing else. */
  lemma ApplyRecord(r: Record, writer: uint32, st: Reading)
    requires st.d.record == EMPTY_RECORD && st.d.header.writerID == 0 && !st.countSeen
    ensures ApplyAll(RecordFields(r, writer), st).Ok?
    ensures Finish(ApplyAll(RecordFields(r, writer), st).value)
         == st.d.(header := st.d.header.(writerID := writer), record := Canonical(r))
  {
    var a, b, c, d := IdentityFields(r, writer), RequestIdField(r), OutcomeFields(r), TimestampFields(r);
    var e, f, g := CounterFields(r), MembershipFields(r), DispatchFields(r);
    ApplyIdentity(r, writer, st);
    var sa := ApplyAll(a, st).value;
    ApplyConcat(a, b, st, sa);
    ApplyRequestId(r, sa);
    ApplyConcat(a + b, c, st, sa);
    ApplyOutcome(r, sa);
    var sc := ApplyAll(c, sa).value;
    ApplyConcat(a + b + c, d, st, sc);
    ApplyTimestamps(r, 1, sc);
    var sd := ApplyAll(d, sc).value;
    ApplyConcat(a + b + c + d, e, st, sd);
    ApplyCounters(r, sd);
    var se := ApplyAll(e, sd).value;
    ApplyConcat(a + b + c + d + e, f, st, se);
    ApplyMembership(r, se);
    var sf := ApplyAll(f, se).value;
    ApplyConcat(a + b + c + d + e + f, g, st, sf);
    ApplyDispatch(r, sf);
  }

  lemma {:induction false} TimestampsNumbered(r: Record, s: nat)
    requires 1 <= s <= STAGE_COUNT + 1
    ensures Numbered(TimestampFields(r, s))
    decreases STAGE_COUNT + 1 - s
  {
    if s <= STAGE_COUNT {
      TimestampsNumbered(r, s + 1);
    }
  }

  lemma NumberedConcat(a: seq<Field>, b: seq<Field>)
    requires Numbered(a) && Numbered(b)
    ensures Numbered(a + b)
  {
  }

  lemma IdentityNumbered(r: Record, writer: uint32)
    ensures Numbered(IdentityFields(r, writer))
  {
    var a3 := OptVarint(7, r.emitter) + OptVarint(8, writer) + OptVarint(9, r.sequence);
    assert Numbered(a3);
    var a5 := a3 + OptVarint(10, r.cohort) + OptVarint(11, r.ordinal);
    assert Numbered(a5);
  }

  lemma GroupsNumbered(r: Record)
    ensures Numbered(RequestIdField(r)) && Numbered(OutcomeFields(r)) && Numbered(CounterFields(r))
    ensures Numbered(MembershipFields(r)) && Numbered(DispatchFields(r))
  {
  }

  lemma RecordNumbered(r: Record, writer: uint32)
    ensures Numbered(RecordFields(r, writer))
  {
    hide Numbered, IdentityFields, RequestIdField, OutcomeFields, TimestampFields, CounterFields, MembershipFields,
         DispatchFields;
    GroupsNumbered(r);
    var a, b, c, d := IdentityFields(r, writer), RequestIdField(r), OutcomeFields(r), TimestampFields(r);
    var e, f, g := CounterFields(r), MembershipFields(r), DispatchFields(r);
    TimestampsNumbered(r, 1);
    IdentityNumbered(r, writer);
    NumberedConcat(a, b);
    NumberedConcat(a + b, c);
    NumberedConcat(a + b + c, d);
    NumberedConcat(a + b + c + d, e);
    NumberedConcat(a + b + c + d + e, f);
    NumberedConcat(a + b + c + d + e + f, g);
  }

  lemma HeaderNumbered(h: RunHeader)
    ensures Numbered(HeaderFields(h))
  {
    var a3 := OptVarint(1, SCHEMA_VERSION) + OptBytes(2, h.experiment) + OptBytes(3, h.session);
    assert Numbered(a3);
    var a5 := a3 + OptBytes(4, h.run) + OptBytes(5, h.cell);
    assert Numbered(a5);
  }

  /** Every body decodes, to its own header and the canonical form of its record. */
  lemma DecodeBodyOf(h: RunHeader, r: Record)
    requires |Body(h, r)| < TWO_63
    ensures DecodeBody(Body(h, r)) == Ok(Decoded(SCHEMA_VERSION, h, Canonical(r)))
  {
    var hf, rf := HeaderFields(h), RecordFields(r, h.writerID);
    EncodeFieldsConcat(hf, rf);
    HeaderNumbered(h);
    RecordNumbered(r, h.writerID);
    DecodeEncoded(hf + rf, START);
    ApplyHeader(h);
    var sh := ApplyAll(hf, START).value;
    ApplyConcat(hf, rf, START, sh);
    ApplyRecord(r, h.writerID, sh);
  }

  /** What a reader sees of a record handed to the writer: numbered, and in canonical form. */
  ghost predicate ReadAs(seen: Record, rec: Record) {
    exists n: uint64 :: seen == AsRead(rec, n)
  }

  function AsRead(rec: Record, n: uint64): Record {
    Canonical(rec.(sequence := n))
  }

  /** Neither the number nor the canonical form touches whose record it is and what it carries. */
  lemma ReadAsKeeps(seen: Record, rec: Record)
    requires ReadAs(seen, rec)
    ensures seen.Request() == rec.Request() && seen.emitter == rec.emitter && seen.envelopeID == rec.envelopeID
    ensures forall s: Stage :: (seen.Has(s) <==> rec.Has(s)) && (rec.Has(s) ==> seen.ts[s] == rec.ts[s])
    ensures seen.hasDispatch == rec.hasDispatch && (rec.hasDispatch ==> seen.dispatch == rec.dispatch)
  {
    hide MaskHas;
    var n: uint64 :| seen == AsRead(rec, n);
    var stamped := rec.(sequence := n);
    forall s: Stage ensures (seen.Has(s) <==> rec.Has(s)) && (rec.Has(s) ==> seen.ts[s] == rec.ts[s]) {
      MergeTimestampsAt(NO_TIMESTAMPS, stamped, 1, s);
    }
  }

  /** The round trip holds for exactly the normalised records. */
  lemma RoundTripExactly(h: RunHeader, r: Record)
    requires |Body(h, r)| < TWO_63
    ensures DecodeBody(Body(h, r)) == Ok(Decoded(SCHEMA_VERSION, h, r)) <==> Normalised(r)
  {
    DecodeBodyOf(h, r);
    CanonicalIsIdentity(r);
  }
}
