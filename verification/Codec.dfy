/** Encoding and decoding of one event record (internal/events/codec.go). */
module Codec {
  import opened Identity
  import opened Schema
  import opened Wire
  import RequestId

  /* ---- Encoding ---- */

  /** appendVarintField: zero scalars are not on the wire. */
  function OptVarint(number: nat, v: uint64): seq<Field> {
    if v == 0 then [] else [Varint(number, v)]
  }

  /** appendStringField and appendBytesField: empty strings are not on the wire. */
  function OptBytes(number: nat, s: Bytes): seq<Field> {
    if s == [] then [] else [Delimited(number, s)]
  }

  /** encodeHeader. The writer id is not part of it: appendRecord writes that. */
  function HeaderFields(h: RunHeader): seq<Field> {
    OptVarint(1, SCHEMA_VERSION) + OptBytes(2, h.experiment) + OptBytes(3, h.session)
    + OptBytes(4, h.run) + OptBytes(5, h.cell) + OptBytes(6, h.clockDomain)
  }

  function IdentityFields(r: Record, writer: uint32): seq<Field> {
    OptVarint(7, r.emitter) + OptVarint(8, writer) + OptVarint(9, r.sequence) + OptVarint(10, r.cohort)
    + OptVarint(11, r.ordinal) + OptVarint(12, r.envelopeID) + OptVarint(13, r.executionID)
  }

  function RequestIdField(r: Record): seq<Field> {
    RequestId.RenderLength(r.Request());
    OptBytes(14, RequestId.Render(r.Request()))
  }

  function OutcomeFields(r: Record): seq<Field> {
    OptVarint(15, r.presence) + OptVarint(16, r.status)
  }

  function StageField(r: Record, s: Stage): seq<Field> {
    if r.Has(s) then [Varint(19 + s, ToUint64(r.ts[s]))] else []
  }

  /** The stages from s on: a present timestamp is written even when it is zero. */
  function TimestampFields(r: Record, s: nat := 1): seq<Field>
    requires 1 <= s <= STAGE_COUNT + 1
    decreases STAGE_COUNT + 1 - s
  {
    if s > STAGE_COUNT then []
    else StageField(r, s) + TimestampFields(r, s + 1)
  }

  function CounterFields(r: Record): seq<Field> {
    OptVarint(40, r.logicalBytes) + OptVarint(41, r.envelopeBytes) + OptVarint(42, r.batchSize)
  }

  /** The packed uid list. */
  function PackUids(uids: seq<int64>): seq<byte> {
    if uids == [] then [] else Uvarint(ToUint64(uids[0])) + PackUids(uids[1..])
  }

  lemma {:induction false} PackUidsLength(uids: seq<int64>)
    ensures |uids| <= |PackUids(uids)| <= MAX_VARINT * |uids|
  {
    if uids != [] {
      UvarintReadsBack(ToUint64(uids[0]), []);
      PackUidsLength(uids[1..]);
    }
  }

  function MembershipFields(r: Record): seq<Field> {
    PackUidsLength(r.membership);
    OptBytes(43, PackUids(r.membership)) + OptVarint(44, r.membershipCount)
  }

  function DispatchFields(r: Record): seq<Field> {
    if !r.hasDispatch then []
    else [Varint(45, r.dispatch.dispatched), Varint(46, ToUint64(r.dispatch.skewNanos)),
          Varint(47, ToUint64(r.dispatch.cpuNanos))] + OptVarint(48, r.dispatch.cpuScope)
  }

  /** appendRecord's fields, in the order it appends them. */
  function RecordFields(r: Record, writer: uint32): seq<Field> {
    IdentityFields(r, writer) + RequestIdField(r) + OutcomeFields(r) + TimestampFields(r)
    + CounterFields(r) + MembershipFields(r) + DispatchFields(r)
  }

  /** A whole message body: the run-scoped header and then the record. */
  function Body(h: RunHeader, r: Record): seq<byte> {
    EncodeFields(HeaderFields(h)) + EncodeFields(RecordFields(r, h.writerID))
  }

  /* ---- The size bound ---- */

  const MAX_BODY_SIZE: nat := 32 * (2 + MAX_VARINT) + (2 + 1 + 24) + (2 + 2 + MAX_MEMBERSHIP * MAX_VARINT)

  /** A tag of one of the codec's field numbers takes at most two bytes. */
  lemma TagSize(number: nat, wire: nat)
    requires number < 1024 && wire < 8
    ensures |Uvarint(number * 8 + wire)| <= 2
  {
  }

  lemma VarintSize(number: nat, v: uint64)
    requires number < 1024
    ensures |EncodeFields([Varint(number, v)])| <= 12
    ensures |EncodeFields(OptVarint(number, v))| <= 12
  {
    TagSize(number, WIRE_VARINT);
    UvarintReadsBack(v, []);
    EncodeOne(Varint(number, v));
  }

  lemma BytesSize(number: nat, s: Bytes, size: nat)
    requires number < 1024 && |Uvarint(|s|)| <= size
    ensures |EncodeFields(OptBytes(number, s))| <= 2 + size + |s|
  {
    TagSize(number, WIRE_LEN);
    EncodeOne(Delimited(number, s));
  }

  lemma ThenVarintSize(fs: seq<Field>, number: nat, v: uint64)
    requires number < 1024
    ensures |EncodeFields(fs + OptVarint(number, v))| <= |EncodeFields(fs)| + 12
    ensures |EncodeFields(fs + [Varint(number, v)])| <= |EncodeFields(fs)| + 12
  {
    EncodeFieldsConcat(fs, OptVarint(number, v));
    EncodeFieldsConcat(fs, [Varint(number, v)]);
    VarintSize(number, v);
  }

  lemma IdentitySize(r: Record, writer: uint32)
    ensures |EncodeFields(IdentityFields(r, writer))| <= 84
  {
    var a := OptVarint(7, r.emitter);
    var b := a + OptVarint(8, writer);
    var c := b + OptVarint(9, r.sequence);
    var d := c + OptVarint(10, r.cohort);
    var e := d + OptVarint(11, r.ordinal);
    var f := e + OptVarint(12, r.envelopeID);
    VarintSize(7, r.emitter);
    ThenVarintSize(a, 8, writer);
    ThenVarintSize(b, 9, r.sequence);
    ThenVarintSize(c, 10, r.cohort);
    ThenVarintSize(d, 11, r.ordinal);
    ThenVarintSize(e, 12, r.envelopeID);
    ThenVarintSize(f, 13, r.executionID);
  }

  lemma {:induction false} TimestampsSize(r: Record, s: nat)
    requires 1 <= s <= STAGE_COUNT + 1
    ensures |EncodeFields(TimestampFields(r, s))| <= 12 * (STAGE_COUNT + 1 - s)
    decreases STAGE_COUNT + 1 - s
  {
    if s <= STAGE_COUNT {
      TimestampsSize(r, s + 1);
      if r.Has(s) {
        EncodeFieldsConcat([Varint(19 + s, ToUint64(r.ts[s]))], TimestampFields(r, s + 1));
        VarintSize(19 + s, ToUint64(r.ts[s]));
      } else {
        assert [] + TimestampFields(r, s + 1) == TimestampFields(r, s + 1);
      }
    }
  }

  lemma CountersSize(r: Record)
    ensures |EncodeFields(CounterFields(r))| <= 36
  {
    var a := OptVarint(40, r.logicalBytes);
    VarintSize(40, r.logicalBytes);
    ThenVarintSize(a, 41, r.envelopeBytes);
    ThenVarintSize(a + OptVarint(41, r.envelopeBytes), 42, r.batchSize);
  }

  lemma MembershipSize(r: Record)
    ensures |EncodeFields(MembershipFields(r))| <= 2 + 2 + MAX_MEMBERSHIP * MAX_VARINT + 12
  {
    PackUidsLength(r.membership);
    BytesSize(43, PackUids(r.membership), 2);
    ThenVarintSize(OptBytes(43, PackUids(r.membership)), 44, r.membershipCount);
  }

  lemma DispatchSize(r: Record)
    ensures |EncodeFields(DispatchFields(r))| <= 48
  {
    if r.hasDispatch {
      var d := r.dispatch;
      var a := [Varint(45, d.dispatched)];
      var b := a + [Varint(46, ToUint64(d.skewNanos))];
      var c := b + [Varint(47, ToUint64(d.cpuNanos))];
      VarintSize(45, d.dispatched);
      ThenVarintSize(a, 46, ToUint64(d.skewNanos));
      ThenVarintSize(b, 47, ToUint64(d.cpuNanos));
      ThenVarintSize(c, 48, d.cpuScope);
      assert c == [Varint(45, d.dispatched), Varint(46, ToUint64(d.skewNanos)), Varint(47, ToUint64(d.cpuNanos))];
    }
  }

  /** No record outgrows maxBodySize, so a bank with that much room never reallocates. */
  lemma RecordFitsBodyBound(r: Record, writer: uint32)
    ensures |EncodeFields(RecordFields(r, writer))| <= MAX_BODY_SIZE == 1055
  {
    var a, b, c, d := IdentityFields(r, writer), RequestIdField(r), OutcomeFields(r), TimestampFields(r);
    var e, f, g := CounterFields(r), MembershipFields(r), DispatchFields(r);
    IdentitySize(r, writer);
    RequestId.RenderLength(r.Request());
    BytesSize(14, RequestId.Render(r.Request()), 1);
    VarintSize(15, r.presence);
    ThenVarintSize(OptVarint(15, r.presence), 16, r.status);
    TimestampsSize(r, 1);
    CountersSize(r);
    MembershipSize(r);
    DispatchSize(r);
    EncodeFieldsConcat(a, b);
    EncodeFieldsConcat(a + b, c);
    EncodeFieldsConcat(a + b + c, d);
    EncodeFieldsConcat(a + b + c + d, e);
    EncodeFieldsConcat(a + b + c + d + e, f);
    EncodeFieldsConcat(a + b + c + d + e + f, g);
  }

  /* ---- Decoding ---- */

  /** Decode's state between fields. */
  datatype Reading = Reading(d: Decoded, countSeen: bool)

  const START := Reading(EMPTY_DECODED, false)

  function SetVarint(d: Decoded, number: nat, v: uint64): Decoded {
    var r := d.record;
    if 20 <= number < 20 + STAGE_COUNT then d.(record := r.(ts := r.ts[number - 19 := ToInt64(v)]))
    else if number == 1 then d.(schemaVersion := v % TWO_32)
    else if number == 7 then d.(record := r.(emitter := v % TWO_8))
    else if number == 8 then d.(header := d.header.(writerID := v % TWO_32))
    else if number == 9 then d.(record := r.(sequence := v))
    else if number == 10 then d.(record := r.(cohort := v % TWO_32))
    else if number == 11 then d.(record := r.(ordinal := v % TWO_32))
    else if number == 12 then d.(record := r.(envelopeID := v))
    else if number == 13 then d.(record := r.(executionID := v))
    else if number == 15 then d.(record := r.(presence := v % TWO_32))
    else if number == 16 then d.(record := r.(status := v % TWO_8))
    else if number == 40 then d.(record := r.(logicalBytes := v % TWO_32))
    else if number == 41 then d.(record := r.(envelopeBytes := v % TWO_32))
    else if number == 42 then d.(record := r.(batchSize := v % TWO_32))
    else if number == 44 then d.(record := r.(membershipCount := v % TWO_32))
    else if number == 45 then
      d.(record := r.(dispatch := r.dispatch.(dispatched := v % TWO_32), hasDispatch := true))
    else if number == 46 then
      d.(record := r.(dispatch := r.dispatch.(skewNanos := ToInt64(v)), hasDispatch := true))
    else if number == 47 then
      d.(record := r.(dispatch := r.dispatch.(cpuNanos := ToInt64(v)), hasDispatch := true))
    else if number == 48 then d.(record := r.(dispatch := r.dispatch.(cpuScope := v % TWO_8)))
    else d
  }

  function UnpackUids(payload: seq<byte>): Result<seq<int64>> {
    if payload == [] then Ok([])
    else match ReadUint64(payload)
      case None => Err(TruncatedUid)
      case Some((v, n)) =>
        match UnpackUids(payload[n..])
        case Err(e) => Err(e)
        case Ok(uids) => Ok([ToInt64(v)] + uids)
  }

  function SetBytes(d: Decoded, number: nat, payload: Bytes): Result<Decoded> {
    if number == 2 then Ok(d.(header := d.header.(experiment := payload)))
    else if number == 3 then Ok(d.(header := d.header.(session := payload)))
    else if number == 4 then Ok(d.(header := d.header.(run := payload)))
    else if number == 5 then Ok(d.(header := d.header.(cell := payload)))
    else if number == 6 then Ok(d.(header := d.header.(clockDomain := payload)))
    else if number == 43 then
      match UnpackUids(payload)
      case Err(e) => Err(e)
      case Ok(uids) => Ok(d.(record := d.record.SetMembership(uids)))
    else Ok(d)
  }

  function Apply(f: Field, st: Reading): Result<Reading> {
    match f
    case Varint(k, v) => Ok(Reading(SetVarint(st.d, k, v), st.countSeen || k == 44))
    case Delimited(k, p) =>
      match SetBytes(st.d, k, p)
      case Err(e) => Err(e)
      case Ok(d) => Ok(st.(d := d))
  }

  function ApplyAll(fs: seq<Field>, st: Reading): Result<Reading> {
    if fs == [] then Ok(st)
    else match Apply(fs[0], st)
      case Err(e) => Err(e)
      case Ok(next) => ApplyAll(fs[1..], next)
  }

  /** The membership count of a record that stored uids but carried no count. */
  function Finish(st: Reading): Decoded {
    if !st.countSeen && |st.d.record.membership| > 0
    then st.d.(record := st.d.record.(membershipCount := |st.d.record.membership|))
    else st.d
  }

  function DecodeFrom(b: Bytes, st: Reading): Result<Decoded>
    decreases |b|
  {
    if b == [] then Ok(Finish(st))
    else match ReadField(b)
      case Err(e) => Err(e)
      case Ok((f, n)) =>
        match Apply(f, st)
        case Err(e) => Err(e)
        case Ok(next) => DecodeFrom(b[n..], next)
  }

  /** The decoding of one message body. */
  function DecodeBody(b: Bytes): Result<Decoded> {
    DecodeFrom(b, START)
  }

  /** setBytes' loop over a packed uid list. */
  method ReadUids(payload: Bytes) returns (r: Result<seq<int64>>)
    ensures r == UnpackUids(payload)
  {
    var at, uids: seq<int64> := 0, [];
    assert payload[0..] == payload;
    assert forall more: seq<int64> :: [] + more == more;
    while at < |payload|
      invariant 0 <= at <= |payload|
      invariant UnpackUids(payload) ==
                (match UnpackUids(payload[at..]) case Err(e) => Err(e) case Ok(more) => Ok(uids + more))
    {
      var rest := payload[at..];
      var next := ReadUint64(rest);
      if next.None? {
        return Err(TruncatedUid);
      }
      var (v, n) := next.value;
      assert rest[n..] == payload[at + n..];
      assert forall more: seq<int64> :: uids + ([ToInt64(v)] + more) == uids + [ToInt64(v)] + more;
      at, uids := at + n, uids + [ToInt64(v)];
    }
    assert uids + [] == uids;
    r := Ok(uids);
  }

  /** The switch in Decode's loop: setVarint or setBytes. */
  method ApplyField(f: Field, st: Reading) returns (r: Result<Reading>)
    ensures r == Apply(f, st)
  {
    match f {
      case Varint(k, v) =>
        r := Ok(Reading(SetVarint(st.d, k, v), st.countSeen || k == 44));
      case Delimited(k, p) =>
        if k != 43 {
          return Ok(st.(d := SetBytes(st.d, k, p).value));
        }
        var uids := ReadUids(p);
        if uids.Err? {
          return Err(uids.error);
        }
        r := Ok(st.(d := st.d.(record := st.d.record.SetMembership(uids.value))));
    }
  }

  /** One turn of Decode's loop. */
  method DecodeField(b: Bytes, at: nat, st: Reading) returns (r: Result<(nat, Reading)>)
    requires at < |b|
    ensures r.Err? ==> DecodeFrom(b[at..], st) == Err(r.error)
    ensures r.Ok? ==> at < r.value.0 <= |b| && DecodeFrom(b[at..], st) == DecodeFrom(b[r.value.0..], r.value.1)
  {
    var rest: Bytes := b[at..];
    var field := ReadField(rest);
    if field.Err? {
      return Err(field.error);
    }
    var (f, n) := field.value;
    var next := ApplyField(f, st);
    if next.Err? {
      return Err(next.error);
    }
    assert rest[n..] == b[at + n..];
    r := Ok((at + n, next.value));
  }

  /** Decode: consume fields in order, filling the record. */
  method Decode(b: Bytes) returns (r: Result<Decoded>)
    ensures r == DecodeBody(b)
  {
    var at, st := 0, START;
    assert b[0..] == b;
    while at < |b|
      invariant 0 <= at <= |b|
      invariant DecodeBody(b) == DecodeFrom(b[at..], st)
    {
      var next := DecodeField(b, at, st);
      if next.Err? {
        return Err(next.error);
      }
      at, st := next.value.0, next.value.1;
    }
    r := Ok(Finish(st));
  }
}
