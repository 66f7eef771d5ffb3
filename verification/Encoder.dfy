/**
 The append functions of internal/events/codec.go, run in place: a slice being
 appended to is the part of the buffer from `start` up to `at`, and nothing outside
 it may change. The buffer never grows, so each append demands its room up front.
 */
module Encoder {
  import opened Identity
  import opened Schema
  import opened Wire
  import opened Codec
  import RequestId

  /** s with x written over it at index `at`. */
  function Splice(s: seq<byte>, at: nat, x: seq<byte>): (r: seq<byte>)
    requires at + |x| <= |s|
    ensures |r| == |s|
  {
    s[..at] + x + s[at + |x|..]
  }

  lemma SpliceTwice(s: seq<byte>, at: nat, x: seq<byte>, y: seq<byte>)
    requires at + |x| + |y| <= |s|
    ensures Splice(Splice(s, at, x), at + |x|, y) == Splice(s, at, x + y)
  {
    var once := Splice(s, at, x);
    assert once[..at + |x|] == s[..at] + x;
    assert once[at + |x| + |y|..] == s[at + |x| + |y|..];
  }

  lemma SpliceParts(s: seq<byte>, at: nat, x: seq<byte>, lo: nat, hi: nat)
    requires at + |x| <= lo <= hi <= |s|
    ensures Splice(s, at, x)[..at + |x|] == s[..at] + x
    ensures Splice(s, at, x)[lo..hi] == s[lo..hi]
  {
  }

  /** The buffer holds exactly the fields fs from start on, and is otherwise as it was in s0. */
  ghost predicate Appended(buf: array<byte>, s0: seq<byte>, start: nat, at: nat, fs: seq<Field>)
    reads buf
  {
    && |s0| == buf.Length
    && at == start + |EncodeFields(fs)| <= buf.Length
    && buf[..] == Splice(s0, start, EncodeFields(fs))
  }

  lemma AppendedExtends(s0: seq<byte>, s1: seq<byte>, s2: seq<byte>, start: nat, fs: seq<Field>, more: seq<Field>)
    requires start + |EncodeFields(fs)| + |EncodeFields(more)| <= |s0|
    requires s1 == Splice(s0, start, EncodeFields(fs))
    requires s2 == Splice(s1, start + |EncodeFields(fs)|, EncodeFields(more))
    ensures |EncodeFields(fs + more)| == |EncodeFields(fs)| + |EncodeFields(more)|
    ensures s2 == Splice(s0, start, EncodeFields(fs + more))
  {
    SpliceTwice(s0, start, EncodeFields(fs), EncodeFields(more));
    EncodeFieldsConcat(fs, more);
  }

  method AppendUvarint(buf: array<byte>, start: nat, v: nat) returns (at: nat)
    requires start + |Uvarint(v)| <= buf.Length
    modifies buf
    ensures at == start + |Uvarint(v)|
    ensures buf[..] == Splice(old(buf[..]), start, Uvarint(v))
  {
    at := start;
    var rest := v;
    ghost var done: seq<byte> := [];
    assert done + Uvarint(rest) == Uvarint(v);
    while rest >= 0x80
      invariant at == start + |done| && at + |Uvarint(rest)| <= buf.Length
      invariant done + Uvarint(rest) == Uvarint(v)
      invariant buf[..] == Splice(old(buf[..]), start, done)
    {
      assert done + ([0x80 + rest % 0x80] + Uvarint(rest / 0x80)) == done + [0x80 + rest % 0x80] + Uvarint(rest / 0x80);
      AppendByte(buf, start, at, 0x80 + rest % 0x80, old(buf[..]), done);
      done := done + [0x80 + rest % 0x80];
      at, rest := at + 1, rest / 0x80;
    }
    AppendByte(buf, start, at, rest, old(buf[..]), done);
    at := at + 1;
  }

  /** One byte onto a slice that already holds `done`. */
  method AppendByte(buf: array<byte>, ghost start: nat, at: nat, b: byte, ghost s0: seq<byte>, ghost done: seq<byte>)
    requires |s0| == buf.Length && at == start + |done| < buf.Length
    requires buf[..] == Splice(s0, start, done)
    modifies buf
    ensures buf[..] == Splice(s0, start, done + [b])
  {
    ghost var was := buf[..];
    buf[at] := b;
    assert buf[..] == Splice(was, at, [b]);
    SpliceTwice(s0, start, done, [b]);
  }

  method AppendBytes(buf: array<byte>, start: nat, s: seq<byte>) returns (at: nat)
    requires start + |s| <= buf.Length
    modifies buf
    ensures at == start + |s|
    ensures buf[..] == Splice(old(buf[..]), start, s)
  {
    at := start;
    while at < start + |s|
      invariant start <= at <= start + |s|
      invariant buf[..] == Splice(old(buf[..]), start, s[..at - start])
    {
      AppendByte(buf, start, at, s[at - start], old(buf[..]), s[..at - start]);
      assert s[..at - start] + [s[at - start]] == s[..at + 1 - start];
      at := at + 1;
    }
    assert s[..at - start] == s;
  }

  /** A tag and a varint, written even when the value is zero. */
  method AppendTagged(buf: array<byte>, ghost s0: seq<byte>, ghost start: nat, at: nat, ghost fs: seq<Field>,
                      number: nat, v: uint64)
    returns (next: nat)
    requires Appended(buf, s0, start, at, fs)
    requires number < 1024 && at + 12 <= buf.Length
    modifies buf
    ensures next <= at + 12
    ensures Appended(buf, s0, start, next, fs + [Varint(number, v)])
  {
    hide Splice, EncodeFields, Uvarint;
    ghost var s1 := buf[..];
    TagSize(number, WIRE_VARINT);
    UvarintReadsBack(v, []);
    next := AppendUvarint(buf, at, number * 8 + WIRE_VARINT);
    next := AppendUvarint(buf, next, v);
    SpliceTwice(s1, at, Uvarint(number * 8 + WIRE_VARINT), Uvarint(v));
    EncodeOne(Varint(number, v));
    AppendedExtends(s0, s1, buf[..], start, fs, [Varint(number, v)]);
  }

  /** appendVarintField. */
  method AppendVarintField(buf: array<byte>, ghost s0: seq<byte>, ghost start: nat, at: nat, ghost fs: seq<Field>,
                           number: nat, v: uint64)
    returns (next: nat)
    requires Appended(buf, s0, start, at, fs)
    requires number < 1024 && at + 12 <= buf.Length
    modifies buf
    ensures next <= at + 12
    ensures Appended(buf, s0, start, next, fs + OptVarint(number, v))
  {
    if v == 0 {
      assert fs + [] == fs;
      return at;
    }
    next := AppendTagged(buf, s0, start, at, fs, number, v);
  }

  lemma DelimitedEncoding(number: nat, s: Bytes)
    ensures EncodeFields([Delimited(number, s)]) == Length(number, |s|) + s
  {
    EncodeOne(Delimited(number, s));
  }

  method AppendDelimited(buf: array<byte>, start: nat, number: nat, s: Bytes) returns (at: nat)
    requires start + |Length(number, |s|)| + |s| <= buf.Length
    modifies buf
    ensures Appended(buf, old(buf[..]), start, at, [Delimited(number, s)])
  {
    hide Splice, Length, EncodeFields;
    DelimitedEncoding(number, s);
    at := AppendLength(buf, start, number, |s|);
    at := AppendBytes(buf, at, s);
    SpliceTwice(old(buf[..]), start, Length(number, |s|), s);
  }

  /** appendBytesField. */
  method AppendBytesField(buf: array<byte>, ghost s0: seq<byte>, ghost start: nat, at: nat, ghost fs: seq<Field>,
                          number: nat, s: Bytes)
    returns (next: nat)
    requires Appended(buf, s0, start, at, fs)
    requires number < 1024 && at + 2 + |Uvarint(|s|)| + |s| <= buf.Length
    modifies buf
    ensures next <= at + 2 + |Uvarint(|s|)| + |s|
    ensures Appended(buf, s0, start, next, fs + OptBytes(number, s))
  {
    if s == [] {
      assert fs + [] == fs;
      return at;
    }
    hide Splice, EncodeFields, Length;
    DelimitedEncoding(number, s);
    next := AppendDelimited(buf, at, number, s);
    AppendedExtends(s0, old(buf[..]), buf[..], start, fs, [Delimited(number, s)]);
  }

  /** The tag and length that precede a length-delimited payload. */
  function Length(number: nat, size: nat): (b: seq<byte>)
    ensures number < 1024 ==> |b| <= 2 + |Uvarint(size)|
  {
    if number < 1024 then TagSize(number, WIRE_LEN); Uvarint(number * 8 + WIRE_LEN) + Uvarint(size)
    else Uvarint(number * 8 + WIRE_LEN) + Uvarint(size)
  }

  method AppendLength(buf: array<byte>, start: nat, number: nat, size: nat) returns (at: nat)
    requires start + |Length(number, size)| <= buf.Length
    modifies buf
    ensures at == start + |Length(number, size)|
    ensures buf[..] == Splice(old(buf[..]), start, Length(number, size))
  {
    ghost var s0 := buf[..];
    at := AppendUvarint(buf, start, number * 8 + WIRE_LEN);
    at := AppendUvarint(buf, at, size);
    SpliceTwice(s0, start, Uvarint(number * 8 + WIRE_LEN), Uvarint(size));
  }

  lemma NothingAppended(s: seq<byte>, at: nat)
    requires at <= |s|
    ensures EncodeFields([]) == [] && Splice(s, at, EncodeFields([])) == s
  {
    EncodeOne(Varint(1, 1));
  }

  method AppendIdentity(buf: array<byte>, start: nat, r: Record, writer: uint32) returns (at: nat)
    requires start + 84 <= buf.Length
    modifies buf
    ensures at <= start + 84
    ensures Appended(buf, old(buf[..]), start, at, IdentityFields(r, writer))
  {
    ghost var s0 := buf[..];
    ghost var a := OptVarint(7, r.emitter);
    ghost var b := a + OptVarint(8, writer);
    ghost var c := b + OptVarint(9, r.sequence);
    ghost var d := c + OptVarint(10, r.cohort);
    ghost var e := d + OptVarint(11, r.ordinal);
    ghost var f := e + OptVarint(12, r.envelopeID);
    NothingAppended(s0, start);
    assert [] + a == a;
    at := AppendVarintField(buf, s0, start, start, [], 7, r.emitter);
    at := AppendVarintField(buf, s0, start, at, a, 8, writer);
    at := AppendVarintField(buf, s0, start, at, b, 9, r.sequence);
    at := AppendVarintField(buf, s0, start, at, c, 10, r.cohort);
    at := AppendVarintField(buf, s0, start, at, d, 11, r.ordinal);
    at := AppendVarintField(buf, s0, start, at, e, 12, r.envelopeID);
    at := AppendVarintField(buf, s0, start, at, f, 13, r.executionID);
  }

  method AppendRequestIdAndOutcome(buf: array<byte>, start: nat, r: Record) returns (at: nat)
    requires start + 51 <= buf.Length
    modifies buf
    ensures at <= start + 51
    ensures Appended(buf, old(buf[..]), start, at, RequestIdField(r) + OutcomeFields(r))
  {
    ghost var s0 := buf[..];
    RequestId.RenderLength(r.Request());
    var id := RequestId.Render(r.Request());
    NothingAppended(s0, start);
    ghost var a := RequestIdField(r);
    assert [] + a == a;
    at := AppendBytesField(buf, s0, start, start, [], 14, id);
    at := AppendVarintField(buf, s0, start, at, a, 15, r.presence);
    at := AppendVarintField(buf, s0, start, at, a + OptVarint(15, r.presence), 16, r.status);
    assert a + OutcomeFields(r) == a + OptVarint(15, r.presence) + OptVarint(16, r.status);
  }

  method AppendStage(buf: array<byte>, ghost s0: seq<byte>, ghost start: nat, at: nat, ghost fs: seq<Field>,
                     r: Record, s: Stage)
    returns (next: nat)
    requires Appended(buf, s0, start, at, fs) && at + 12 <= buf.Length
    modifies buf
    ensures next <= at + 12
    ensures Appended(buf, s0, start, next, fs + StageField(r, s))
  {
    if !r.Has(s) {
      assert fs + [] == fs;
      return at;
    }
    next := AppendTagged(buf, s0, start, at, fs, 19 + s, ToUint64(r.ts[s]));
  }

  /** The loop over the present stages. */
  method AppendTimestamps(buf: array<byte>, start: nat, r: Record) returns (at: nat)
    requires start + 12 * STAGE_COUNT <= buf.Length
    modifies buf
    ensures at <= start + 12 * STAGE_COUNT
    ensures Appended(buf, old(buf[..]), start, at, TimestampFields(r))
  {
    hide Splice, EncodeFields, StageField;
    ghost var s0 := buf[..];
    at := start;
    NothingAppended(s0, start);
    var s := 1;
    ghost var fs: seq<Field> := [];
    assert fs + TimestampFields(r, 1) == TimestampFields(r, 1);
    while s <= STAGE_COUNT
      invariant 1 <= s <= STAGE_COUNT + 1
      invariant at <= start + 12 * (s - 1)
      invariant fs + TimestampFields(r, s) == TimestampFields(r, 1)
      invariant Appended(buf, s0, start, at, fs)
    {
      assert fs + (StageField(r, s) + TimestampFields(r, s + 1)) == fs + StageField(r, s) + TimestampFields(r, s + 1);
      at := AppendStage(buf, s0, start, at, fs, r, s);
      fs, s := fs + StageField(r, s), s + 1;
    }
    assert fs + [] == fs;
  }

  method AppendCounters(buf: array<byte>, start: nat, r: Record) returns (at: nat)
    requires start + 36 <= buf.Length
    modifies buf
    ensures at <= start + 36
    ensures Appended(buf, old(buf[..]), start, at, CounterFields(r))
  {
    ghost var s0 := buf[..];
    ghost var a := OptVarint(40, r.logicalBytes);
    NothingAppended(s0, start);
    assert [] + a == a;
    at := AppendVarintField(buf, s0, start, start, [], 40, r.logicalBytes);
    at := AppendVarintField(buf, s0, start, at, a, 41, r.envelopeBytes);
    at := AppendVarintField(buf, s0, start, at, a + OptVarint(41, r.envelopeBytes), 42, r.batchSize);
  }

  /** The packed list's length, summed before anything is written. */
  method PackedSize(uids: Uids) returns (payload: nat)
    ensures payload == |PackUids(uids)| <= MAX_VARINT * |uids|
  {
    PackUidsLength(uids);
    payload := 0;
    assert uids[0..] == uids;
    for i := 0 to |uids|
      invariant payload + |PackUids(uids[i..])| == |PackUids(uids)|
    {
      assert PackUids(uids[i..]) == Uvarint(ToUint64(uids[i])) + PackUids(uids[i + 1..]);
      payload := payload + VarintLen(ToUint64(uids[i]));
    }
  }

  method AppendPacked(buf: array<byte>, start: nat, uids: Uids) returns (at: nat)
    requires start + |PackUids(uids)| <= buf.Length
    modifies buf
    ensures at == start + |PackUids(uids)|
    ensures buf[..] == Splice(old(buf[..]), start, PackUids(uids))
  {
    ghost var s0, packed := buf[..], PackUids(uids);
    ghost var done: seq<byte> := [];
    at := start;
    assert uids[0..] == uids && done + packed == packed;
    for i := 0 to |uids|
      invariant done + PackUids(uids[i..]) == packed
      invariant at == start + |done|
      invariant buf[..] == Splice(s0, start, done)
    {
      ghost var head, tail := Uvarint(ToUint64(uids[i])), PackUids(uids[i + 1..]);
      assert PackUids(uids[i..]) == head + tail;
      assert done + (head + tail) == done + head + tail;
      at := AppendUvarint(buf, at, ToUint64(uids[i]));
      SpliceTwice(s0, start, done, head);
      done := done + head;
    }
    assert done + [] == done;
  }

  method AppendUids(buf: array<byte>, start: nat, uids: Uids) returns (at: nat)
    requires uids != [] && start + 644 <= buf.Length
    modifies buf
    ensures at <= start + 644
    ensures |PackUids(uids)| < TWO_63 && Appended(buf, old(buf[..]), start, at, [Delimited(43, PackUids(uids))])
  {
    ghost var s0 := buf[..];
    var payload := PackedSize(uids);
    assert |Uvarint(payload)| <= 2;
    at := AppendLength(buf, start, 43, payload);
    at := AppendPacked(buf, at, uids);
    SpliceTwice(s0, start, Length(43, payload), PackUids(uids));
    EncodeOne(Delimited(43, PackUids(uids)));
  }

  method AppendMembership(buf: array<byte>, start: nat, r: Record) returns (at: nat)
    requires start + 656 <= buf.Length
    modifies buf
    ensures at <= start + 656
    ensures Appended(buf, old(buf[..]), start, at, MembershipFields(r))
  {
    ghost var s0 := buf[..];
    PackUidsLength(r.membership);
    NothingAppended(s0, start);
    at := start;
    if r.membership != [] {
      at := AppendUids(buf, start, r.membership);
    }
    at := AppendVarintField(buf, s0, start, at, OptBytes(43, PackUids(r.membership)), 44, r.membershipCount);
  }

  method AppendDispatch(buf: array<byte>, start: nat, r: Record) returns (at: nat)
    requires start + 48 <= buf.Length
    modifies buf
    ensures at <= start + 48
    ensures Appended(buf, old(buf[..]), start, at, DispatchFields(r))
  {
    ghost var s0 := buf[..];
    NothingAppended(s0, start);
    at := start;
    if r.hasDispatch {
      var d := r.dispatch;
      ghost var f45, f46, f47 :=
        Varint(45, d.dispatched), Varint(46, ToUint64(d.skewNanos)), Varint(47, ToUint64(d.cpuNanos));
      at := AppendTagged(buf, s0, start, at, [], 45, d.dispatched);
      assert [] + [f45] == [f45];
      at := AppendTagged(buf, s0, start, at, [f45], 46, ToUint64(d.skewNanos));
      at := AppendTagged(buf, s0, start, at, [f45] + [f46], 47, ToUint64(d.cpuNanos));
      assert [f45] + [f46] + [f47] == [f45, f46, f47];
      at := AppendVarintField(buf, s0, start, at, [f45, f46, f47], 48, d.cpuScope);
    }
  }

  lemma ThreeAppended(s0: seq<byte>, s1: seq<byte>, s2: seq<byte>, s3: seq<byte>, start: nat,
                      a: seq<Field>, b: seq<Field>, c: seq<Field>)
    requires start + |EncodeFields(a)| + |EncodeFields(b)| + |EncodeFields(c)| <= |s0|
    requires s1 == Splice(s0, start, EncodeFields(a))
    requires s2 == Splice(s1, start + |EncodeFields(a)|, EncodeFields(b))
    requires s3 == Splice(s2, start + |EncodeFields(a)| + |EncodeFields(b)|, EncodeFields(c))
    ensures |EncodeFields(a + b + c)| == |EncodeFields(a)| + |EncodeFields(b)| + |EncodeFields(c)|
    ensures s3 == Splice(s0, start, EncodeFields(a + b + c))
  {
    AppendedExtends(s0, s1, s2, start, a, b);
    AppendedExtends(s0, s2, s3, start, a + b, c);
  }

  /** The record's first four groups. */
  method AppendPath(buf: array<byte>, start: nat, r: Record, writer: uint32) returns (at: nat)
    requires start + 135 + 12 * STAGE_COUNT <= buf.Length
    modifies buf
    ensures at <= start + 135 + 12 * STAGE_COUNT
    ensures Appended(buf, old(buf[..]), start, at,
                     IdentityFields(r, writer) + (RequestIdField(r) + OutcomeFields(r)) + TimestampFields(r))
  {
    hide Splice, EncodeFields, IdentityFields, RequestIdField, OutcomeFields, TimestampFields;
    at := AppendIdentity(buf, start, r, writer);
    label identity:
    at := AppendRequestIdAndOutcome(buf, at, r);
    label outcome:
    at := AppendTimestamps(buf, at, r);
    ThreeAppended(old(buf[..]), old@identity(buf[..]), old@outcome(buf[..]), buf[..], start,
                  IdentityFields(r, writer), RequestIdField(r) + OutcomeFields(r), TimestampFields(r));
  }

  /** The record's last three groups. */
  method AppendEvidence(buf: array<byte>, start: nat, r: Record) returns (at: nat)
    requires start + 740 <= buf.Length
    modifies buf
    ensures at <= start + 740
    ensures Appended(buf, old(buf[..]), start, at, CounterFields(r) + MembershipFields(r) + DispatchFields(r))
  {
    hide Splice, EncodeFields, CounterFields, MembershipFields, DispatchFields;
    at := AppendCounters(buf, start, r);
    label counters:
    at := AppendMembership(buf, at, r);
    label membership:
    at := AppendDispatch(buf, at, r);
    ThreeAppended(old(buf[..]), old@counters(buf[..]), old@membership(buf[..]), buf[..], start,
                  CounterFields(r), MembershipFields(r), DispatchFields(r));
  }

  lemma RecordFieldsSplit(r: Record, writer: uint32)
    ensures RecordFields(r, writer)
         == (IdentityFields(r, writer) + (RequestIdField(r) + OutcomeFields(r)) + TimestampFields(r))
            + (CounterFields(r) + MembershipFields(r) + DispatchFields(r))
  {
    ConcatSplit(IdentityFields(r, writer), RequestIdField(r), OutcomeFields(r), TimestampFields(r),
                CounterFields(r), MembershipFields(r), DispatchFields(r));
  }

  lemma ConcatSplit<T>(a: seq<T>, b: seq<T>, c: seq<T>, d: seq<T>, e: seq<T>, f: seq<T>, g: seq<T>)
    ensures a + b + c + d + e + f + g == (a + (b + c) + d) + (e + f + g)
  {
    assert a + b + c == a + (b + c);
    assert a + b + c + d + (e + f + g) == a + b + c + d + e + f + g;
  }

  /** appendRecord: the buffer gains exactly the record's fields, in at most maxBodySize bytes. */
  method AppendRecord(buf: array<byte>, start: nat, r: Record, writer: uint32) returns (at: nat)
    requires start + MAX_BODY_SIZE <= buf.Length
    modifies buf
    ensures at <= start + MAX_BODY_SIZE
    ensures Appended(buf, old(buf[..]), start, at, RecordFields(r, writer))
  {
    ghost var s0 := buf[..];
    at := AppendPath(buf, start, r, writer);
    ghost var s1 := buf[..];
    at := AppendEvidence(buf, at, r);
    ghost var head := IdentityFields(r, writer) + (RequestIdField(r) + OutcomeFields(r)) + TimestampFields(r);
    ghost var tail := CounterFields(r) + MembershipFields(r) + DispatchFields(r);
    AppendedExtends(s0, s1, buf[..], start, head, tail);
    RecordFieldsSplit(r, writer);
  }
}
