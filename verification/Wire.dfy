/**
 The Protocol Buffers wire format as the event codec uses it: base-128 varints
 ("Base 128 Varints"), tags, and varint and length-delimited fields.
 */
module Wire {
  import opened Identity
  import opened Schema

  datatype Option<+T> = None | Some(value: T)

  const MAX_VARINT: int := 10
  const WIRE_VARINT: int := 0
  const WIRE_LEN: int := 2

  /** binary.AppendUvarint onto an empty slice. */
  function Uvarint(v: nat): (b: seq<byte>)
    ensures |b| >= 1
  {
    if v < 0x80 then [v] else [0x80 + v % 0x80] + Uvarint(v / 0x80)
  }

  /**
   binary.Uvarint from byte index i of the varint: the value and the bytes consumed,
   None when the input ends inside the varint or the value does not fit 64 bits.
   */
  function ReadUvarint(b: seq<byte>, i: nat := 0): (r: Option<(nat, nat)>)
    ensures r.Some? ==> 1 <= r.value.1 <= |b|
  {
    if b == [] || i == MAX_VARINT then None
    else if b[0] < 0x80 then
      if i == MAX_VARINT - 1 && b[0] > 1 then None else Some((b[0], 1))
    else
      match ReadUvarint(b[1..], i + 1)
      case None => None
      case Some((v, n)) => Some((b[0] - 0x80 + 0x80 * v, n + 1))
  }

  /** How large a value the bytes from index i on may still hold. */
  function Room(i: nat): (r: nat)
    requires i < MAX_VARINT
    ensures r >= 2
    decreases MAX_VARINT - i
  {
    if i == MAX_VARINT - 1 then 2 else 0x80 * Room(i + 1)
  }

  lemma RoomAtStart()
    ensures Room(0) == TWO_64
  {
    assert Room(7) == 2 * 0x80 * 0x80;
    assert Room(5) == 2 * 0x80 * 0x80 * 0x80 * 0x80;
    assert Room(3) == 2 * 0x80 * 0x80 * 0x80 * 0x80 * 0x80 * 0x80;
    assert Room(1) == 2 * 0x80 * 0x80 * 0x80 * 0x80 * 0x80 * 0x80 * 0x80 * 0x80;
  }

  lemma {:induction false} UvarintReadsBackAt(v: nat, rest: seq<byte>, i: nat)
    requires i < MAX_VARINT && v < Room(i)
    ensures ReadUvarint(Uvarint(v) + rest, i) == Some((v, |Uvarint(v)|))
    ensures |Uvarint(v)| <= MAX_VARINT - i
    decreases MAX_VARINT - i
  {
    var b := Uvarint(v) + rest;
    if v >= 0x80 {
      assert v / 0x80 < Room(i + 1);
      assert b[1..] == Uvarint(v / 0x80) + rest;
      UvarintReadsBackAt(v / 0x80, rest, i + 1);
    }
  }

  /** Every 64-bit value survives its varint, whatever follows it, in at most ten bytes. */
  lemma UvarintReadsBack(v: uint64, rest: seq<byte>)
    ensures ReadUvarint(Uvarint(v) + rest) == Some((v, |Uvarint(v)|))
    ensures |Uvarint(v)| <= MAX_VARINT
  {
    RoomAtStart();
    UvarintReadsBackAt(v, rest, 0);
  }

  /** What a successful read returns fits 64 bits: the overflow test in the tenth byte is exact. */
  lemma {:induction false} ReadUvarintFits(b: seq<byte>, i: nat)
    requires i < MAX_VARINT
    ensures ReadUvarint(b, i).Some? ==> ReadUvarint(b, i).value.0 < Room(i)
    decreases MAX_VARINT - i
  {
    if b != [] {
      if b[0] >= 0x80 && i + 1 < MAX_VARINT {
        ReadUvarintFits(b[1..], i + 1);
      }
    }
  }

  function ReadUint64(b: seq<byte>): (r: Option<(uint64, nat)>)
    ensures r.Some? ==> 1 <= r.value.1 <= |b|
  {
    RoomAtStart();
    ReadUvarintFits(b, 0);
    match ReadUvarint(b)
    case None => None
    case Some((v, n)) => Some((v, n))
  }

  /** One field of a message body. */
  datatype Field =
    | Varint(number: nat, value: uint64)
    | Delimited(number: nat, payload: Bytes)
  {
    /** The field as appendVarintField, appendStringField and appendBytesField write it. */
    function Encode(): (b: seq<byte>)
      ensures |b| >= 2
    {
      match this
      case Varint(k, v) => Uvarint(k * 8 + WIRE_VARINT) + Uvarint(v)
      case Delimited(k, p) => Uvarint(k * 8 + WIRE_LEN) + Uvarint(|p|) + p
    }
  }

  function Flatten(parts: seq<seq<byte>>): seq<byte> {
    if parts == [] then [] else parts[0] + Flatten(parts[1..])
  }

  lemma {:induction false} FlattenConcat(a: seq<seq<byte>>, b: seq<seq<byte>>)
    ensures Flatten(a + b) == Flatten(a) + Flatten(b)
  {
    if a == [] {
      assert a + b == b;
    } else {
      FlattenConcat(a[1..], b);
      assert (a + b)[0] == a[0] && (a + b)[1..] == a[1..] + b;
    }
  }

  function Encodings(fs: seq<Field>): (e: seq<seq<byte>>)
    ensures |e| == |fs|
  {
    seq(|fs|, i requires 0 <= i < |fs| => fs[i].Encode())
  }

  function EncodeFields(fs: seq<Field>): seq<byte> {
    Flatten(Encodings(fs))
  }

  lemma EncodeOne(f: Field)
    ensures EncodeFields([f]) == f.Encode()
    ensures EncodeFields([]) == []
  {
    assert Encodings([f]) == [f.Encode()];
    assert Encodings([]) == [];
    assert Flatten([f.Encode()]) == f.Encode() + Flatten([]);
  }

  lemma EncodeFieldsConcat(a: seq<Field>, b: seq<Field>)
    ensures EncodeFields(a + b) == EncodeFields(a) + EncodeFields(b)
  {
    assert Encodings(a + b) == Encodings(a) + Encodings(b);
    FlattenConcat(Encodings(a), Encodings(b));
  }

  datatype Error =
    | TruncatedTag
    | TruncatedVarint(number: nat)
    | TruncatedBytes(number: nat)
    | UnsupportedWire(wire: nat, number: nat)
    | TruncatedUid

  datatype Result<+T> = Ok(value: T) | Err(error: Error)

  /** A length and that many bytes. */
  function ReadPayload(b: seq<byte>): (r: Option<(Bytes, nat)>)
    requires |b| < TWO_63
    ensures r.Some? ==> 1 <= r.value.1 <= |b|
  {
    match ReadUint64(b)
    case None => None
    case Some((size, m)) =>
      if |b| - m < size then None else Some((b[m..m + size], m + size))
  }

  /** Decode's reading of one field: the field and the bytes it occupied. */
  function ReadField(b: seq<byte>): (r: Result<(Field, nat)>)
    requires b != [] && |b| < TWO_63
    ensures r.Ok? ==> 2 <= r.value.1 <= |b|
  {
    match ReadUint64(b)
    case None => Err(TruncatedTag)
    case Some((tag, n)) =>
      var number, wire := tag / 8, tag % 8;
      var rest := b[n..];
      if wire == WIRE_VARINT then
        match ReadUint64(rest)
        case None => Err(TruncatedVarint(number))
        case Some((v, m)) => Ok((Varint(number, v), n + m))
      else if wire == WIRE_LEN then
        match ReadPayload(rest)
        case None => Err(TruncatedBytes(number))
        case Some((payload, m)) => Ok((Delimited(number, payload), n + m))
      else Err(UnsupportedWire(wire, number))
  }

  const MAX_FIELD_NUMBER: nat := 0x1FFF_FFFF

  /** Reading past a tag leaves the bytes that follow it. */
  lemma ReadTag(number: nat, wire: nat, tail: seq<byte>)
    requires number <= MAX_FIELD_NUMBER && wire < 8
    ensures var tag := Uvarint(number * 8 + wire);
            && ReadUint64(tag + tail) == Some((number * 8 + wire, |tag|))
            && (tag + tail)[|tag|..] == tail
  {
    UvarintReadsBack(number * 8 + wire, tail);
  }

  lemma ReadVarintEncoded(k: nat, v: uint64, rest: seq<byte>)
    requires k <= MAX_FIELD_NUMBER
    requires |Varint(k, v).Encode() + rest| < TWO_63
    ensures ReadField(Varint(k, v).Encode() + rest) == Ok((Varint(k, v), |Varint(k, v).Encode()|))
  {
    hide Uvarint, ReadUvarint;
    var tag, tail := Uvarint(k * 8 + WIRE_VARINT), Uvarint(v) + rest;
    assert Varint(k, v).Encode() + rest == tag + tail;
    ReadTag(k, WIRE_VARINT, tail);
    UvarintReadsBack(v, rest);
  }

  lemma ReadPayloadAfter(size: seq<byte>, p: Bytes, rest: seq<byte>)
    requires |size + (p + rest)| < TWO_63
    requires ReadUint64(size + (p + rest)) == Some((|p|, |size|))
    ensures ReadPayload(size + (p + rest)) == Some((p, |size| + |p|))
  {
    hide ReadUint64;
    assert (size + (p + rest))[|size|..|size| + |p|] == p;
  }

  lemma ReadDelimitedEncoded(k: nat, p: Bytes, rest: seq<byte>)
    requires k <= MAX_FIELD_NUMBER
    requires |Delimited(k, p).Encode() + rest| < TWO_63
    ensures ReadField(Delimited(k, p).Encode() + rest) == Ok((Delimited(k, p), |Delimited(k, p).Encode()|))
  {
    hide Uvarint, ReadUvarint, ReadPayload;
    var tag, size := Uvarint(k * 8 + WIRE_LEN), Uvarint(|p|);
    var tail := size + (p + rest);
    assert Delimited(k, p).Encode() + rest == tag + tail;
    ReadTag(k, WIRE_LEN, tail);
    UvarintReadsBack(|p|, p + rest);
    ReadPayloadAfter(size, p, rest);
  }

  /** A well-formed field is read back exactly, whatever follows it. */
  lemma ReadFieldEncoded(f: Field, rest: seq<byte>)
    requires f.number <= MAX_FIELD_NUMBER
    requires |f.Encode() + rest| < TWO_63
    ensures ReadField(f.Encode() + rest) == Ok((f, |f.Encode()|))
  {
    match f {
      case Varint(k, v) => ReadVarintEncoded(k, v, rest);
      case Delimited(k, p) => ReadDelimitedEncoded(k, p, rest);
    }
  }

  function VarintLen(v: nat): nat {
    |Uvarint(v)|
  }
}
