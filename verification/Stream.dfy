/** The length-delimited record stream and its offline reader (internal/events/writer.go, ReadStream). */
module Stream {
  import opened Identity
  import opened Schema
  import opened Wire
  import opened Codec
  import RoundTrip

  /** One record on the stream: its body behind the body's length. */
  function Frame(body: seq<byte>): seq<byte> {
    Uvarint(|body|) + body
  }

  function Frames(h: RunHeader, records: seq<Record>): (f: seq<seq<byte>>)
    ensures |f| == |records|
  {
    seq(|records|, i requires 0 <= i < |records| => Frame(Body(h, records[i])))
  }

  function StreamOf(h: RunHeader, records: seq<Record>): seq<byte> {
    Flatten(Frames(h, records))
  }

  lemma StreamAppend(h: RunHeader, records: seq<Record>, r: Record)
    ensures StreamOf(h, records + [r]) == StreamOf(h, records) + Frame(Body(h, r))
  {
    hide Frame, Body;
    var one := [Frame(Body(h, r))];
    assert Frames(h, records + [r]) == Frames(h, records) + one;
    FlattenConcat(Frames(h, records), one);
    assert Flatten(one) == one[0] + Flatten([]);
  }

  datatype StreamError = BadLength | ShortBody | BadRecord(error: Error)

  /** ReadStream's two results: the records before the first fault, and the fault. */
  datatype Contents = Contents(records: seq<Decoded>, error: Option<StreamError>)

  function Prepend(d: Decoded, c: Contents): Contents {
    c.(records := [d] + c.records)
  }

  function ReadStream(b: Bytes): Contents
    decreases |b|
  {
    if b == [] then Contents([], None)
    else match ReadUint64(b)
      case None => Contents([], Some(BadLength))
      case Some((size, n)) =>
        if |b| - n < size then Contents([], Some(ShortBody))
        else match DecodeBody(b[n..n + size])
          case Err(e) => Contents([], Some(BadRecord(e)))
          case Ok(d) => Prepend(d, ReadStream(b[n + size..]))
  }

  function Read(h: RunHeader, records: seq<Record>): (d: seq<Decoded>)
    ensures |d| == |records|
  {
    seq(|records|, i requires 0 <= i < |records| => Decoded(SCHEMA_VERSION, h, RoundTrip.Canonical(records[i])))
  }

  lemma ReadFrame(body: Bytes, rest: seq<byte>)
    requires |Frame(body) + rest| < TWO_63
    requires DecodeBody(body).Ok?
    ensures ReadStream(Frame(body) + rest) == Prepend(DecodeBody(body).value, ReadStream(rest))
  {
    hide DecodeBody, Uvarint, ReadUvarint;
    var size, b := Uvarint(|body|), Frame(body) + rest;
    assert b == size + (body + rest);
    UvarintReadsBack(|body|, body + rest);
    assert b[|size|..|size| + |body|] == body;
    assert b[|size| + |body|..] == rest;
  }

  lemma StreamHead(h: RunHeader, records: seq<Record>)
    requires records != []
    ensures StreamOf(h, records) == Frame(Body(h, records[0])) + StreamOf(h, records[1..])
  {
    hide Body, Frame;
    var one := [Frame(Body(h, records[0]))];
    assert Frames(h, records) == one + Frames(h, records[1..]);
    FlattenConcat(one, Frames(h, records[1..]));
    assert Flatten(one) == one[0] + Flatten([]);
  }

  /** Reading the frames of any records returns them all, in canonical form, with no error. */
  lemma {:induction false} ReadStreamOf(h: RunHeader, records: seq<Record>)
    requires |StreamOf(h, records)| < TWO_63
    ensures ReadStream(StreamOf(h, records)) == Contents(Read(h, records), None)
  {
    hide DecodeBody, Body, ReadStream, RoundTrip.Canonical;
    if records == [] {
      assert Frames(h, records) == [];
      NothingToRead();
    } else {
      var body, tail := Body(h, records[0]), StreamOf(h, records[1..]);
      StreamHead(h, records);
      hide StreamOf;
      RoundTrip.DecodeBodyOf(h, records[0]);
      ReadFrame(body, tail);
      ReadStreamOf(h, records[1..]);
      assert Read(h, records) == [DecodeBody(body).value] + Read(h, records[1..]);
    }
  }

  /** One turn of ReadStream's loop: the record and where the next one starts. */
  method ReadRecord(b: Bytes) returns (d: Option<Decoded>, size: nat, error: Option<StreamError>)
    requires b != []
    ensures d.None? ==> ReadStream(b) == Contents([], error)
    ensures d.Some? ==> 1 <= size <= |b| && ReadStream(b) == Prepend(d.value, ReadStream(b[size..]))
  {
    d, size := None, 0;
    var length := ReadUint64(b);
    if length.None? {
      return None, 0, Some(BadLength);
    }
    var (bytes, n) := length.value;
    if |b| - n < bytes {
      return None, 0, Some(ShortBody);
    }
    var decoded := Decode(b[n..n + bytes]);
    if decoded.Err? {
      return None, 0, Some(BadRecord(decoded.error));
    }
    d, size, error := Some(decoded.value), n + bytes, None;
  }

  /** ReadStream's loop. */
  method ReadAll(b: Bytes) returns (c: Contents)
    ensures c == ReadStream(b)
  {
    hide ReadStream;
    var at, records: seq<Decoded> := 0, [];
    assert b[0..] == b;
    assert forall d: seq<Decoded> :: [] + d == d;
    while at < |b|
      invariant 0 <= at <= |b|
      invariant ReadStream(b) == Contents(records + ReadStream(b[at..]).records, ReadStream(b[at..]).error)
    {
      var rest: Bytes := b[at..];
      var d, size, error := ReadRecord(rest);
      if d.None? {
        assert records + [] == records;
        return Contents(records, error);
      }
      assert rest[size..] == b[at + size..];
      ghost var more := ReadStream(b[at + size..]).records;
      assert records + ([d.value] + more) == records + [d.value] + more;
      at, records := at + size, records + [d.value];
    }
    assert b[at..] == [];
    NothingToRead();
    assert records + [] == records;
    c := Contents(records, None);
  }

  lemma NothingToRead()
    ensures ReadStream([]) == Contents([], None)
  {
  }

  /* ---- A stream cut short ---- */

  /** No varint is read from a varint's beginning. */
  lemma {:induction false} CutVarint(v: nat, k: nat, i: nat)
    requires k < |Uvarint(v)| && i <= MAX_VARINT
    ensures ReadUvarint(Uvarint(v)[..k], i).None?
  {
    if k > 0 && i < MAX_VARINT {
      assert v >= 0x80 && Uvarint(v)[..k][0] == Uvarint(v)[0];
      assert Uvarint(v)[..k][1..] == Uvarint(v / 0x80)[..k - 1];
      CutVarint(v / 0x80, k - 1, i + 1);
    }
  }

  /** A frame's beginning is an error: of its length, or of its body. */
  lemma CutFrame(body: Bytes, k: nat)
    requires 0 < k < |Frame(body)| < TWO_63
    ensures ReadStream(Frame(body)[..k])
         == Contents([], Some(if k < |Uvarint(|body|)| then BadLength else ShortBody))
  {
    hide DecodeBody, ReadUvarint, Uvarint;
    var size, b := Uvarint(|body|), Frame(body)[..k];
    if k < |size| {
      assert b == size[..k];
      CutVarint(|body|, k, 0);
    } else {
      assert b == size + body[..k - |size|];
      UvarintReadsBack(|body|, body[..k - |size|]);
    }
  }

  /**
   A stream cut anywhere: the records whose frames are whole are returned, canonically, and an error
   exactly where the cut falls inside a frame.
   */
  lemma {:induction false} CutStream(h: RunHeader, records: seq<Record>, k: nat) returns (m: nat)
    requires k <= |StreamOf(h, records)| < TWO_63
    ensures m <= |records| && |StreamOf(h, records[..m])| <= k
    ensures m < |records| ==> k < |StreamOf(h, records[..m + 1])|
    ensures var c := ReadStream(StreamOf(h, records)[..k]);
            && c.records == Read(h, records[..m])
            && (c.error.None? <==> k == |StreamOf(h, records[..m])|)
            && (c.error.Some? ==> c.error.value == BadLength || c.error.value == ShortBody)
  {
    hide Frame, Body, DecodeBody, ReadStream, RoundTrip.Canonical;
    NoFrames(h);
    if records == [] {
      m := 0;
      NothingToRead();
    } else {
      StreamHead(h, records);
      var body, tail := Body(h, records[0]), StreamOf(h, records[1..]);
      OneFrame(h, records);
      FrameHolds(body);
      if k < |Frame(body)| {
        m := 0;
        assert StreamOf(h, records)[..k] == Frame(body)[..k];
        if k > 0 { CutFrame(body, k); } else { NothingToRead(); }
      } else {
        var rest := k - |Frame(body)|;
        var n := CutStream(h, records[1..], rest);
        m := n + 1;
        assert StreamOf(h, records)[..k] == Frame(body) + tail[..rest];
        RoundTrip.DecodeBodyOf(h, records[0]);
        ReadFrame(body, tail[..rest]);
        StreamPrefix(h, records, m);
        if m < |records| { StreamPrefix(h, records, m + 1); }
        assert Read(h, records[..m]) == [DecodeBody(body).value] + Read(h, records[1..][..n]);
      }
    }
  }

  lemma FrameHolds(body: seq<byte>)
    ensures |Frame(body)| > |body|
  {
  }

  lemma NoFrames(h: RunHeader)
    ensures StreamOf(h, []) == [] && Read(h, []) == []
  {
    assert Frames(h, []) == [];
  }

  lemma OneFrame(h: RunHeader, records: seq<Record>)
    requires records != []
    ensures records[..0] == [] && StreamOf(h, records[..1]) == Frame(Body(h, records[0]))
  {
    StreamHead(h, records[..1]);
    NoFrames(h);
    assert records[..1][1..] == [];
  }

  lemma StreamPrefix(h: RunHeader, records: seq<Record>, m: nat)
    requires 0 < m <= |records|
    ensures StreamOf(h, records[..m]) == Frame(Body(h, records[0])) + StreamOf(h, records[1..][..m - 1])
  {
    StreamHead(h, records[..m]);
    assert records[..m][1..] == records[1..][..m - 1];
  }
}
