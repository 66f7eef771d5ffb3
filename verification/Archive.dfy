/**
 The archive's row conversion (internal/events/parquet/parquet.go): what a record keeps on its
 way through a row, and when it returns.
 */
module Archive {
  import opened Identity
  import opened Schema
  import opened Wire
  import opened RequestId

  datatype Row = Row(
    schemaVersion: uint32,
    header: RunHeader,
    emitter: string,
    sequence: uint64,
    cohort: uint32,
    ordinal: uint32,
    envelopeID: uint64,
    executionID: uint64,
    tritonRequestID: seq<byte>,
    presence: uint32,
    status: string,
    stages: Columns,
    logicalBytes: uint32,
    envelopeBytes: uint32,
    batchSize: uint32,
    membership: seq<int64>,
    membershipCount: uint32,
    dispatched: Option<uint32>,
    skewNanos: Option<int64>,
    cpuNanos: Option<int64>,
    cpuScope: Option<string>)

  /** The fifteen nullable timestamp columns; entry 0 is unused. */
  type Columns = c: seq<Option<int64>> | |c| == STAGE_COUNT + 1
    witness [None, None, None, None, None, None, None, None, None, None, None, None, None, None, None, None]

  const NO_COLUMNS: Columns := [None, None, None, None, None, None, None, None, None, None, None, None, None, None,
                                None, None]

  datatype Unreadable = UnknownEmitter | UnknownScope | PartialEvidence

  datatype Read = Readable(d: Decoded) | Refused(cause: Unreadable)

  /* ---- Names ---- */

  function NumberText(n: nat): string {
    (if n < 10 then "" else NumberText(n / 10)) + ["0123456789"[n % 10]]
  }

  function EmitterName(e: Emitter): (s: string)
    ensures |s| > 0
  {
    if e == EMITTER_UNKNOWN then "unknown"
    else if e == EMITTER_LOADGEN then "loadgen"
    else if e == EMITTER_PROXY then "proxy"
    else if e == EMITTER_ADAPTER then "adapter"
    else if e == EMITTER_TRITON then "triton"
    else "Emitter(" + NumberText(e) + ")"
  }

  function ParseEmitter(s: string): Option<Emitter> {
    if s == "loadgen" then Some(EMITTER_LOADGEN) else if s == "proxy" then Some(EMITTER_PROXY)
    else if s == "adapter" then Some(EMITTER_ADAPTER) else if s == "triton" then Some(EMITTER_TRITON)
    else None
  }

  function StatusName(s: Status): string {
    if s == STATUS_UNSPECIFIED then "unspecified"
    else if s == STATUS_OK then "ok"
    else if s == STATUS_ERROR then "error"
    else if s == STATUS_TIMEOUT then "timeout"
    else "Status(" + NumberText(s) + ")"
  }

  /** FromRow's status switch: whatever it does not know is unspecified. */
  function ParseStatus(s: string): Status {
    if s == "ok" then STATUS_OK else if s == "error" then STATUS_ERROR else if s == "timeout" then STATUS_TIMEOUT
    else STATUS_UNSPECIFIED
  }

  function ScopeName(s: uint8): string {
    if s == 0 then "unspecified" else if s == 1 then "process" else if s == 2 then "dispatch"
    else "CPUScope(" + NumberText(s) + ")"
  }

  function ParseScope(s: string): Option<uint8> {
    if s == "unspecified" then Some(0)
    else if s == "process" then Some(1)
    else if s == "dispatch" then Some(2)
    else None
  }

  lemma NamesRead(e: Emitter, s: Status, c: uint8)
    ensures ParseEmitter(EmitterName(e)) == if 1 <= e <= 4 then Some(e) else None
    ensures ParseStatus(StatusName(s)) == if s <= 3 then s else STATUS_UNSPECIFIED
    ensures ParseScope(ScopeName(c)) == if c <= 2 then Some(c) else None
  {
    assert "Emitter("[0] == 'E' && "Status("[0] == 'S' && "CPUScope("[0] == 'C';
    assert "loadgen"[0] == 'l' && "proxy"[0] == 'p' && "adapter"[0] == 'a' && "triton"[0] == 't' && "unknown"[0] == 'u';
    assert "ok"[0] == 'o' && "error"[0] == 'e' && "timeout"[0] == 't' && "unspecified"[0] == 'u';
    assert "process"[0] == 'p' && "dispatch"[0] == 'd';
    assert "ok"[1] == 'k' && "proxy"[1] == 'r' && "timeout"[1] == 'i' && "triton"[1] == 'r';
    var emitter, status, scope := EmitterName(e), StatusName(s), ScopeName(c);
    assert e > 4 ==> emitter[0] == 'E';
    assert s > 3 ==> status[0] == 'S';
    assert c > 2 ==> scope[0] == 'C';
  }

  /* ---- The conversions ---- */

  function ColumnsOf(r: Record): Columns {
    seq(STAGE_COUNT + 1, s requires 0 <= s <= STAGE_COUNT => if s > 0 && r.Has(s) then Some(r.ts[s]) else None)
  }

  function TimesOf(c: Columns): Timestamps {
    seq(STAGE_COUNT + 1, s requires 0 <= s <= STAGE_COUNT => if s > 0 && c[s].Some? then c[s].value else 0)
  }

  /** ToRow, as a function. */
  function RowOf(d: Decoded): Row {
    var r := d.record;
    Row(d.schemaVersion, d.header, EmitterName(r.emitter), r.sequence, r.cohort, r.ordinal, r.envelopeID, r.executionID,
        Render(r.Request()), r.presence, StatusName(r.status), ColumnsOf(r),
        r.logicalBytes, r.envelopeBytes, r.batchSize, r.membership, r.membershipCount,
        if r.hasDispatch then Some(r.dispatch.dispatched) else None,
        if r.hasDispatch then Some(r.dispatch.skewNanos) else None,
        if r.hasDispatch then Some(r.dispatch.cpuNanos) else None,
        if r.hasDispatch then Some(ScopeName(r.dispatch.cpuScope)) else None)
  }

  /** The record a row spells out, its dispatch evidence aside. */
  function PlainRecord(row: Row, emitter: Emitter): Record {
    Record(emitter, row.sequence, row.cohort, row.ordinal, row.envelopeID, row.executionID, row.presence,
           ParseStatus(row.status), TimesOf(row.stages), row.logicalBytes, row.envelopeBytes, row.batchSize,
           NO_DISPATCH, false, [], 0).SetMembership(row.membership).(membershipCount := row.membershipCount)
  }

  function Carried4(row: Row): nat {
    (if row.dispatched.Some? then 1 else 0) + (if row.skewNanos.Some? then 1 else 0)
    + (if row.cpuNanos.Some? then 1 else 0) + (if row.cpuScope.Some? then 1 else 0)
  }

  /** FromRow, as a function: the evidence travels whole or not at all. */
  function RecordOf(row: Row): Read {
    match ParseEmitter(row.emitter)
    case None => Refused(UnknownEmitter)
    case Some(e) =>
      var d := Decoded(row.schemaVersion, row.header, PlainRecord(row, e));
      if Carried4(row) == 0 then Readable(d)
      else if Carried4(row) < 4 then Refused(PartialEvidence)
      else match ParseScope(row.cpuScope.value)
        case None => Refused(UnknownScope)
        case Some(scope) =>
          Readable(d.(record := d.record.(hasDispatch := true,
            dispatch := Dispatch(row.dispatched.value, row.skewNanos.value, row.cpuNanos.value, scope))))
  }

  /** ToRow: the timestamp and membership loops. */
  method ToRow(d: Decoded) returns (row: Row)
    ensures row == RowOf(d)
  {
    var r := d.record;
    var stages := NO_COLUMNS;
    for s := 1 to STAGE_COUNT + 1
      invariant forall t :: 0 <= t <= STAGE_COUNT ==> stages[t] == if 0 < t < s && r.Has(t) then Some(r.ts[t]) else None
    {
      if r.Has(s) {
        stages := stages[s := Some(r.ts[s])];
      }
    }
    assert stages == ColumnsOf(r);
    var membership: seq<int64> := [];
    for i := 0 to |r.membership|
      invariant membership == r.membership[..i]
    {
      membership := membership + [r.membership[i]];
    }
    hide ColumnsOf, EmitterName, StatusName, ScopeName, Render;
    row := Row(d.schemaVersion, d.header, EmitterName(r.emitter), r.sequence, r.cohort, r.ordinal, r.envelopeID,
               r.executionID, Render(r.Request()), r.presence, StatusName(r.status), stages, r.logicalBytes,
               r.envelopeBytes, r.batchSize, membership, r.membershipCount, None, None, None, None);
    if r.hasDispatch {
      row := row.(dispatched := Some(r.dispatch.dispatched), skewNanos := Some(r.dispatch.skewNanos),
                  cpuNanos := Some(r.dispatch.cpuNanos), cpuScope := Some(ScopeName(r.dispatch.cpuScope)));
    }
  }

  /** FromRow. */
  method FromRow(row: Row) returns (read: Read)
    ensures read == RecordOf(row)
  {
    var emitter := ParseEmitter(row.emitter);
    if emitter.None? {
      return Refused(UnknownEmitter);
    }
    var ts := NO_TIMESTAMPS;
    for s := 1 to STAGE_COUNT + 1
      invariant forall t :: 0 <= t <= STAGE_COUNT ==>
                ts[t] == if 0 < t < s && row.stages[t].Some? then row.stages[t].value else 0
    {
      if row.stages[s].Some? {
        ts := ts[s := row.stages[s].value];
      }
    }
    assert ts == TimesOf(row.stages);
    hide TimesOf, ParseEmitter, ParseScope, ParseStatus;
    var rec := EMPTY_RECORD.(emitter := emitter.value, sequence := row.sequence,
                             cohort := row.cohort, ordinal := row.ordinal,
                             envelopeID := row.envelopeID, executionID := row.executionID, presence := row.presence,
                             logicalBytes := row.logicalBytes, envelopeBytes := row.envelopeBytes,
                             batchSize := row.batchSize,
                             status := ParseStatus(row.status), ts := ts);
    rec := rec.SetMembership(row.membership).(membershipCount := row.membershipCount);
    assert rec == PlainRecord(row, emitter.value);
    read := WithEvidence(row, Decoded(row.schemaVersion, row.header, rec));
  }

  /** The last part of FromRow. */
  method WithEvidence(row: Row, d: Decoded) returns (read: Read)
    ensures read == if Carried4(row) == 0 then Readable(d)
                    else if Carried4(row) < 4 then Refused(PartialEvidence)
                    else match ParseScope(row.cpuScope.value)
                      case None => Refused(UnknownScope)
                      case Some(scope) =>
                        Readable(d.(record := d.record.(hasDispatch := true,
                          dispatch := Dispatch(row.dispatched.value, row.skewNanos.value, row.cpuNanos.value, scope))))
  {
    var present := Carried4(row);
    if present == 0 {
      return Readable(d);
    }
    if present < 4 {
      return Refused(PartialEvidence);
    }
    var scope := ParseScope(row.cpuScope.value);
    if scope.None? {
      return Refused(UnknownScope);
    }
    read := Readable(d.(record := d.record.(hasDispatch := true,
      dispatch := Dispatch(row.dispatched.value, row.skewNanos.value, row.cpuNanos.value, scope.value))));
  }

  /* ---- What survives ---- */

  /** The process and, where there is evidence, its CPU scope have names an archive reader knows. */
  predicate KnownNames(r: Record) {
    1 <= r.emitter <= 4 && (r.hasDispatch ==> r.dispatch.cpuScope <= 2)
  }

  /** What a row says of a record: absent timestamps and absent evidence are nothing, an unknown status unspecified. */
  function Kept(r: Record): Record {
    r.(ts := TimesOf(ColumnsOf(r)), status := if r.status <= 3 then r.status else STATUS_UNSPECIFIED,
       dispatch := if r.hasDispatch then r.dispatch else NO_DISPATCH)
  }

  lemma ReadBack(d: Decoded)
    ensures RecordOf(RowOf(d)).Readable? <==> KnownNames(d.record)
    ensures KnownNames(d.record) ==> RecordOf(RowOf(d)) == Readable(d.(record := Kept(d.record)))
  {
    hide TimesOf, ColumnsOf, Render, EmitterName, StatusName, ScopeName, ParseEmitter, ParseStatus, ParseScope;
    var r := d.record;
    NamesRead(r.emitter, r.status, r.dispatch.cpuScope);
    assert r.membership == r.membership[..|r.membership|];
  }

  /** Absent timestamps are zero, and absent evidence is empty. */
  predicate Normal(r: Record) {
    && (forall s :: 0 <= s <= STAGE_COUNT ==> (s == 0 || !r.Has(s)) ==> r.ts[s] == 0)
    && (!r.hasDispatch ==> r.dispatch == NO_DISPATCH)
  }

  /** A record returns from the archive unchanged exactly when it is normal and every name it uses is known. */
  lemma ArchiveExactly(d: Decoded)
    ensures RecordOf(RowOf(d)) == Readable(d) <==> KnownNames(d.record) && d.record.status <= 3 && Normal(d.record)
  {
    hide RecordOf, RowOf;
    ReadBack(d);
    var r := d.record;
    if KnownNames(r) {
      forall s | 0 <= s <= STAGE_COUNT ensures Kept(r).ts[s] == if s > 0 && r.Has(s) then r.ts[s] else 0 {
      }
      assert Normal(r) && r.status <= 3 ==> Kept(r).ts == r.ts;
      assert Kept(r) == r ==> Normal(r);
    }
  }

  /** Every record as the archive returns it. */
  function Archived(records: seq<Decoded>): (a: seq<Decoded>)
    ensures |a| == |records|
  {
    seq(|records|, i requires 0 <= i < |records| => records[i].(record := Kept(records[i].record)))
  }

  /* ---- The columns ---- */

  const EMITTER_NAMES: set<(int, string)> := {(1, "loadgen"), (2, "proxy"), (3, "adapter"), (4, "triton")}
  const STATUS_NAMES: set<(int, string)> := {(1, "ok"), (2, "error"), (3, "timeout")}
  const SCOPE_NAMES: set<(int, string)> := {(0, "unspecified"), (1, "process"), (2, "dispatch")}

  /** A name stands for exactly one number of its table. */
  lemma NamesStandFor(s: string, n: uint8)
    ensures ParseEmitter(s) == Some(n) <==> (n, s) in EMITTER_NAMES
    ensures ParseScope(s) == Some(n) <==> (n, s) in SCOPE_NAMES
    ensures ParseStatus(s) == n <==> (n, s) in STATUS_NAMES || (n == 0 && !NamesStatus(s))
  {
  }

  predicate NamesStatus(s: string) {
    s in {"ok", "error", "timeout"}
  }

  /** Every number of a table is written as its name. */
  lemma NamesWritten(n: uint8)
    ensures 1 <= n <= 4 ==> (n, EmitterName(n)) in EMITTER_NAMES
    ensures 1 <= n <= 3 ==> (n, StatusName(n)) in STATUS_NAMES
    ensures 0 <= n <= 2 ==> (n, ScopeName(n)) in SCOPE_NAMES
  {
  }

  /** The columns a record and its row share as they are. */
  predicate SameColumns(row: Row, d: Decoded) {
    && row.schemaVersion == d.schemaVersion && row.header == d.header && row.sequence == d.record.sequence
    && row.cohort == d.record.cohort && row.ordinal == d.record.ordinal && row.envelopeID == d.record.envelopeID
    && row.executionID == d.record.executionID && row.presence == d.record.presence
    && row.logicalBytes == d.record.logicalBytes && row.envelopeBytes == d.record.envelopeBytes
    && row.batchSize == d.record.batchSize && row.membershipCount == d.record.membershipCount
  }

  /** The four evidence columns are all there, and name this evidence. */
  predicate Evident(row: Row, e: Dispatch) {
    && row.dispatched == Some(e.dispatched) && row.skewNanos == Some(e.skewNanos) && row.cpuNanos == Some(e.cpuNanos)
    && row.cpuScope.Some? && (e.cpuScope as int, row.cpuScope.value) in SCOPE_NAMES
  }

  predicate NoEvidence(row: Row) {
    row.dispatched.None? && row.skewNanos.None? && row.cpuNanos.None? && row.cpuScope.None?
  }

  /** A record is what a row says: column by column, with nothing where the row has a null. */
  ghost predicate RowSays(row: Row, d: Decoded) {
    var r := d.record;
    && SameColumns(row, d) && (r.emitter as int, row.emitter) in EMITTER_NAMES
    && (if NamesStatus(row.status) then (r.status as int, row.status) in STATUS_NAMES else r.status == 0)
    && r.ts[0] == 0 && (forall s: Stage :: r.ts[s] == if row.stages[s].Some? then row.stages[s].value else 0)
    && r.membership == (if |row.membership| <= MAX_MEMBERSHIP then row.membership else row.membership[..MAX_MEMBERSHIP])
    && if r.hasDispatch then Evident(row, r.dispatch) else NoEvidence(row) && r.dispatch == NO_DISPATCH
  }

  lemma PlainSays(row: Row, e: Emitter, d: Decoded)
    requires (e as int, row.emitter) in EMITTER_NAMES && NoEvidence(row)
    ensures Decoded(row.schemaVersion, row.header, PlainRecord(row, e)) == d <==>
            RowSays(row, d) && !d.record.hasDispatch
  {
    NamesStandFor(row.status, ParseStatus(row.status));
    NamesStandFor(row.emitter, e);
    NamesStandFor(row.emitter, d.record.emitter);
    NamesStandFor(row.status, d.record.status);
    hide ParseEmitter, ParseStatus;
    assert (forall s :: 0 <= s <= STAGE_COUNT ==> TimesOf(row.stages)[s] == d.record.ts[s]) <==>
           TimesOf(row.stages) == d.record.ts;
  }

  predicate KnownEmitter(row: Row) {
    row.emitter in {"loadgen", "proxy", "adapter", "triton"}
  }

  predicate WholeEvidence(row: Row) {
    && row.dispatched.Some? && row.skewNanos.Some? && row.cpuNanos.Some?
    && row.cpuScope.Some? && row.cpuScope.value in {"unspecified", "process", "dispatch"}
  }

  lemma EmitterKnown(row: Row)
    ensures ParseEmitter(row.emitter).Some? <==> KnownEmitter(row)
    ensures forall d :: RowSays(row, d) ==> KnownEmitter(row)
  {
    hide NoEvidence, Evident, SameColumns;
  }

  lemma EvidenceSays(row: Row, d: Decoded)
    requires RowSays(row, d)
    ensures d.record.hasDispatch ==> WholeEvidence(row) && Evident(row, d.record.dispatch)
    ensures !d.record.hasDispatch ==> NoEvidence(row)
  {
    hide SameColumns;
  }

  /** Whatever archive a row comes from, it is refused unless its process is known and its evidence whole or absent. */
  lemma ReadableExactly(row: Row)
    ensures RecordOf(row).Readable? <==> KnownEmitter(row) && (NoEvidence(row) || WholeEvidence(row))
  {
    hide PlainRecord;
    EmitterKnown(row);
  }

  lemma PlainCase(row: Row, d: Decoded)
    requires NoEvidence(row)
    ensures RecordOf(row) == Readable(d) <==> RowSays(row, d)
  {
    ReadableExactly(row);
    EmitterKnown(row);
    if KnownEmitter(row) {
      var e := ParseEmitter(row.emitter).value;
      NamesStandFor(row.emitter, e);
      PlainSays(row, e, d);
      hide PlainRecord, ParseEmitter, RowSays, SameColumns;
      if RowSays(row, d) { EvidenceSays(row, d); }
    }
  }

  /** Without its evidence columns. */
  function Plain(row: Row): Row {
    row.(dispatched := None, skewNanos := None, cpuNanos := None, cpuScope := None)
  }

  lemma PlainlySays(row: Row, d: Decoded)
    ensures RowSays(row, d) && d.record.hasDispatch <==>
            && Evident(row, d.record.dispatch) && d.record.hasDispatch
            && RowSays(Plain(row), d.(record := d.record.(hasDispatch := false, dispatch := NO_DISPATCH)))
  {
  }

  lemma EvidentCase(row: Row, d: Decoded)
    requires KnownEmitter(row) && WholeEvidence(row)
    ensures RecordOf(row) == Readable(d) <==> RowSays(row, d)
  {
    EmitterKnown(row);
    var scope := ParseScope(row.cpuScope.value).value;
    NamesStandFor(row.cpuScope.value, scope);
    NamesStandFor(row.cpuScope.value, d.record.dispatch.cpuScope);
    var plain := d.(record := d.record.(hasDispatch := false, dispatch := NO_DISPATCH));
    PlainlySays(row, d);
    PlainCase(Plain(row), plain);
    ReadEvidence(row, plain, scope);
    hide RowSays, PlainRecord, ParseEmitter, ParseScope, RecordOf;
    if RowSays(row, d) && !d.record.hasDispatch { EvidenceSays(row, d); }
  }

  lemma ReadEvidence(row: Row, plain: Decoded, scope: uint8)
    requires KnownEmitter(row) && WholeEvidence(row) && ParseScope(row.cpuScope.value) == Some(scope)
    ensures RecordOf(Plain(row)).Readable? && RecordOf(row).Readable?
    ensures RecordOf(row).d == RecordOf(Plain(row)).d.(record := RecordOf(Plain(row)).d.record.(hasDispatch := true,
            dispatch := Dispatch(row.dispatched.value, row.skewNanos.value, row.cpuNanos.value, scope)))
    ensures !RecordOf(Plain(row)).d.record.hasDispatch && RecordOf(Plain(row)).d.record.dispatch == NO_DISPATCH
  {
    EmitterKnown(row);
  }

  /** A row is read as a record if and only if the record is what the row says. */
  lemma ReadExactly(row: Row, d: Decoded)
    ensures RecordOf(row) == Readable(d) <==> RowSays(row, d)
  {
    hide RecordOf, RowSays;
    ReadableExactly(row);
    if NoEvidence(row) {
      PlainCase(row, d);
    } else if KnownEmitter(row) && WholeEvidence(row) {
      EvidentCase(row, d);
    } else if RowSays(row, d) {
      EmitterKnown(row);
      EvidenceSays(row, d);
    }
  }

  /** What is written of a record: every column its own, a null for each absent timestamp and for absent evidence. */
  lemma WrittenExactly(d: Decoded)
    ensures var (row, r) := (RowOf(d), d.record);
            && SameColumns(row, d) && row.membership == r.membership && row.tritonRequestID == Render(r.Request())
            && (forall s: Stage :: row.stages[s] == if r.Has(s) then Some(r.ts[s]) else None)
            && (1 <= r.emitter <= 4 <==> (r.emitter as int, row.emitter) in EMITTER_NAMES)
            && (1 <= r.status <= 3 <==> NamesStatus(row.status))
            && (1 <= r.status <= 3 ==> (r.status as int, row.status) in STATUS_NAMES)
            && (if r.hasDispatch then
                  && row.dispatched == Some(r.dispatch.dispatched) && row.skewNanos == Some(r.dispatch.skewNanos)
                  && row.cpuNanos == Some(r.dispatch.cpuNanos) && row.cpuScope.Some?
                  && (r.dispatch.cpuScope <= 2 <==> (r.dispatch.cpuScope as int, row.cpuScope.value) in SCOPE_NAMES)
                else NoEvidence(row))
  {
    hide Render, EmitterName, StatusName, ScopeName, ParseEmitter, ParseStatus, ParseScope, MaskHas;
    var r := d.record;
    NamesRead(r.emitter, r.status, r.dispatch.cpuScope);
    NamesStandFor(EmitterName(r.emitter), r.emitter);
    NamesStandFor(ScopeName(r.dispatch.cpuScope), r.dispatch.cpuScope);
    NamesStandFor(StatusName(r.status), ParseStatus(StatusName(r.status)));
  }
}
