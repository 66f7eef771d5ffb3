/**
 The two ways a finished run is judged (internal/runner/validate.go): from its archive, and from
 the raw streams the archive was made of; and exactly when the two agree.
 */
module Runner {
  import opened Identity
  import opened Schema
  import opened Joins
  import opened Checks
  import opened Archive
  import opened Unjudged
  import V = Verdict

  datatype Refusal = Unread(cause: Unreadable) | ForeignVersion(version: uint32)

  datatype Loaded = Loaded(records: seq<Decoded>) | NotLoaded(why: Refusal)

  datatype Outcome = Refused(why: Refusal) | Judged(verdict: V.Verdict)

  /* ---- Reading ---- */

  /** parquet.Read after the file: the rows' records, or the first refusal. */
  function ReadRows(rows: seq<Row>): Loaded {
    if rows == [] then Loaded([])
    else match ReadRows(rows[..|rows| - 1])
      case NotLoaded(why) => NotLoaded(why)
      case Loaded(records) =>
        match RecordOf(rows[|rows| - 1])
        case Refused(cause) => NotLoaded(Unread(cause))
        case Readable(d) => Loaded(records + [d])
  }

  /** The first record of another schema version. */
  function FirstForeign(records: seq<Decoded>): seq<Decoded> {
    if records == [] then []
    else
      var before, d := FirstForeign(records[..|records| - 1]), records[|records| - 1];
      if before == [] && d.schemaVersion != SCHEMA_VERSION then [d] else before
  }

  /** What ValidateBundle judges: the archive's records, if every row is readable and of this schema. */
  function LoadArchive(rows: seq<Row>): Loaded {
    match ReadRows(rows)
    case NotLoaded(why) => NotLoaded(why)
    case Loaded(records) =>
      if FirstForeign(records) == [] then Loaded(records)
      else NotLoaded(ForeignVersion(FirstForeign(records)[0].schemaVersion))
  }

  /** RecordedOnly: warm-up records are not evidence. */
  function RecordedOf(records: seq<Decoded>, first: uint32): seq<Decoded> {
    if records == [] then []
    else
      var before, d := RecordedOf(records[..|records| - 1], first), records[|records| - 1];
      if d.record.cohort < first then before else before + [d]
  }

  /** Row i is the first that cannot be read. */
  ghost predicate FirstUnread(rows: seq<Row>, i: int) {
    0 <= i < |rows| && RecordOf(rows[i]).Refused? && forall k :: 0 <= k < i ==> RecordOf(rows[k]).Readable?
  }

  /** Row i is the first whose record was written under another schema version. */
  ghost predicate FirstOld(rows: seq<Row>, i: int) {
    && (forall k :: 0 <= k < |rows| ==> RecordOf(rows[k]).Readable?)
    && 0 <= i < |rows| && RecordOf(rows[i]).d.schemaVersion != 2
    && forall k :: 0 <= k < i ==> RecordOf(rows[k]).d.schemaVersion == 2
  }

  lemma {:induction false} ReadExactly(rows: seq<Row>)
    ensures ReadRows(rows).Loaded? ==> var records := ReadRows(rows).records;
              |records| == |rows| && forall i :: 0 <= i < |rows| ==> RecordOf(rows[i]) == Readable(records[i])
    ensures ReadRows(rows).NotLoaded? ==>
              exists i :: FirstUnread(rows, i) && ReadRows(rows).why == Unread(RecordOf(rows[i]).cause)
  {
    hide RecordOf;
    if rows != [] {
      var n := |rows| - 1;
      ReadExactly(rows[..n]);
      assert forall i :: 0 <= i < n ==> rows[..n][i] == rows[i];
      if ReadRows(rows[..n]).NotLoaded? {
        var i :| FirstUnread(rows[..n], i) && ReadRows(rows[..n]).why == Unread(RecordOf(rows[..n][i]).cause);
        assert FirstUnread(rows, i);
      } else if RecordOf(rows[n]).Refused? {
        assert FirstUnread(rows, n);
      }
    }
  }

  lemma {:induction false} ForeignIsFirst(records: seq<Decoded>)
    ensures FirstForeign(records) != [] ==> exists i ::
              && 0 <= i < |records| && FirstForeign(records)[0] == records[i]
              && records[i].schemaVersion != 2 && forall k :: 0 <= k < i ==> records[k].schemaVersion == 2
    ensures FirstForeign(records) == [] ==> forall k :: 0 <= k < |records| ==> records[k].schemaVersion == 2
  {
    if records != [] {
      var n := |records| - 1;
      ForeignIsFirst(records[..n]);
      assert forall k :: 0 <= k < n ==> records[..n][k] == records[k];
    }
  }

  /**
   An archive is loaded as the records of its rows, in order, unless a row cannot be read, which is
   refused for the first such, or one is of another schema version, which is refused for the first
   of those.
   */
  lemma LoadedExactly(rows: seq<Row>)
    ensures match LoadArchive(rows)
            case Loaded(records) =>
              && |records| == |rows|
              && forall i :: 0 <= i < |rows| ==>
                   RecordOf(rows[i]) == Readable(records[i]) && records[i].schemaVersion == 2
            case NotLoaded(Unread(cause)) => exists i :: FirstUnread(rows, i) && RecordOf(rows[i]).cause == cause
            case NotLoaded(ForeignVersion(v)) => exists i :: FirstOld(rows, i) && RecordOf(rows[i]).d.schemaVersion == v
  {
    hide RecordOf, ReadRows, FirstForeign;
    ReadExactly(rows);
    if ReadRows(rows).Loaded? {
      var records := ReadRows(rows).records;
      ForeignIsFirst(records);
      if FirstForeign(records) != [] {
        var i :| 0 <= i < |records| && FirstForeign(records)[0] == records[i]
                 && records[i].schemaVersion != 2 && forall k :: 0 <= k < i ==> records[k].schemaVersion == 2;
        assert FirstOld(rows, i);
      }
    }
  }

  /**
   Exactly the records of cohorts from `first` on are evidence, each as often as it was written, in the
   order read.
   */
  lemma {:induction false} RecordedExactly(a: seq<Decoded>, b: seq<Decoded>, first: uint32, d: Decoded)
    ensures multiset(RecordedOf(a, first))[d] == if d.record.cohort >= first then multiset(a)[d] else 0
    ensures RecordedOf(a + b, first) == RecordedOf(a, first) + RecordedOf(b, first)
  {
    RecordedCount(a, first, d);
    RecordedConcat(a, b, first);
  }

  lemma {:induction false} RecordedCount(a: seq<Decoded>, first: uint32, d: Decoded)
    ensures multiset(RecordedOf(a, first))[d] == if d.record.cohort >= first then multiset(a)[d] else 0
  {
    if a != [] {
      var n := |a| - 1;
      assert a == a[..n] + [a[n]];
      RecordedCount(a[..n], first, d);
    }
  }

  lemma {:induction false} RecordedConcat(a: seq<Decoded>, b: seq<Decoded>, first: uint32)
    ensures RecordedOf(a + b, first) == RecordedOf(a, first) + RecordedOf(b, first)
  {
    if b == [] {
      assert a + b == a;
    } else {
      var n := |b| - 1;
      RecordedConcat(a, b[..n], first);
      assert (a + b)[..|a + b| - 1] == a + b[..n];
    }
  }

  method ReadArchive(rows: seq<Row>) returns (l: Loaded)
    ensures l == ReadRows(rows)
  {
    hide RecordOf;
    var records: seq<Decoded> := [];
    for i := 0 to |rows|
      invariant ReadRows(rows[..i]) == Loaded(records)
    {
      assert rows[..i + 1][..i] == rows[..i];
      var read := FromRow(rows[i]);
      if read.Refused? {
        RefusedSoFar(rows, i + 1);
        return NotLoaded(Unread(read.cause));
      }
      records := records + [read.d];
    }
    assert rows[..|rows|] == rows;
    l := Loaded(records);
  }

  /** A refusal stands, whatever rows follow. */
  lemma {:induction false} RefusedSoFar(rows: seq<Row>, i: nat)
    requires i <= |rows| && ReadRows(rows[..i]).NotLoaded?
    ensures ReadRows(rows) == ReadRows(rows[..i])
  {
    if i < |rows| {
      assert rows[..|rows| - 1][..i] == rows[..i];
      RefusedSoFar(rows[..|rows| - 1], i);
    } else {
      assert rows[..i] == rows;
    }
  }

  /** checkSchemaVersions. */
  method CheckSchemaVersions(records: seq<Decoded>) returns (foreign: seq<Decoded>)
    ensures foreign == FirstForeign(records)
  {
    for i := 0 to |records|
      invariant FirstForeign(records[..i]) == []
    {
      assert records[..i + 1][..i] == records[..i];
      if records[i].schemaVersion != SCHEMA_VERSION {
        ForeignSoFar(records, i + 1);
        return [records[i]];
      }
    }
    assert records[..|records|] == records;
    foreign := [];
  }

  lemma {:induction false} ForeignSoFar(records: seq<Decoded>, i: nat)
    requires i <= |records| && FirstForeign(records[..i]) != []
    ensures FirstForeign(records) == FirstForeign(records[..i])
  {
    if i < |records| {
      assert records[..|records| - 1][..i] == records[..i];
      ForeignSoFar(records[..|records| - 1], i);
    } else {
      assert records[..i] == records;
    }
  }

  method RecordedOnly(records: seq<Decoded>, first: uint32) returns (out: seq<Decoded>)
    ensures out == RecordedOf(records, first)
  {
    out := [];
    for i := 0 to |records|
      invariant out == RecordedOf(records[..i], first)
    {
      assert records[..i + 1][..i] == records[..i];
      if records[i].record.cohort < first {
        continue;
      }
      out := out + [records[i]];
    }
    assert records[..|records|] == records;
  }

  /* ---- The two entry points ---- */

  /** ValidateBundle, once the files are read. */
  method ValidateBundle(exp: Expectation, rows: seq<Row>) returns (o: Outcome)
    ensures LoadArchive(rows).NotLoaded? ==> o == Outcome.Refused(LoadArchive(rows).why)
    ensures LoadArchive(rows).Loaded? ==> o.Judged? && V.Judges(exp, JoinOf(LoadArchive(rows).records), o.verdict)
  {
    var l := ReadArchive(rows);
    if l.NotLoaded? {
      return Outcome.Refused(l.why);
    }
    var foreign := CheckSchemaVersions(l.records);
    if foreign != [] {
      return Outcome.Refused(ForeignVersion(foreign[0].schemaVersion));
    }
    var verdict := V.Validate(exp, l.records);
    o := Judged(verdict);
  }

  /** ValidateStreams, once the streams are read: it refuses nothing. */
  method ValidateStreams(exp: Expectation, all: seq<Decoded>, first: uint32) returns (v: V.Verdict)
    ensures V.Judges(exp, JoinOf(RecordedOf(all, first)), v)
  {
    var records := RecordedOnly(all, first);
    v := V.Validate(exp, records);
  }

  /** The archive a run writes of its streams. */
  function RowsOf(records: seq<Decoded>): (rows: seq<Row>)
    ensures |rows| == |records|
  {
    seq(|records|, i requires 0 <= i < |records| => Archive.RowOf(records[i]))
  }

  function ArchiveOf(all: seq<Decoded>, first: uint32): seq<Row> {
    RowsOf(RecordedOf(all, first))
  }

  /* ---- Exactly when they agree ---- */

  ghost predicate Named(records: seq<Decoded>) {
    forall d :: d in records ==> KnownNames(d.record)
  }

  ghost predicate Current(records: seq<Decoded>) {
    forall d :: d in records ==> d.schemaVersion == SCHEMA_VERSION
  }

  /** The rows of a record list are read back if and only if every record's names are known. */
  lemma {:induction false} RowsReadBack(records: seq<Decoded>)
    ensures ReadRows(RowsOf(records)).Loaded? <==> Named(records)
    ensures Named(records) ==> ReadRows(RowsOf(records)) == Loaded(Archived(records))
  {
    hide RecordOf, RowOf, Kept, KnownNames;
    if records != [] {
      var n := |records| - 1;
      RowsReadBack(records[..n]);
      assert RowsOf(records)[..n] == RowsOf(records[..n]);
      assert records == records[..n] + [records[n]];
      ReadBack(records[n]);
      assert Archived(records) == Archived(records[..n]) + [records[n].(record := Kept(records[n].record))];
    } else {
      assert RowsOf(records) == [] && Archived(records) == [];
    }
  }

  lemma {:induction false} NoneForeign(records: seq<Decoded>)
    ensures FirstForeign(records) == [] <==> Current(records)
  {
    if records != [] {
      NoneForeign(records[..|records| - 1]);
      assert records == records[..|records| - 1] + [records[|records| - 1]];
    }
  }

  /** What a row drops the join never reads, but for what an unnamed status says per process. */
  lemma KeptMerges(j: Joined, k: Joined, d: Decoded)
    requires Alike(j, k)
    ensures Alike(Merge(j, d), Merge(k, d.(record := Kept(d.record))))
    ensures j == k && d.record.status <= 3 ==> Merge(j, d) == Merge(k, d.(record := Kept(d.record)))
  {
    hide Joins.Counted, MaskHas;
    var r, kept := d.record, Kept(d.record);
    assert forall s: Stage :: kept.Has(s) == r.Has(s);
    assert CarriedTimes(j.ts, kept) == CarriedTimes(j.ts, r);
    assert CarriedOwners(j.stageEmitter, kept) == CarriedOwners(j.stageEmitter, r);
    assert Joins.Carried(kept) == Joins.Carried(r);
  }

  lemma AddedAlike(p: Paths, r: Paths, d: Decoded)
    requires SamePaths(p, r)
    ensures SamePaths(Add(p, d), Add(r, d.(record := Kept(d.record))))
    ensures p == r && d.record.status <= 3 ==> Add(p, d) == Add(r, d.(record := Kept(d.record)))
  {
    hide Kept, Merge;
    KeptKeepsRequest(d.record);
    KeptMerges(PathOf(p, d.record.Request()), PathOf(r, d.record.Request()), d);
  }

  /** The archived records join to the same paths, statuses without a name set aside. */
  lemma {:induction false} ArchivedJoinsAlike(records: seq<Decoded>)
    ensures SamePaths(JoinOf(records), JoinOf(Archived(records)))
    ensures (forall d :: d in records ==> d.record.status <= 3) ==> JoinOf(records) == JoinOf(Archived(records))
  {
    hide Kept, Add, SamePaths;
    if records != [] {
      var n := |records| - 1;
      ArchivedJoinsAlike(records[..n]);
      assert Archived(records)[..n] == Archived(records[..n]);
      AddedAlike(JoinOf(records[..n]), JoinOf(Archived(records[..n])), records[n]);
    } else {
      NothingAlike();
    }
  }

  lemma NothingAlike()
    ensures SamePaths(map[], map[])
  {
  }

  lemma KeptKeepsRequest(r: Record)
    ensures Kept(r).Request() == r.Request()
  {
  }

  /** The archive loads if and only if every record's names are known and its schema is this one. */
  lemma LoadsExactly(records: seq<Decoded>)
    ensures LoadArchive(RowsOf(records)).Loaded? <==> Named(records) && Current(records)
    ensures Named(records) && Current(records) ==> LoadArchive(RowsOf(records)) == Loaded(Archived(records))
  {
    hide ReadRows, FirstForeign, KnownNames, Kept;
    RowsReadBack(records);
    NoneForeign(Archived(records));
    forall i | 0 <= i < |records| ensures Archived(records)[i].schemaVersion == records[i].schemaVersion {
    }
    assert Current(Archived(records)) <==> Current(records);
  }

  /** Archive and streams give the same verdicts. */
  ghost predicate Agree(exp: Expectation, rows: seq<Row>, streams: seq<Decoded>) {
    && LoadArchive(rows).Loaded?
    && forall v :: V.Judges(exp, JoinOf(LoadArchive(rows).records), v) <==> V.Judges(exp, JoinOf(streams), v)
  }

  /**
   For all records of all streams: the archive made of them is judged, and as the streams are,
   if and only if every recorded process and CPU scope has a name and every record is of this
   schema version. Statuses without a name, which the archive forgets, make no difference.
   */
  lemma VerdictsAgreeExactly(exp: Expectation, all: seq<Decoded>, first: uint32)
    ensures Agree(exp, ArchiveOf(all, first), RecordedOf(all, first)) <==>
              Named(RecordedOf(all, first)) && Current(RecordedOf(all, first))
  {
    hide LoadArchive, JoinOf, V.Judges, Named, Current, Archived, RecordedOf, RowsOf;
    var streams := RecordedOf(all, first);
    LoadsExactly(streams);
    if Named(streams) && Current(streams) {
      ArchivedJoinsAlike(streams);
      forall v ensures V.Judges(exp, JoinOf(streams), v) <==> V.Judges(exp, JoinOf(Archived(streams)), v) {
        SourceStatusesUnjudged(exp, JoinOf(streams), JoinOf(Archived(streams)), v);
      }
    }
  }

  /** An old record in the streams: they are judged, and the archive they become is refused. */
  lemma OldRecordDisagrees(exp: Expectation, d: Decoded, first: uint32)
    requires d.schemaVersion != SCHEMA_VERSION && KnownNames(d.record) && first <= d.record.cohort
    ensures d.record.Request() in JoinOf(RecordedOf([d], first))
    ensures LoadArchive(ArchiveOf([d], first)) == NotLoaded(ForeignVersion(d.schemaVersion))
    ensures !Agree(exp, ArchiveOf([d], first), RecordedOf([d], first))
  {
    hide ReadRows, Merge;
    assert [d][..0] == [];
    assert RecordedOf([d], first) == [d];
    RowsReadBack([d]);
    assert Archived([d]) == [d.(record := Kept(d.record))];
    var a := Archived([d]);
    assert a[..0] == [] && FirstForeign(a) == a;
    assert JoinOf([d]) == Add(JoinOf([]), d);
  }
}
