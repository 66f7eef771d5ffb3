/**
 The offline join: one path per logical request, assembled from every process's records
 (internal/validate/validate.go, Join). Later records overwrite earlier ones field by
 field, except that the status is kept by rank.
 */
module Joins {
  import opened Identity
  import opened Schema
  import opened Sorting

  type StageOwners = o: seq<Emitter> | |o| == STAGE_COUNT + 1
    witness [0, 0, 0, 0, 0, 0, 0, 0, 0, 0, 0, 0, 0, 0, 0, 0]

  const NO_OWNERS: StageOwners := [0, 0, 0, 0, 0, 0, 0, 0, 0, 0, 0, 0, 0, 0, 0, 0]

  /** One logical request's path. The presence mask is kept as the set of its stages. */
  datatype Joined = Joined(
    request: LogicalRequest,
    presence: set<Stage>,
    ts: Timestamps,
    status: Status,
    domains: set<Bytes>,
    emitters: map<Emitter, nat>,
    stageEmitter: StageOwners,
    membership: Uids,
    membershipCount: uint32,
    membershipBySource: map<Emitter, Uids>,
    statusBySource: map<Emitter, Status>,
    batchSize: uint32,
    schemaVersions: set<uint32>,
    envelopeID: uint64,
    dispatch: Dispatch,
    hasDispatch: bool,
    dispatchBySource: map<Emitter, Dispatch>)

  type Paths = map<LogicalRequest, Joined>

  function Blank(request: LogicalRequest): Joined {
    Joined(request, {}, NO_TIMESTAMPS, STATUS_UNSPECIFIED, {}, map[], NO_OWNERS, [], 0, map[], map[], 0, {}, 0,
           NO_DISPATCH, false, map[])
  }

  /** statusRank. */
  function StatusRank(s: Status): (r: nat)
    ensures r <= 3
  {
    if s == STATUS_TIMEOUT then 3 else if s == STATUS_ERROR then 2 else if s == STATUS_OK then 1 else 0
  }

  function Carried(rec: Record): (m: set<Stage>)
    ensures forall s: Stage :: s in m <==> rec.Has(s)
  {
    set s: Stage | 1 <= s <= STAGE_COUNT && rec.Has(s)
  }

  function CarriedTimes(ts: Timestamps, rec: Record): Timestamps {
    seq(STAGE_COUNT + 1, s requires 0 <= s <= STAGE_COUNT => if s > 0 && rec.Has(s) then rec.ts[s] else ts[s])
  }

  function CarriedOwners(owners: StageOwners, rec: Record): StageOwners {
    seq(STAGE_COUNT + 1, s requires 0 <= s <= STAGE_COUNT => if s > 0 && rec.Has(s) then rec.emitter else owners[s])
  }

  function HigherStatus(s: Status, t: Status): Status {
    if StatusRank(t) > StatusRank(s) then t else s
  }

  function Counted(emitters: map<Emitter, nat>, e: Emitter): map<Emitter, nat> {
    emitters[e := (if e in emitters then emitters[e] else 0) + 1]
  }

  /** A field the last record to carry it decides. */
  function Latest<T>(carries: bool, value: T, before: T): T {
    if carries then value else before
  }

  /** One observation kept per process. */
  function Noted<T>(carries: bool, bySource: map<Emitter, T>, e: Emitter, value: T): map<Emitter, T> {
    if carries then bySource[e := value] else bySource
  }

  function WithOrigin(j: Joined, d: Decoded): Joined {
    j.(domains := j.domains + {d.header.clockDomain}, emitters := Counted(j.emitters, d.record.emitter),
       schemaVersions := j.schemaVersions + {d.schemaVersion})
  }

  function WithStages(j: Joined, rec: Record): Joined {
    j.(ts := CarriedTimes(j.ts, rec), presence := j.presence + Carried(rec),
       stageEmitter := CarriedOwners(j.stageEmitter, rec))
  }

  function WithStatus(j: Joined, rec: Record): Joined {
    j.(statusBySource := Noted(rec.status != STATUS_UNSPECIFIED, j.statusBySource, rec.emitter, rec.status),
       status := if rec.status != STATUS_UNSPECIFIED then HigherStatus(j.status, rec.status) else j.status)
  }

  function WithEvidence(j: Joined, rec: Record): Joined {
    j.(membership := Latest(rec.membership != [], rec.membership, j.membership),
       membershipCount := Latest(rec.membership != [], rec.membershipCount, j.membershipCount),
       membershipBySource := Noted(rec.membership != [], j.membershipBySource, rec.emitter, rec.membership),
       batchSize := Latest(rec.batchSize > 0, rec.batchSize, j.batchSize),
       envelopeID := Latest(rec.envelopeID != 0, rec.envelopeID, j.envelopeID),
       dispatch := Latest(rec.hasDispatch, rec.dispatch, j.dispatch),
       hasDispatch := j.hasDispatch || rec.hasDispatch,
       dispatchBySource := Noted(rec.hasDispatch, j.dispatchBySource, rec.emitter, rec.dispatch))
  }

  /** One record joined onto its request's path. */
  function Merge(j: Joined, d: Decoded): Joined {
    WithEvidence(WithStatus(WithStages(WithOrigin(j, d), d.record), d.record), d.record)
  }

  function PathOf(paths: Paths, q: LogicalRequest): Joined {
    if q in paths then paths[q] else Blank(q)
  }

  function Add(paths: Paths, d: Decoded): Paths {
    var q := d.record.Request();
    paths[q := Merge(PathOf(paths, q), d)]
  }

  /** The join of a record list, read in order. */
  function JoinOf(records: seq<Decoded>): Paths {
    if records == [] then map[] else Add(JoinOf(records[..|records| - 1]), records[|records| - 1])
  }

  /* ---- The methods ---- */

  /** The stage loop of Join. */
  method CarryStages(j: Joined, rec: Record) returns (k: Joined)
    ensures k == WithStages(j, rec)
  {
    hide MaskHas;
    k := j;
    for s := 1 to STAGE_COUNT + 1
      invariant k == j.(ts := k.ts, presence := k.presence, stageEmitter := k.stageEmitter)
      invariant forall t: Stage :: t in k.presence <==> t in j.presence || (t < s && rec.Has(t))
      invariant forall t :: 0 <= t <= STAGE_COUNT ==>
        k.ts[t] == if 0 < t < s && rec.Has(t) then rec.ts[t] else j.ts[t]
      invariant forall t :: 0 <= t <= STAGE_COUNT ==>
        k.stageEmitter[t] == if 0 < t < s && rec.Has(t) then rec.emitter else j.stageEmitter[t]
    {
      if rec.Has(s) {
        k := k.(ts := k.ts[s := rec.ts[s]], presence := k.presence + {s},
                stageEmitter := k.stageEmitter[s := rec.emitter]);
      }
    }
    assert k.ts == CarriedTimes(j.ts, rec);
    assert k.stageEmitter == CarriedOwners(j.stageEmitter, rec);
    assert k.presence == j.presence + Carried(rec);
  }

  /** The status is resolved by rank, and every process's view of it is kept. */
  method CarryStatus(j: Joined, rec: Record) returns (k: Joined)
    ensures k == WithStatus(j, rec)
  {
    k := j;
    if rec.status != STATUS_UNSPECIFIED {
      k := k.(statusBySource := k.statusBySource[rec.emitter := rec.status]);
      if StatusRank(rec.status) > StatusRank(k.status) {
        k := k.(status := rec.status);
      }
    }
  }

  /** The fields a record may leave out: those it carries overwrite what is there. */
  method CarryEvidence(j: Joined, rec: Record) returns (k: Joined)
    ensures k == WithEvidence(j, rec)
  {
    k := j;
    if |rec.membership| > 0 {
      k := k.(membershipBySource := k.membershipBySource[rec.emitter := rec.membership], membership := rec.membership,
              membershipCount := rec.membershipCount);
    }
    if rec.batchSize > 0 {
      k := k.(batchSize := rec.batchSize);
    }
    if rec.envelopeID != 0 {
      k := k.(envelopeID := rec.envelopeID);
    }
    if rec.hasDispatch {
      k := k.(dispatchBySource := k.dispatchBySource[rec.emitter := rec.dispatch], dispatch := rec.dispatch,
              hasDispatch := true);
    }
  }

  /** The loop body of Join. */
  method JoinRecord(start: Joined, d: Decoded) returns (j: Joined)
    ensures j == Merge(start, d)
  {
    hide CarriedTimes, CarriedOwners, Carried, MaskHas, Latest, WithEvidence, WithStages;
    var rec := d.record;
    j := start.(domains := start.domains + {d.header.clockDomain},
                emitters := start.emitters[rec.emitter :=
                  (if rec.emitter in start.emitters then start.emitters[rec.emitter] else 0) + 1],
                schemaVersions := start.schemaVersions + {d.schemaVersion});
    j := CarryStages(j, rec);
    j := CarryStatus(j, rec);
    j := CarryEvidence(j, rec);
  }

  /** Join. */
  method Join(records: seq<Decoded>) returns (paths: Paths)
    ensures paths == JoinOf(records)
  {
    hide Merge;
    paths := map[];
    for n := 0 to |records|
      invariant paths == JoinOf(records[..n])
    {
      var q := records[n].record.Request();
      var start := PathOf(paths, q);
      var j := JoinRecord(start, records[n]);
      assert records[..n + 1][..n] == records[..n];
      paths := paths[q := j];
    }
    assert records[..|records|] == records;
  }

  /* ---- The order of the records ---- */

  /** Two records of one request agree on whatever both carry, including who wrote it. */
  ghost predicate Agree(d: Decoded, e: Decoded) {
    d.record.Request() == e.record.Request() ==>
      var a, b := d.record, e.record;
      && (forall s: Stage :: a.Has(s) && b.Has(s) ==> a.ts[s] == b.ts[s] && a.emitter == b.emitter)
      && (a.emitter == b.emitter && a.status != STATUS_UNSPECIFIED && b.status != STATUS_UNSPECIFIED ==>
            a.status == b.status)
      && (a.membership != [] && b.membership != [] ==>
            a.membership == b.membership && a.membershipCount == b.membershipCount)
      && (a.batchSize > 0 && b.batchSize > 0 ==> a.batchSize == b.batchSize)
      && (a.envelopeID != 0 && b.envelopeID != 0 ==> a.envelopeID == b.envelopeID)
      && (a.hasDispatch && b.hasDispatch ==> a.dispatch == b.dispatch)
  }

  lemma LatestCommutes<T>(c: bool, v: T, d: bool, w: T, before: T)
    requires c && d ==> v == w
    ensures Latest(c, v, Latest(d, w, before)) == Latest(d, w, Latest(c, v, before))
  {
  }

  lemma NotedCommutes<T>(c: bool, e: Emitter, v: T, d: bool, f: Emitter, w: T, before: map<Emitter, T>)
    requires c && d && e == f ==> v == w
    ensures Noted(c, Noted(d, before, f, w), e, v) == Noted(d, Noted(c, before, e, v), f, w)
  {
  }

  lemma CountedCommutes(m: map<Emitter, nat>, e: Emitter, f: Emitter)
    ensures Counted(Counted(m, e), f) == Counted(Counted(m, f), e)
  {
  }

  lemma StagesCommute(j: Joined, a: Record, b: Record)
    requires forall s: Stage :: a.Has(s) && b.Has(s) ==> a.ts[s] == b.ts[s] && a.emitter == b.emitter
    ensures CarriedTimes(CarriedTimes(j.ts, a), b) == CarriedTimes(CarriedTimes(j.ts, b), a)
    ensures CarriedOwners(CarriedOwners(j.stageEmitter, a), b) == CarriedOwners(CarriedOwners(j.stageEmitter, b), a)
  {
  }

  /** The sets and counters of a path. */
  lemma SetsCommute(j: Joined, d: Decoded, e: Decoded)
    ensures var x, y := Merge(Merge(j, d), e), Merge(Merge(j, e), d);
            && x.presence == y.presence && x.domains == y.domains && x.schemaVersions == y.schemaVersions
            && x.emitters == y.emitters && x.status == y.status && x.hasDispatch == y.hasDispatch
  {
    hide Carried, CarriedTimes, CarriedOwners, Latest, Noted, Counted;
    CountedCommutes(j.emitters, d.record.emitter, e.record.emitter);
  }

  /** The fields the last record to carry them decides. */
  lemma LatestFieldsCommute(j: Joined, d: Decoded, e: Decoded)
    requires d.record.Request() == e.record.Request() && Agree(d, e)
    ensures var x, y := Merge(Merge(j, d), e), Merge(Merge(j, e), d);
            && x.membership == y.membership && x.membershipCount == y.membershipCount && x.batchSize == y.batchSize
            && x.envelopeID == y.envelopeID && x.dispatch == y.dispatch
  {
    hide Carried, CarriedTimes, CarriedOwners, Latest, Noted, Counted, HigherStatus, MaskHas;
    var a, b := d.record, e.record;
    LatestCommutes(a.membership != [], a.membership, b.membership != [], b.membership, j.membership);
    LatestCommutes(a.membership != [], a.membershipCount, b.membership != [], b.membershipCount, j.membershipCount);
    LatestCommutes(a.batchSize > 0, a.batchSize, b.batchSize > 0, b.batchSize, j.batchSize);
    LatestCommutes(a.envelopeID != 0, a.envelopeID, b.envelopeID != 0, b.envelopeID, j.envelopeID);
    LatestCommutes(a.hasDispatch, a.dispatch, b.hasDispatch, b.dispatch, j.dispatch);
  }

  lemma MergedNotes(j: Joined, d: Decoded)
    ensures var k, rec := Merge(j, d), d.record;
            && k.membershipBySource == Noted(rec.membership != [], j.membershipBySource, rec.emitter, rec.membership)
            && k.statusBySource == Noted(rec.status != STATUS_UNSPECIFIED, j.statusBySource, rec.emitter, rec.status)
            && k.dispatchBySource == Noted(rec.hasDispatch, j.dispatchBySource, rec.emitter, rec.dispatch)
  {
    hide Carried, CarriedTimes, CarriedOwners, Latest, Noted, Counted, HigherStatus, MaskHas;
  }

  /** The observations kept per process. */
  lemma NotedFieldsCommute(j: Joined, d: Decoded, e: Decoded)
    requires d.record.Request() == e.record.Request() && Agree(d, e)
    ensures var x, y := Merge(Merge(j, d), e), Merge(Merge(j, e), d);
            && x.membershipBySource == y.membershipBySource && x.statusBySource == y.statusBySource
            && x.dispatchBySource == y.dispatchBySource
  {
    hide Merge, Noted, MaskHas;
    MergedNotes(j, d);
    MergedNotes(j, e);
    MergedNotes(Merge(j, d), e);
    MergedNotes(Merge(j, e), d);
    var a, b := d.record, e.record;
    NotedCommutes(a.membership != [], a.emitter, a.membership, b.membership != [], b.emitter, b.membership,
                  j.membershipBySource);
    NotedCommutes(a.status != STATUS_UNSPECIFIED, a.emitter, a.status, b.status != STATUS_UNSPECIFIED, b.emitter,
                  b.status, j.statusBySource);
    NotedCommutes(a.hasDispatch, a.emitter, a.dispatch, b.hasDispatch, b.emitter, b.dispatch, j.dispatchBySource);
  }

  lemma StageFieldsCommute(j: Joined, d: Decoded, e: Decoded)
    requires d.record.Request() == e.record.Request() && Agree(d, e)
    ensures var x, y := Merge(Merge(j, d), e), Merge(Merge(j, e), d);
            x.ts == y.ts && x.stageEmitter == y.stageEmitter && x.request == y.request
  {
    hide Carried, CarriedTimes, CarriedOwners, Latest, Noted, Counted, HigherStatus, MaskHas;
    StagesCommute(j, d.record, e.record);
  }

  lemma MergeCommutes(j: Joined, d: Decoded, e: Decoded)
    requires d.record.Request() == e.record.Request() && Agree(d, e)
    ensures Merge(Merge(j, d), e) == Merge(Merge(j, e), d)
  {
    hide Merge, Agree;
    SetsCommute(j, d, e);
    LatestFieldsCommute(j, d, e);
    NotedFieldsCommute(j, d, e);
    StageFieldsCommute(j, d, e);
  }

  lemma AddCommutes(paths: Paths, d: Decoded, e: Decoded)
    requires Agree(d, e)
    ensures Add(Add(paths, d), e) == Add(Add(paths, e), d)
  {
    hide Merge, Agree;
    if d.record.Request() == e.record.Request() {
      MergeCommutes(PathOf(paths, d.record.Request()), d, e);
    }
  }

  /** A record that agrees with all that follow it may as well have been read last. */
  lemma {:induction false} MoveLast(records: seq<Decoded>, k: nat)
    requires k < |records| && forall i :: k < i < |records| ==> Agree(records[k], records[i])
    ensures JoinOf(records) == Add(JoinOf(records[..k] + records[k + 1..]), records[k])
    decreases |records|
  {
    hide Add, Agree;
    var n := |records| - 1;
    var rest := records[..k] + records[k + 1..];
    if k == n {
      assert rest == records[..n];
    } else {
      var shorter := records[..n];
      MoveLast(shorter, k);
      assert rest[..|rest| - 1] == shorter[..k] + shorter[k + 1..];
      AddCommutes(JoinOf(rest[..|rest| - 1]), records[k], records[n]);
    }
  }

  /** Whatever order agreeing records are read in, they join to the same paths. */
  lemma {:induction false} OrderIrrelevant(a: seq<Decoded>, b: seq<Decoded>)
    requires multiset(a) == multiset(b)
    requires forall d, e :: d in a && e in a ==> Agree(d, e)
    ensures JoinOf(a) == JoinOf(b)
    decreases |a|
  {
    hide Add, Agree;
    if a == [] {
      EmptyMatches(b);
    } else {
      var k := TailMatches(a, b);
      var rest := b[..k] + b[k + 1..];
      forall d | d in b ensures d in a {
        assert d in multiset(b);
      }
      MoveLast(a, 0);
      MoveLast(b, k);
      assert a[..0] + a[1..] == a[1..];
      OrderIrrelevant(a[1..], rest);
    }
  }
}
