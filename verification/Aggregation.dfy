/**
 The Factor A manipulation check (internal/validate/aggregation.go): whether each cohort
 travelled as one envelope, and which cohorts never formed at all.
 */
module Aggregation {
  import opened Identity
  import opened Schema
  import opened Sorting
  import opened Chains
  import opened Joins
  import opened Checks

  /* ---- Requests in order ---- */

  predicate Before(q: LogicalRequest, r: LogicalRequest) {
    q.cohort < r.cohort || (q.cohort == r.cohort && q.ordinal < r.ordinal)
  }

  ghost predicate Ascending(reqs: seq<LogicalRequest>) {
    forall i, j :: 0 <= i < j < |reqs| ==> Before(reqs[i], reqs[j])
  }

  /** There is one identity order of the same requests. */
  lemma {:induction false} AscendingIsUnique(a: seq<LogicalRequest>, b: seq<LogicalRequest>)
    requires Ascending(a) && Ascending(b) && forall q :: q in a <==> q in b
    ensures a == b
  {
    if a == [] {
      HeadIn(b);
    } else {
      assert a[0] in b;
      assert b[0] in a;
      assert a[0] == b[0];
      forall q ensures q in a[1..] <==> q in b[1..] {
        assert q in a <==> q == a[0] || q in a[1..];
        assert q in b <==> q == b[0] || q in b[1..];
      }
      AscendingIsUnique(a[1..], b[1..]);
      assert a == [a[0]] + a[1..] && b == [b[0]] + b[1..];
    }
  }

  /** sortedRequests. */
  method SortedRequests(paths: Paths) returns (reqs: seq<LogicalRequest>)
    ensures Ascending(reqs) && forall q :: q in reqs <==> q in paths
  {
    reqs := [];
    var left := paths.Keys;
    while left != {}
      invariant left <= paths.Keys && Ascending(reqs)
      invariant forall q :: q in reqs <==> q in paths && q !in left
      decreases |left|
    {
      var q :| q in left;
      reqs := Insert(reqs, q);
      left := left - {q};
    }
  }

  method Insert(reqs: seq<LogicalRequest>, q: LogicalRequest) returns (next: seq<LogicalRequest>)
    requires Ascending(reqs) && q !in reqs
    ensures Ascending(next) && forall r :: r in next <==> r == q || r in reqs
  {
    var at := |reqs|;
    while at > 0 && Before(q, reqs[at - 1])
      invariant 0 <= at <= |reqs|
      invariant forall i :: at <= i < |reqs| ==> Before(q, reqs[i])
    {
      at := at - 1;
    }
    next := reqs[..at] + [q] + reqs[at..];
    assert reqs == reqs[..at] + reqs[at..];
  }

  /** The requests a loop over sortedRequests keeps, in its order. */
  method SelectRequests(paths: Paths, keep: (LogicalRequest, Joined) -> bool) returns (order: seq<LogicalRequest>)
    ensures Ascending(order) && forall q :: q in order <==> q in paths && keep(q, paths[q])
  {
    var reqs := SortedRequests(paths);
    order := [];
    for n := 0 to |reqs|
      invariant Ascending(order) && forall q :: q in order <==> q in reqs[..n] && keep(q, paths[q])
    {
      assert reqs[..n + 1] == reqs[..n] + [reqs[n]];
      forall q | q in order ensures Before(q, reqs[n]) {
        assert q in reqs[..n];
      }
      if keep(reqs[n], paths[reqs[n]]) {
        order := order + [reqs[n]];
      }
    }
    assert reqs[..|reqs|] == reqs;
  }

  /* ---- Formation failures ---- */

  /** The member reached the proxy and its cohort was never sealed. */
  predicate Held(j: Joined) {
    PROXY_RECV in j.presence && COHORT_SEAL !in j.presence
  }

  /** The member never reached the proxy. */
  predicate Absent(j: Joined) {
    PROXY_RECV !in j.presence
  }

  ghost predicate SomeMember(paths: Paths, cohort: uint32, of: Joined -> bool) {
    exists q :: q in paths && q.cohort == cohort && of(paths[q])
  }

  /** The signature of a cohort that never formed. */
  ghost predicate NeverFormed(exp: Expectation, paths: Paths, cohort: uint32) {
    exp.cell.AggregatesEnvelopes() && SomeMember(paths, cohort, Held) && SomeMember(paths, cohort, Absent)
  }

  type Ordinals = map<uint32, seq<uint32>>

  function ListOf(m: Ordinals, cohort: uint32): seq<uint32> {
    if cohort in m then m[cohort] else []
  }

  /** Per cohort, the ordinals among `reqs` of which `of` is true, in increasing order. */
  ghost predicate Lists(m: Ordinals, reqs: seq<LogicalRequest>, paths: Paths, of: Joined -> bool)
    requires forall q :: q in reqs ==> q in paths
  {
    && (forall c :: Increasing(ListOf(m, c)))
    && (forall c, o :: o in ListOf(m, c) <==> LogicalRequest(c, o) in reqs && of(paths[LogicalRequest(c, o)]))
    && (forall c :: c in m ==> m[c] != [])
  }

  function Appended(m: Ordinals, q: LogicalRequest): Ordinals {
    m[q.cohort := ListOf(m, q.cohort) + [q.ordinal]]
  }

  lemma ListOne(m: Ordinals, reqs: seq<LogicalRequest>, paths: Paths, of: Joined -> bool, q: LogicalRequest)
    requires Ascending(reqs + [q]) && q in paths && (forall r :: r in reqs ==> r in paths)
    requires Lists(m, reqs, paths, of)
    ensures Lists(if of(paths[q]) then Appended(m, q) else m, reqs + [q], paths, of)
  {
    forall r | r in reqs ensures Before(r, q) {
      var i :| 0 <= i < |reqs| && reqs[i] == r;
      assert (reqs + [q])[i] == r && (reqs + [q])[|reqs|] == q;
    }
    var next := if of(paths[q]) then Appended(m, q) else m;
    forall i | 0 <= i < |ListOf(m, q.cohort)| ensures ListOf(m, q.cohort)[i] < q.ordinal {
      assert LogicalRequest(q.cohort, ListOf(m, q.cohort)[i]) in reqs;
    }
    assert forall c :: c != q.cohort ==> ListOf(next, c) == ListOf(m, c);
  }

  datatype FormationFailure = FormationFailure(held: seq<uint32>, absent: seq<uint32>)

  type Failures = map<uint32, FormationFailure>

  /** What findFormationFailures reports: each cohort that never formed, with who was held and who never came. */
  ghost predicate Diagnoses(failures: Failures, exp: Expectation, paths: Paths) {
    && (forall c :: c in failures <==> NeverFormed(exp, paths, c))
    && (forall c :: c in failures ==> Diagnosis(failures[c], paths, c))
  }

  ghost predicate Diagnosis(f: FormationFailure, paths: Paths, cohort: uint32) {
    && Increasing(f.held) && Increasing(f.absent)
    && (forall o :: o in f.held <==> LogicalRequest(cohort, o) in paths && Held(paths[LogicalRequest(cohort, o)]))
    && (forall o :: o in f.absent <==> LogicalRequest(cohort, o) in paths && Absent(paths[LogicalRequest(cohort, o)]))
  }

  /** findFormationFailures. */
  method FindFormationFailures(exp: Expectation, paths: Paths) returns (failures: Failures)
    ensures Diagnoses(failures, exp, paths)
  {
    failures := map[];
    if !exp.cell.AggregatesEnvelopes() {
      return;
    }
    var reqs := SortedRequests(paths);
    var held: Ordinals, absent: Ordinals := map[], map[];
    for n := 0 to |reqs|
      invariant Lists(held, reqs[..n], paths, Held) && Lists(absent, reqs[..n], paths, Absent)
    {
      var q := reqs[n];
      assert reqs[..n + 1] == reqs[..n] + [q];
      ListOne(held, reqs[..n], paths, Held, q);
      ListOne(absent, reqs[..n], paths, Absent, q);
      hide Lists;
      if Held(paths[q]) {
        held := Appended(held, q);
      } else if Absent(paths[q]) {
        absent := Appended(absent, q);
      }
    }
    assert reqs[..|reqs|] == reqs;
    var left := held.Keys;
    while left != {}
      invariant left <= held.Keys
      invariant forall c :: c in failures <==> c in held && c !in left && |ListOf(absent, c)| > 0
      invariant forall c :: c in failures ==> failures[c] == FormationFailure(held[c], absent[c])
      decreases |left|
    {
      var c :| c in left;
      if |ListOf(absent, c)| > 0 {
        failures := failures[c := FormationFailure(held[c], absent[c])];
      }
      left := left - {c};
    }
    ListsDiagnose(failures, held, absent, reqs, exp, paths);
  }

  /** A list is there exactly when some member belongs on it. */
  lemma ListsSome(m: Ordinals, reqs: seq<LogicalRequest>, paths: Paths, of: Joined -> bool, c: uint32)
    requires (forall q :: q in reqs <==> q in paths) && Lists(m, reqs, paths, of)
    ensures c in m <==> SomeMember(paths, c, of)
    ensures c in m <==> |ListOf(m, c)| > 0
  {
    if c in m { assert m[c][0] in ListOf(m, c); }
    if SomeMember(paths, c, of) {
      var q :| q in paths && q.cohort == c && of(paths[q]);
      assert q == LogicalRequest(c, q.ordinal) && q.ordinal in ListOf(m, c);
    }
  }

  lemma ListsDiagnose(failures: Failures, held: Ordinals, absent: Ordinals, reqs: seq<LogicalRequest>, exp: Expectation,
                      paths: Paths)
    requires exp.cell.AggregatesEnvelopes() && forall q :: q in reqs <==> q in paths
    requires Lists(held, reqs, paths, Held) && Lists(absent, reqs, paths, Absent)
    requires forall c :: c in failures <==> c in held && |ListOf(absent, c)| > 0
    requires forall c :: c in failures ==> failures[c] == FormationFailure(held[c], absent[c])
    ensures Diagnoses(failures, exp, paths)
  {
    hide SomeMember, Lists, Diagnosis;
    forall c ensures c in failures <==> NeverFormed(exp, paths, c) {
      ListsSome(held, reqs, paths, Held, c);
      ListsSome(absent, reqs, paths, Absent, c);
    }
    forall c | c in failures ensures Diagnosis(failures[c], paths, c) {
      ListsDiagnosis(held, absent, reqs, paths, c);
    }
  }

  lemma ListsDiagnosis(held: Ordinals, absent: Ordinals, reqs: seq<LogicalRequest>, paths: Paths, c: uint32)
    requires forall q :: q in reqs <==> q in paths
    requires Lists(held, reqs, paths, Held) && Lists(absent, reqs, paths, Absent)
    ensures Diagnosis(FormationFailure(ListOf(held, c), ListOf(absent, c)), paths, c)
  {
    hide ListOf, Held, Absent;
  }

  /** withoutCohorts. */
  function Without(paths: Paths, hidden: set<uint32>): Paths {
    map q | q in paths && q.cohort !in hidden :: paths[q]
  }

  method WithoutCohorts(paths: Paths, hidden: set<uint32>) returns (visible: Paths)
    ensures visible == Without(paths, hidden)
  {
    if |hidden| == 0 {
      assert Without(paths, hidden) == paths;
      return paths;
    }
    visible := map[];
    var left := paths.Keys;
    while left != {}
      invariant left <= paths.Keys
      invariant visible == map q | q in paths && q !in left && q.cohort !in hidden :: paths[q]
      decreases |left|
    {
      var q :| q in left;
      if q.cohort !in hidden {
        visible := visible[q := paths[q]];
      }
      left := left - {q};
    }
  }

  /* ---- One envelope per cohort ---- */

  /** The non-zero envelope ids a cohort's members reported. */
  function EnvelopeIds(paths: Paths, cohort: uint32): set<uint64> {
    set q | q in paths && q.cohort == cohort && paths[q].envelopeID != 0 :: paths[q].envelopeID
  }

  function Values(paths: Paths, cohort: uint32, s: Stage): set<int64> {
    set q | q in paths && q.cohort == cohort && s in paths[q].presence :: paths[q].ts[s]
  }

  /** The cohorts whose members reported an envelope. */
  function Owners(paths: Paths, envelope: uint64): set<uint32> {
    set q | q in paths && paths[q].envelopeID == envelope :: q.cohort
  }

  function Cohorts(paths: Paths): set<uint32> {
    set q | q in paths :: q.cohort
  }

  predicate CohortDefect(paths: Paths, cohort: uint32, d: Defect) {
    match d
    case EnvelopeCardinality(c) => c == cohort && |EnvelopeIds(paths, cohort)| != 1
    case StageDisagreement(c, s) => c == cohort && s in ENVELOPE_STAGES && |Values(paths, cohort, s)| > 1
    case _ => false
  }

  /** What checkAggregation names, given the paths of the cohorts that formed. */
  predicate AggregationDefect(exp: Expectation, paths: Paths, d: Defect) {
    && exp.cell.AggregatesEnvelopes()
    && match d
       case EnvelopeCardinality(c) => c in Cohorts(paths) && CohortDefect(paths, c, d)
       case StageDisagreement(c, _) => c in Cohorts(paths) && CohortDefect(paths, c, d)
       case SharedEnvelope(id) => id != 0 && |Owners(paths, id)| > 1
       case _ => false
  }

  method ReportedIds(paths: Paths, cohort: uint32) returns (ids: set<uint64>)
    ensures ids == EnvelopeIds(paths, cohort)
  {
    ids := {};
    var left := paths.Keys;
    while left != {}
      invariant left <= paths.Keys
      invariant ids == set q | q in paths && q !in left && q.cohort == cohort && paths[q].envelopeID != 0 ::
                         paths[q].envelopeID
      decreases |left|
    {
      var q :| q in left;
      if q.cohort == cohort && paths[q].envelopeID != 0 {
        ids := ids + {paths[q].envelopeID};
      }
      left := left - {q};
    }
  }

  method ReportedValues(paths: Paths, cohort: uint32, s: Stage) returns (values: set<int64>)
    ensures values == Values(paths, cohort, s)
  {
    values := {};
    var left := paths.Keys;
    while left != {}
      invariant left <= paths.Keys
      invariant values == set q | q in paths && q !in left && q.cohort == cohort && s in paths[q].presence ::
                            paths[q].ts[s]
      decreases |left|
    {
      var q :| q in left;
      if q.cohort == cohort && s in paths[q].presence {
        values := values + {paths[q].ts[s]};
      }
      left := left - {q};
    }
  }

  /** The part of checkAggregation that judges one cohort. */
  method CohortAggregation(paths: Paths, cohort: uint32) returns (defects: seq<Defect>)
    ensures forall d :: d in defects <==> CohortDefect(paths, cohort, d)
  {
    hide EnvelopeIds, Values;
    defects := [];
    var ids := ReportedIds(paths, cohort);
    if |ids| != 1 {
      defects := [EnvelopeCardinality(cohort)];
    }
    for s := 1 to STAGE_COUNT + 1
      invariant forall d :: d in defects <==> CohortDefect(paths, cohort, d) && (d.StageDisagreement? ==> d.s < s)
    {
      if s in ENVELOPE_STAGES {
        var values := ReportedValues(paths, cohort, s);
        if |values| > 1 {
          defects := defects + [StageDisagreement(cohort, s)];
        }
      }
    }
  }

  type EnvelopeMap = map<uint64, set<uint32>>

  /** owners lists the non-zero envelopes of these paths with their cohorts. */
  ghost predicate OwnersOf(owners: EnvelopeMap, paths: Paths) {
    && (forall id :: id in owners <==> id != 0 && Owners(paths, id) != {})
    && (forall id :: id in owners ==> owners[id] == Owners(paths, id))
  }

  /** envelopeOwners. */
  method EnvelopeOwners(paths: Paths) returns (owners: EnvelopeMap)
    ensures OwnersOf(owners, paths)
  {
    owners := map[];
    var left := paths.Keys;
    ghost var done: Paths := map[];
    while left != {}
      invariant left <= paths.Keys && done.Keys == paths.Keys - left && forall q :: q in done ==> done[q] == paths[q]
      invariant OwnersOf(owners, done)
      decreases |left|
    {
      hide OwnersOf;
      var q :| q in left;
      owners := AddOwner(owners, done, q, paths[q]);
      done := done[q := paths[q]];
      left := left - {q};
    }
    assert done == paths;
  }

  method AddOwner(owners: EnvelopeMap, ghost done: Paths, q: LogicalRequest, j: Joined) returns (next: EnvelopeMap)
    requires OwnersOf(owners, done) && q !in done
    ensures OwnersOf(next, done[q := j])
  {
    hide Owners;
    OwnersGrow(done, q, j);
    next := owners;
    if j.envelopeID != 0 {
      next := owners[j.envelopeID := (if j.envelopeID in owners then owners[j.envelopeID] else {}) + {q.cohort}];
    }
  }

  lemma OwnersGrow(done: Paths, q: LogicalRequest, j: Joined)
    requires q !in done
    ensures forall id :: Owners(done[q := j], id) == Owners(done, id) + if id == j.envelopeID then {q.cohort} else {}
  {
    forall id ensures Owners(done[q := j], id) == Owners(done, id) + if id == j.envelopeID then {q.cohort} else {} {
      var after := done[q := j];
      forall c ensures c in Owners(after, id) <==> c in Owners(done, id) || (id == j.envelopeID && c == q.cohort) {
        if c in Owners(done, id) {
          var r :| r in done && done[r].envelopeID == id && r.cohort == c;
          assert r in after;
        }
        if id == j.envelopeID && c == q.cohort {
          assert q in after;
        }
      }
    }
  }

  /** The envelopes carrying members of several cohorts. */
  method SharedEnvelopes(paths: Paths) returns (defects: seq<Defect>)
    ensures forall d :: d in defects <==> d.SharedEnvelope? && d.envelope != 0 && |Owners(paths, d.envelope)| > 1
  {
    hide Owners;
    var owners := EnvelopeOwners(paths);
    defects := [];
    var ids := owners.Keys;
    while ids != {}
      invariant ids <= owners.Keys
      invariant forall d :: d in defects <==>
                d.SharedEnvelope? && d.envelope in owners && d.envelope !in ids && |owners[d.envelope]| > 1
      decreases |ids|
    {
      var id :| id in ids;
      if |owners[id]| > 1 {
        defects := defects + [SharedEnvelope(id)];
      }
      ids := ids - {id};
    }
  }

  /** checkAggregation, on the paths of the cohorts that formed. */
  method CheckAggregation(exp: Expectation, paths: Paths) returns (defects: seq<Defect>)
    ensures forall d :: d in defects <==> AggregationDefect(exp, paths, d)
  {
    hide Owners, EnvelopeIds, Values, Cohorts;
    if !exp.cell.AggregatesEnvelopes() {
      return [];
    }
    defects := CohortsAggregation(paths);
    var shared := SharedEnvelopes(paths);
    defects := defects + shared;
  }

  method CohortsAggregation(paths: Paths) returns (defects: seq<Defect>)
    ensures forall d :: d in defects <==> exists c :: c in Cohorts(paths) && CohortDefect(paths, c, d)
  {
    defects := [];
    var left := Cohorts(paths);
    while left != {}
      invariant left <= Cohorts(paths)
      invariant forall d :: d in defects <==> exists c :: c in Cohorts(paths) && c !in left && CohortDefect(paths, c, d)
      decreases |left|
    {
      hide Cohorts, CohortDefect;
      var c :| c in left;
      var found := CohortAggregation(paths, c);
      defects := defects + found;
      left := left - {c};
    }
  }
}
