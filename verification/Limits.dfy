/**
 Where a pass says less than it seems to (internal/validate/validate.go,
 internal/validate/aggregation.go): the join keeps what the last record says, so what a run
 that passed says of its other records holds exactly under a condition on the records. For
 each, the condition, and records for which it fails and the checks pass.
 */
module Limits {
  import opened Identity
  import opened Schema
  import opened Sorting
  import opened Chains
  import opened Joins
  import opened PathMeaning
  import opened Checks
  import opened Aggregation
  import opened Soundness
  import Coverage

  /* ---- Small joins ---- */

  lemma JoinOne(d: Decoded)
    ensures JoinOf([d]) == map[d.record.Request() := Merge(Blank(d.record.Request()), d)]
  {
    hide Merge;
    assert [d][..0] == [];
    assert JoinOf([]) == map[];
  }

  lemma JoinTwo(a: Decoded, b: Decoded)
    ensures var q, r := a.record.Request(), b.record.Request();
            JoinOf([a, b]) == if q == r then map[q := Merge(Merge(Blank(q), a), b)]
                              else map[q := Merge(Blank(q), a), r := Merge(Blank(r), b)]
  {
    hide Merge;
    assert [a, b][..1] == [a];
    JoinOne(a);
  }

  /** Both records are of one request. */
  ghost predicate OfOne(records: seq<Decoded>, i: int, j: int) {
    0 <= i < |records| && 0 <= j < |records| && records[i].record.Request() == records[j].record.Request()
  }

  /* ---- Stages ---- */

  /** Every record carries only stages its own process owns. */
  ghost predicate AllOwned(exp: Expectation, records: seq<Decoded>) {
    forall i, s: Stage :: 0 <= i < |records| && records[i].record.Has(s) ==>
      s in OwnedStages(exp.cell, records[i].record.emitter)
  }

  /** No two records of one request carry the same stage. */
  ghost predicate NoStageTwice(records: seq<Decoded>) {
    forall i, j, s: Stage :: 0 <= i < j < |records| && records[i].record.Request() == records[j].record.Request() ==>
      !(records[i].record.Has(s) && records[j].record.Has(s))
  }

  /**
   The ownership check looks at the last record to carry each stage only. Given that it passed
   and no process wrote twice for a request, every record kept to its own stages exactly when
   no stage of a request was written twice.
   */
  lemma OwnershipExact(exp: Expectation, records: seq<Decoded>)
    requires LastOwned(exp, records) && forall q, e :: CountOf(records, q, e) <= 1
    ensures AllOwned(exp, records) <==> NoStageTwice(records)
  {
    hide CountOf, OwnedStages, MaskHas;
    if AllOwned(exp, records) {
      forall i, j, s: Stage | 0 <= i < j < |records| && records[i].record.Request() == records[j].record.Request()
        ensures !(records[i].record.Has(s) && records[j].record.Has(s))
      {
        if records[i].record.Has(s) && records[j].record.Has(s) {
          OneOwner(exp.cell, s, records[i].record.emitter, records[j].record.emitter);
          var q := records[i].record.Request();
          assert Of(records, q, i) && Of(records, q, j);
          OnlyBy(records, q, i);
          assert false;
        }
      }
    }
    if NoStageTwice(records) {
      forall i, s: Stage | 0 <= i < |records| && records[i].record.Has(s)
        ensures s in OwnedStages(exp.cell, records[i].record.emitter)
      {
        assert LastToCarry(records, records[i].record.Request(), s, i);
      }
    }
  }

  function Stamped(emitter: Emitter): Decoded {
    Decoded(SCHEMA_VERSION, EMPTY_HEADER, EMPTY_RECORD.(emitter := emitter, presence := 1))
  }

  /**
   Read in one order a scheduled instant written by the proxy, which does not own it, passes the
   ownership check; read in the other order the same two records fail it.
   */
  lemma OwnershipDependsOnOrder(exp: Expectation)
    requires exp.cell == F10
    ensures var proxy, loadgen := Stamped(EMITTER_PROXY), Stamped(EMITTER_LOADGEN);
            && proxy.record.Has(SCHED) && SCHED !in OwnedStages(exp.cell, proxy.record.emitter)
            && (forall d :: !RuleDefect(exp, OwnershipRule, JoinOf([proxy, loadgen]), d))
            && RuleDefect(exp, OwnershipRule, JoinOf([loadgen, proxy]), WrongOwner(LogicalRequest(0, 0), SCHED))
  {
    var proxy, loadgen := Stamped(EMITTER_PROXY), Stamped(EMITTER_LOADGEN);
    var q := LogicalRequest(0, 0);
    StampedOwner(proxy, loadgen);
    StampedOwner(loadgen, proxy);
    var good, bad := JoinOf([proxy, loadgen]), JoinOf([loadgen, proxy]);
    assert good.Keys == {q} && bad.Keys == {q};
    assert RuleAt(exp, OwnershipRule, bad[q], WrongOwner(q, SCHED));
    forall d ensures !RuleDefect(exp, OwnershipRule, good, d) {
      assert !RuleAt(exp, OwnershipRule, good[q], d);
    }
  }

  lemma StampedOwner(first: Decoded, second: Decoded)
    requires first in {Stamped(EMITTER_PROXY), Stamped(EMITTER_LOADGEN)}
    requires second in {Stamped(EMITTER_PROXY), Stamped(EMITTER_LOADGEN)}
    ensures var q, paths := LogicalRequest(0, 0), JoinOf([first, second]);
            && paths.Keys == {q} && paths[q].request == q && paths[q].presence == {SCHED}
            && paths[q].stageEmitter[SCHED] == second.record.emitter
  {
    hide JoinOf, Merge, Add, MaskHas;
    var q, records := LogicalRequest(0, 0), [first, second];
    forall s: Stage ensures first.record.Has(s) <==> s == SCHED {
      OnlyFirstBit(s);
    }
    assert second.record.Has(SCHED) by { OnlyFirstBit(SCHED); }
    forall s: Stage ensures s in PathOf(JoinOf(records), q).presence <==> s == SCHED {
      OnlyFirstBit(s);
      StagePresent(records, q, s);
      assert Of(records, q, 0);
    }
    assert LastToCarry(records, q, SCHED, 1);
    StageValue(records, q, SCHED, 1);
    InJoin(records, q);
    assert Of(records, q, 0);
    forall r ensures r in JoinOf(records) <==> r == q {
      InJoin(records, r);
    }
  }

  lemma {:induction false} OnlyFirstBit(s: Stage)
    ensures MaskHas(1, s) <==> s == SCHED
  {
    if s > 1 { EmptyMask(s - 1); }
  }

  /** Along every span of one request, whichever records carry its ends. */
  ghost predicate AllForward(exp: Expectation, records: seq<Decoded>)
    requires Chain(exp.cell).Some?
  {
    forall span, i, j ::
      span in Chain(exp.cell).value && OfOne(records, i, j)
      && records[i].record.Has(span.start) && records[j].record.Has(span.end) ==>
        records[i].record.ts[span.start] <= records[j].record.ts[span.end]
  }

  /** A cohort's records carry one value of each stage of its envelope. */
  ghost predicate AllShareStages(records: seq<Decoded>) {
    forall s: Stage, i, j ::
      && s in ENVELOPE_STAGES && 0 <= i < |records| && 0 <= j < |records|
      && records[i].record.cohort == records[j].record.cohort
      && records[i].record.Has(s) && records[j].record.Has(s) ==>
        records[i].record.ts[s] == records[j].record.ts[s]
  }

  lemma OnceIsLast(records: seq<Decoded>, s: Stage, i: nat)
    requires NoStageTwice(records) && i < |records| && records[i].record.Has(s)
    ensures LastToCarry(records, records[i].record.Request(), s, i)
  {
    hide MaskHas;
  }

  /** Where every record kept to its own stages, order and agreement hold of all records, not of the last ones alone. */
  lemma OwnedRecordsOrdered(exp: Expectation, records: seq<Decoded>)
    requires Chain(exp.cell).Some? && LastsForward(exp, records)
    requires LastsShareEnvelope(records) && LastOwned(exp, records)
    requires AllOwned(exp, records) && forall q, e :: CountOf(records, q, e) <= 1
    ensures AllForward(exp, records) && AllShareStages(records)
  {
    hide CountOf, OwnedStages, MaskHas, Chain, AllOwned, LastOwned, NoStageTwice, LastToCarry;
    OwnershipExact(exp, records);
    forall span, i, j |
      && span in Chain(exp.cell).value && OfOne(records, i, j)
      && records[i].record.Has(span.start) && records[j].record.Has(span.end)
      ensures records[i].record.ts[span.start] <= records[j].record.ts[span.end]
    {
      OnceIsLast(records, span.start, i);
      OnceIsLast(records, span.end, j);
    }
    forall s: Stage, i, j |
      && s in ENVELOPE_STAGES && 0 <= i < |records| && 0 <= j < |records|
      && records[i].record.cohort == records[j].record.cohort
      && records[i].record.Has(s) && records[j].record.Has(s)
      ensures records[i].record.ts[s] == records[j].record.ts[s]
    {
      OnceIsLast(records, s, i);
      OnceIsLast(records, s, j);
    }
  }

  /* ---- Envelopes ---- */

  /** Records that name an envelope name the same exactly when they are of one cohort. */
  ghost predicate AllNameTheirs(records: seq<Decoded>) {
    forall i, j ::
      0 <= i < |records| && 0 <= j < |records|
      && records[i].record.envelopeID != 0 && records[j].record.envelopeID != 0 ==>
      (records[i].record.cohort == records[j].record.cohort <==>
         records[i].record.envelopeID == records[j].record.envelopeID)
  }

  /** No two records of one request name different envelopes. */
  ghost predicate NoneRenamed(records: seq<Decoded>) {
    forall i, j :: OfOne(records, i, j) && records[i].record.envelopeID != 0 && records[j].record.envelopeID != 0 ==>
        records[i].record.envelopeID == records[j].record.envelopeID
  }

  /**
   The join keeps the last envelope a request's records name. Given a pass, every record that
   names an envelope names its cohort's exactly when no request's records name two.
   */
  lemma NamedEnvelopeExact(records: seq<Decoded>)
    requires LastsShareEnvelope(records)
    ensures AllNameTheirs(records) <==> NoneRenamed(records)
  {
    if NoneRenamed(records) {
      forall i, j | 0 <= i < |records| && 0 <= j < |records|
                  && records[i].record.envelopeID != 0 && records[j].record.envelopeID != 0
        ensures records[i].record.cohort == records[j].record.cohort <==>
                records[i].record.envelopeID == records[j].record.envelopeID
      {
        var k := LastNamer(records, i);
        var l := LastNamer(records, j);
        assert OfOne(records, k, i) && OfOne(records, l, j);
      }
    }
  }

  lemma LastNamer(records: seq<Decoded>, i: nat) returns (k: nat)
    requires i < |records| && records[i].record.envelopeID != 0
    ensures LastToName(records, records[i].record.Request(), k)
  {
    k := LastSuch(records, records[i].record.Request(), (r: Record) => r.envelopeID != 0, i);
  }

  /** A record of process e for ordinal o of cohort 0 that says no more than its envelope. */
  function Naming(e: Emitter, o: uint32, envelope: uint64): Decoded {
    Decoded(SCHEMA_VERSION, EMPTY_HEADER, EMPTY_RECORD.(emitter := e, ordinal := o, envelopeID := envelope))
  }

  /** A path that says no more than its envelope. */
  lemma NamingMerges(j: Joined, e: Emitter, o: uint32, envelope: uint64)
    requires j.presence == {}
    ensures var k := Merge(j, Naming(e, o, envelope));
            k.presence == {} && k.envelopeID == (if envelope != 0 then envelope else j.envelopeID)
  {
    MergedFields(j, Naming(e, o, envelope));
    forall s: Stage ensures !Naming(e, o, envelope).record.Has(s) {
      EmptyMask(s);
    }
    assert Joins.Carried(Naming(e, o, envelope).record) == {};
  }

  /** One cohort, no stages, no more than one envelope between its members: nothing to name. */
  lemma OneCohortPasses(exp: Expectation, paths: Paths, envelope: uint64)
    requires paths != map[] && envelope != 0
    requires forall q :: q in paths ==> q.cohort == 0 && paths[q].presence == {} && paths[q].envelopeID in {0, envelope}
    requires exists q :: q in paths && paths[q].envelopeID == envelope
    ensures forall d :: !AggregationDefect(exp, paths, d)
  {
    assert EnvelopeIds(paths, 0) == {envelope};
    forall c: uint32, s: Stage ensures Values(paths, c, s) == {} {
    }
    forall id: uint64 | id != 0 ensures |Owners(paths, id)| <= 1 {
      assert Owners(paths, id) <= {0};
      Coverage.SubsetSize(Owners(paths, id), {0});
    }
  }

  /** Two records of one request that name two envelopes pass the aggregation check. */
  lemma RenamedEnvelopePasses(exp: Expectation)
    ensures var records := [Naming(EMITTER_ADAPTER, 0, 5), Naming(EMITTER_PROXY, 0, 7)];
            (forall d :: !AggregationDefect(exp, JoinOf(records), d)) && !NoneRenamed(records)
  {
    hide Merge, JoinOf, AggregationDefect;
    var q, a, b := LogicalRequest(0, 0), Naming(EMITTER_ADAPTER, 0, 5), Naming(EMITTER_PROXY, 0, 7);
    JoinTwo(a, b);
    NamingMerges(Blank(q), EMITTER_ADAPTER, 0, 5);
    NamingMerges(Merge(Blank(q), a), EMITTER_PROXY, 0, 7);
    assert JoinOf([a, b])[q].envelopeID == 7;
    OneCohortPasses(exp, JoinOf([a, b]), 7);
    assert OfOne([a, b], 0, 1);
  }

  /** All recorded members of the cohort name one same envelope. */
  ghost predicate SharesOneEnvelope(records: seq<Decoded>, cohort: uint32) {
    exists id: uint64 :: id != 0 && AllName(records, cohort, id)
  }

  ghost predicate AllName(records: seq<Decoded>, cohort: uint32, id: uint64) {
    forall q :: Recorded(records, q) && q.cohort == cohort ==> PathOfRun(records, q).envelopeID == id
  }

  /**
   The aggregation check passes over members that name no envelope. Given that it passed, a
   cohort's members all name one envelope exactly when each of them names any.
   */
  lemma SharedEnvelopeExact(records: seq<Decoded>, cohort: uint32)
    requires OneEnvelopeEach(records) && exists q :: Recorded(records, q) && q.cohort == cohort
    ensures SharesOneEnvelope(records, cohort) <==>
            forall q :: Recorded(records, q) && q.cohort == cohort ==> PathOfRun(records, q).envelopeID != 0
  {
    hide JoinOf, PathOf;
    var q :| Recorded(records, q) && q.cohort == cohort;
    var r :| Recorded(records, r) && r.cohort == cohort && PathOfRun(records, r).envelopeID != 0;
    forall p | Recorded(records, p) ensures PathOfRun(records, p).request == p {
      PathAt(records, p);
    }
    if forall p :: Recorded(records, p) && p.cohort == cohort ==> PathOfRun(records, p).envelopeID != 0 {
      forall p | Recorded(records, p) && p.cohort == cohort
        ensures PathOfRun(records, p).envelopeID == PathOfRun(records, r).envelopeID
      {
        assert EnvelopesAgree(PathOfRun(records, p), PathOfRun(records, r));
      }
      assert AllName(records, cohort, PathOfRun(records, r).envelopeID);
    }
  }

  /** Two members of a cohort, one of which names no envelope in any record, pass the aggregation check. */
  lemma UnnamedMemberPasses(exp: Expectation)
    ensures var records := [Naming(EMITTER_PROXY, 0, 7), Naming(EMITTER_PROXY, 1, 0)];
            (forall d :: !AggregationDefect(exp, JoinOf(records), d)) && !SharesOneEnvelope(records, 0)
  {
    hide Merge, JoinOf, AggregationDefect;
    var a, b := Naming(EMITTER_PROXY, 0, 7), Naming(EMITTER_PROXY, 1, 0);
    var q, r := LogicalRequest(0, 0), LogicalRequest(0, 1);
    JoinTwo(a, b);
    NamingMerges(Blank(q), EMITTER_PROXY, 0, 7);
    NamingMerges(Blank(r), EMITTER_PROXY, 1, 0);
    assert JoinOf([a, b])[q].envelopeID == 7 && JoinOf([a, b])[r].envelopeID == 0;
    OneCohortPasses(exp, JoinOf([a, b]), 7);
    assert Of([a, b], r, 1);
  }

  /* ---- Clocks ---- */

  /** Where the run names no clock domain, each request may be of its own: two requests under two clocks pass. */
  lemma UnnamedDomainPasses(exp: Expectation, x: Bytes, y: Bytes)
    requires exp.clockDomain == []
    ensures var a, b := Naming(EMITTER_PROXY, 0, 7), Naming(EMITTER_PROXY, 1, 7);
            forall d :: !RuleDefect(exp, ClockRule, JoinOf([a.(header := EMPTY_HEADER.(clockDomain := x)),
                                                            b.(header := EMPTY_HEADER.(clockDomain := y))]), d)
  {
    hide Merge, JoinOf;
    var a := Naming(EMITTER_PROXY, 0, 7).(header := EMPTY_HEADER.(clockDomain := x));
    var b := Naming(EMITTER_PROXY, 1, 7).(header := EMPTY_HEADER.(clockDomain := y));
    JoinTwo(a, b);
    MergedFields(Blank(LogicalRequest(0, 0)), a);
    MergedFields(Blank(LogicalRequest(0, 1)), b);
    var paths := JoinOf([a, b]);
    assert Merge(Blank(LogicalRequest(0, 0)), a).domains == {x} && Merge(Blank(LogicalRequest(0, 1)), b).domains == {y};
    forall q, d | q in paths ensures !RuleAt(exp, ClockRule, paths[q], d) {
    }
  }

  /* ---- Membership ---- */

  /** Records of one request that attest agree on the count. */
  ghost predicate CountsAgree(records: seq<Decoded>) {
    forall i, j :: OfOne(records, i, j) && records[i].record.membership != [] && records[j].record.membership != [] ==>
        records[i].record.membershipCount == records[j].record.membershipCount
  }

  /** Records of one request that state a batch size agree on it. */
  ghost predicate SizesAgree(records: seq<Decoded>) {
    forall i, j :: OfOne(records, i, j) && records[i].record.batchSize > 0 && records[j].record.batchSize > 0 ==>
        records[i].record.batchSize == records[j].record.batchSize
  }

  /**
   The join keeps the last count and the last batch size; given a pass at batch size 1 all are 1 exactly
   when a request's agree.
   */
  lemma CountsExact(records: seq<Decoded>)
    requires LastsOfOne(records)
    ensures (forall i :: 0 <= i < |records| && records[i].record.membership != [] ==>
            records[i].record.membershipCount == 1)
            <==> CountsAgree(records)
    ensures (forall i :: 0 <= i < |records| && records[i].record.batchSize > 0 ==> records[i].record.batchSize == 1)
            <==> SizesAgree(records)
  {
    if CountsAgree(records) {
      forall i | 0 <= i < |records| && records[i].record.membership != []
        ensures records[i].record.membershipCount == 1
      {
        var k := LastSuch(records, records[i].record.Request(), (r: Record) => r.membership != [], i);
        assert LastToAttest(records, records[i].record.Request(), k) && OfOne(records, k, i);
      }
    }
    if SizesAgree(records) {
      forall i | 0 <= i < |records| && records[i].record.batchSize > 0 ensures records[i].record.batchSize == 1 {
        var k := LastSuch(records, records[i].record.Request(), (r: Record) => r.batchSize > 0, i);
        assert LastToSize(records, records[i].record.Request(), k) && OfOne(records, k, i);
      }
    }
  }

  /* ---- Membership at larger batches ---- */

  function DecodedUids(uids: Uids): (r: seq<LogicalRequest>)
    ensures |r| == |uids|
  {
    seq(|uids|, i requires 0 <= i < |uids| => UidRequest(uids[i]))
  }

  /** The requests of one cohort of the given size. */
  function WholeCohort(cohort: uint32, size: nat): (r: set<LogicalRequest>)
    requires size <= TWO_32
    ensures forall q :: q in r <==> q.cohort == cohort && q.ordinal < size
    ensures |r| == size
  {
    if size == 0 then {} else WholeCohort(cohort, size - 1) + {LogicalRequest(cohort, size - 1)}
  }

  /**
   The membership check does not ask the attested uids to be distinct. Where the batch is the
   cohort, what passes it is exactly the cohort if and only if no request is attested twice.
   */
  lemma MembershipExact(exp: Expectation, j: Joined)
    requires exp.batchSize == exp.cohortSize && 0 < exp.cohortSize <= TWO_32
    requires forall d :: !MembershipAt(exp, j, d)
    ensures Elements(DecodedUids(j.membership)) == WholeCohort(j.request.cohort, exp.cohortSize) <==>
            Distinct(DecodedUids(j.membership))
  {
    hide Uid, UidRequest, SourcesDiffer;
    var decoded, whole := DecodedUids(j.membership), WholeCohort(j.request.cohort, exp.cohortSize);
    MembershipCount(exp, j);
    forall q | q in decoded ensures q in whole {
      var i :| 0 <= i < |decoded| && decoded[i] == q;
      MemberInside(exp, j, j.membership[i]);
    }
    DistinctSize(decoded);
    Coverage.SubsetSize(Elements(decoded), whole);
  }

  lemma MembershipCount(exp: Expectation, j: Joined)
    requires exp.batchSize > 0 && forall d :: !MembershipAt(exp, j, d)
    ensures |j.membership| == exp.batchSize
  {
    hide Uid, UidRequest, SourcesDiffer, MemberAt;
    assert !MembershipAt(exp, j, NothingAttested(j.request));
    assert !MembershipAt(exp, j, OwnUidEcho(j.request)) && !MembershipAt(exp, j, WrongCardinality(j.request));
  }

  lemma MemberInside(exp: Expectation, j: Joined, u: int64)
    requires exp.batchSize > 0 && (forall d :: !MembershipAt(exp, j, d)) && u in j.membership
    ensures UidRequest(u).cohort == j.request.cohort && UidRequest(u).ordinal < exp.cohortSize
  {
    hide Uid, UidRequest, SourcesDiffer;
    MembershipCount(exp, j);
    assert !MembershipAt(exp, j, ForeignCohort(j.request, u)) && !MembershipAt(exp, j, OrdinalOutside(j.request, u));
  }

  /** The backend's record of request q in a batch of two that attests q twice. */
  function Doubled(q: LogicalRequest): Decoded {
    Decoded(SCHEMA_VERSION, EMPTY_HEADER,
            EMPTY_RECORD.(emitter := EMITTER_TRITON, cohort := q.cohort, ordinal := q.ordinal, batchSize := 2,
                          membership := [Uid(q), Uid(q)], membershipCount := 2))
  }

  /** A batch of two that attests one request twice passes the membership check. */
  lemma RepeatedUidPasses(exp: Expectation)
    requires exp.batchSize == exp.cohortSize == 2
    ensures var q := LogicalRequest(0, 0);
            var paths := JoinOf([Doubled(q)]);
            && (forall d :: !RuleDefect(exp, MembershipRule, paths, d))
            && q in paths && !Distinct(DecodedUids(paths[q].membership))
  {
    hide JoinOf, Merge, Uid, UidRequest, MembershipAt;
    var q := LogicalRequest(0, 0);
    var d := Doubled(q);
    JoinOne(d);
    MergedFields(Blank(q), d);
    MergedNotes(Blank(q), d);
    var j := Merge(Blank(q), d);
    DoubledPasses(exp, j);
    assert DecodedUids(j.membership)[0] == DecodedUids(j.membership)[1];
  }

  lemma DoubledPasses(exp: Expectation, j: Joined)
    requires exp.batchSize == exp.cohortSize == 2
    requires j.request == LogicalRequest(0, 0)
    requires j.membership == [Uid(j.request), Uid(j.request)] && j.membershipCount == 2
    requires j.batchSize == 2 && j.membershipBySource == map[EMITTER_TRITON := j.membership]
    ensures forall d :: !MembershipAt(exp, j, d)
  {
    hide Uid, UidRequest;
    UidInvertible(j.request);
    assert forall u :: u in j.membership ==> UidRequest(u) == j.request;
    assert !SourcesDiffer(j.membershipBySource);
  }
}
