/**
 The individual executor's account of its own fan-out (internal/executor/individual/individual.go),
 on its way through the adapter's records and the offline join to the check that reads it back
 (internal/adapter/adapter.go, internal/validate/dispatch.go).
 */
module Executor {
  import opened Identity
  import opened Schema
  import opened Wire
  import opened Sorting
  import opened Envelope
  import opened Results
  import opened Joins
  import opened PathMeaning
  import opened FanOut
  import A = Aggregation
  import Checks
  import Conservation
  import RoundTrip
  import S = Stream

  const CPU_SCOPE_PROCESS: uint8 := 1

  function DispatchTimes(results: seq<Answer>): (xs: seq<int>)
    ensures |xs| == |results|
  {
    seq(|results|, i requires 0 <= i < |results| => results[i].dispatchedAt as int)
  }

  /**
   Execute's goroutines: every member's fills its own slot, in whatever order they finish. Each
   slot ends up holding the outcome of the member at that place.
   */
  method FanOutSlots(members: seq<LogicalRequest>, finished: seq<nat>, outcome: seq<Answer>)
    returns (results: array<Answer>)
    requires |outcome| == |members| && forall i :: 0 <= i < |members| ==> outcome[i].member == members[i]
    requires multiset(finished) == multiset(Indices(|members|))
    ensures fresh(results) && results[..] == outcome
  {
    results := new Answer[|members|](_ => Answer(LogicalRequest(0, 0), 0, 0, false, [], 0));
    Rearranged(members, finished);
    for n := 0 to |finished|
      invariant forall k :: 0 <= k < n ==> results[finished[k]] == outcome[finished[k]]
    {
      results[finished[n]] := outcome[finished[n]];
    }
    forall i | 0 <= i < |members| ensures results[i] == outcome[i] {
      assert i in finished;
      var k :| 0 <= k < |finished| && finished[k] == i;
    }
  }

  /** dispatchSkew: first-to-last submit, zero for a release of one. */
  method DispatchSkew(results: seq<Answer>) returns (skew: int)
    ensures skew == SpreadOf(DispatchTimes(results))
  {
    hide Lowest, Highest, SpreadOf;
    var xs := DispatchTimes(results);
    if |results| < 2 {
      FewSpread(xs);
      return 0;
    }
    var first: int, last: int := results[0].dispatchedAt, results[0].dispatchedAt;
    assert xs[..1] == [xs[0]];
    OneSpread(xs[0]);
    for i := 1 to |results|
      invariant first == Lowest(xs[..i]) && last == Highest(xs[..i])
    {
      assert xs[..i + 1] == xs[..i] + [xs[i]];
      OneMoreInstant(xs[..i], xs[i]);
      if results[i].dispatchedAt < first {
        first := results[i].dispatchedAt;
      }
      if results[i].dispatchedAt > last {
        last := results[i].dispatchedAt;
      }
    }
    assert xs[..|results|] == xs;
    skew := last - first;
    ManySpread(xs);
  }

  lemma FewSpread(xs: seq<int>)
    requires |xs| < 2
    ensures SpreadOf(xs) == 0
  {
  }

  lemma OneSpread(x: int)
    ensures Lowest([x]) == x == Highest([x])
  {
  }

  lemma ManySpread(xs: seq<int>)
    requires xs != []
    ensures SpreadOf(xs) == Highest(xs) - Lowest(xs)
  {
  }

  /** What the executor reports of a release: its size, its skew and the processor time, in the fields' widths. */
  function EvidenceOf(results: seq<Answer>, cpu: int64): Dispatch {
    Dispatch(|results| % TWO_32, ToInt64(SpreadOf(DispatchTimes(results)) % TWO_64), cpu, CPU_SCOPE_PROCESS)
  }

  /** Execute: None for a dispatch that carries no members. */
  method Execute(members: seq<LogicalRequest>, finished: seq<nat>, outcome: seq<Answer>, cpu: int64)
    returns (out: Option<(seq<Answer>, Dispatch)>)
    requires |outcome| == |members| && forall i :: 0 <= i < |members| ==> outcome[i].member == members[i]
    requires multiset(finished) == multiset(Indices(|members|))
    ensures out.None? <==> members == []
    ensures out.Some? ==> out.value == (outcome, EvidenceOf(outcome, cpu))
    ensures out.Some? ==> var told := out.value.1;
              told.dispatched == |members| % TWO_32 && told.cpuNanos == cpu && told.cpuScope == 1
  {
    if |members| == 0 {
      return None;
    }
    var results := FanOutSlots(members, finished, outcome);
    var skew := DispatchSkew(results[..]);
    out := Some((results[..], Dispatch(|members| % TWO_32, ToInt64(skew % TWO_64), cpu, CPU_SCOPE_PROCESS)));
  }

  /* ---- The records of one release ---- */

  /** The adapter's records of a release, as the join reads them. */
  ghost predicate Answered(own: seq<Decoded>, results: seq<Answer>, env: Envelope, recvAt: int64, sendAt: int64,
                           evidence: Dispatch)
  {
    && |own| == |results|
    && forall k :: 0 <= k < |own| ==> AnsweredBy(own[k].record, results[k], env, recvAt, sendAt, evidence)
  }

  ghost predicate AnsweredBy(seen: Record, a: Answer, env: Envelope, recvAt: int64, sendAt: int64, evidence: Dispatch) {
    exists rec :: Tells(rec, a, env, recvAt, sendAt, evidence) && RoundTrip.ReadAs(seen, rec)
  }

  /** What one record of the adapter's says, after the writer and the reader. */
  ghost predicate Says(seen: Record, a: Answer, id: uint64, evidence: Dispatch) {
    && seen.Request() == a.member && seen.emitter == EMITTER_ADAPTER && seen.envelopeID == id
    && seen.hasDispatch && seen.dispatch == evidence
    && seen.Has(ADAPTER_DISPATCH) && seen.ts[ADAPTER_DISPATCH] == a.dispatchedAt
  }

  lemma AnsweredSays(own: seq<Decoded>, results: seq<Answer>, env: Envelope, recvAt: int64, sendAt: int64,
                     evidence: Dispatch, k: nat)
    requires Answered(own, results, env, recvAt, sendAt, evidence) && k < |own|
    ensures Says(own[k].record, results[k], env.envelopeID, evidence)
  {
    hide MaskHas, RoundTrip.ReadAs, AdapterRecord;
    assert AnsweredBy(own[k].record, results[k], env, recvAt, sendAt, evidence);
    var rec :| Tells(rec, results[k], env, recvAt, sendAt, evidence) && RoundTrip.ReadAs(own[k].record, rec);
    var i :| 0 <= i < |env.requests| && MemberOfEnvelope(env.requests[i]) == results[k].member
             && rec == AdapterRecord(results[k], env, recvAt, sendAt, evidence, |env.requests[i].payload| % TWO_32);
    RecordSays(results[k], env, recvAt, sendAt, evidence, |env.requests[i].payload| % TWO_32);
    RoundTrip.ReadAsKeeps(own[k].record, rec);
  }

  lemma RecordSays(a: Answer, env: Envelope, recvAt: int64, sendAt: int64, evidence: Dispatch, bytes: uint32)
    ensures Says(AdapterRecord(a, env, recvAt, sendAt, evidence, bytes), a, env.envelopeID, evidence)
  {
    hide MaskHas, MaskWith;
    var base := EMPTY_RECORD.(emitter := EMITTER_ADAPTER, cohort := a.member.cohort, ordinal := a.member.ordinal,
                              envelopeID := env.envelopeID,
                                envelopeBytes := (env.logicalBytes + env.auxiliaryBytes) % TWO_32,
                              logicalBytes := bytes, dispatch := evidence, hasDispatch := true);
    var sent := base.SetStage(ADAPTER_RECV, recvAt).SetStage(ADAPTER_DISPATCH, a.dispatchedAt);
    assert sent.Has(ADAPTER_DISPATCH) && sent.ts[ADAPTER_DISPATCH] == a.dispatchedAt;
    var all := sent.SetStage(ADAPTER_RESULT, a.resultAt).SetStage(ADAPTER_SEND, sendAt);
    assert all.Has(ADAPTER_DISPATCH) && all.ts[ADAPTER_DISPATCH] == a.dispatchedAt;
  }

  /**
   The records of a run as they bear on one release: the adapter's of its members, and others,
   of which only the members' name the envelope, and none tells of the members' dispatch.
   */
  ghost predicate ReleaseRecords(records: seq<Decoded>, from: nat, own: seq<Decoded>, results: seq<Answer>,
                                 id: uint64)
  {
    && from + |own| <= |records| && records[from..from + |own|] == own
    && forall i :: 0 <= i < |records| && !(from <= i < from + |own|) ==> Aside(records[i].record, results, id)
  }

  ghost predicate Aside(rec: Record, results: seq<Answer>, id: uint64) {
    if exists k :: 0 <= k < |results| && results[k].member == rec.Request()
    then rec.envelopeID in {0, id} && !rec.Has(ADAPTER_DISPATCH) && !(rec.emitter == EMITTER_ADAPTER && rec.hasDispatch)
    else rec.envelopeID != id
  }

  /** Among the adapter's own records of the release, member k's is the k-th. */
  lemma OwnPlace(records: seq<Decoded>, from: nat, own: seq<Decoded>, results: seq<Answer>, id: uint64,
                 evidence: Dispatch,
                 k: nat, i: nat)
    requires ReleaseRecords(records, from, own, results, id)
    requires DistinctAnswers(results) && |own| == |results| && k < |results|
    requires forall i :: 0 <= i < |own| ==> Says(own[i].record, results[i], id, evidence)
    requires Of(records, results[k].member, i)
    ensures from <= i < from + |own| ==> i == from + k
  {
    hide MaskHas, Aside;
    if from <= i < from + |own| {
      assert records[i] == own[i - from];
    }
  }

  /** Member k's path carries the envelope, the member's own submission and the release's evidence. */
  lemma MemberPath(records: seq<Decoded>, from: nat, own: seq<Decoded>, results: seq<Answer>, id: uint64,
                   evidence: Dispatch,
                   k: nat)
    requires ReleaseRecords(records, from, own, results, id)
    requires DistinctAnswers(results) && |own| == |results| && k < |results|
    requires id != 0 && forall i :: 0 <= i < |own| ==> Says(own[i].record, results[i], id, evidence)
    ensures results[k].member in JoinOf(records)
    ensures var j := JoinOf(records)[results[k].member];
            && j.envelopeID == id && ADAPTER_DISPATCH in j.presence && j.ts[ADAPTER_DISPATCH] == results[k].dispatchedAt
            && EMITTER_ADAPTER in j.dispatchBySource && j.dispatchBySource[EMITTER_ADAPTER] == evidence
  {
    hide JoinOf, MaskHas;
    var q, at := results[k].member, from + k;
    assert records[at] == own[k];
    forall i | Of(records, q, i) && i != at ensures Aside(records[i].record, results, id) {
      OwnPlace(records, from, own, results, id, evidence, k, i);
    }
    InJoin(records, q);
    assert Of(records, q, at);
    StagePresent(records, q, ADAPTER_DISPATCH);
    StageValue(records, q, ADAPTER_DISPATCH, at);
    DispatchedMeans(records, q, EMITTER_ADAPTER, at);
    var last := LastSuch(records, q, (r: Record) => r.envelopeID != 0, at);
    EnvelopeMeans(records, q, last);
  }

  /** And no other path carries the envelope. */
  lemma OnlyMembers(records: seq<Decoded>, from: nat, own: seq<Decoded>, results: seq<Answer>, id: uint64,
                    evidence: Dispatch,
                    q: LogicalRequest)
    requires ReleaseRecords(records, from, own, results, id) && |own| == |results|
    requires id != 0 && forall i :: 0 <= i < |own| ==> Says(own[i].record, results[i], id, evidence)
    requires q in JoinOf(records) && JoinOf(records)[q].envelopeID == id
    ensures exists k :: 0 <= k < |results| && results[k].member == q
  {
    hide JoinOf, MaskHas;
    NothingUnsaid(records, q);
    var some :| Of(records, q, some) && records[some].record.envelopeID != 0;
    var last := LastSuch(records, q, (r: Record) => r.envelopeID != 0, some);
    EnvelopeMeans(records, q, last);
    if from <= last < from + |own| {
      assert records[last] == own[last - from];
    }
  }

  /* ---- What the check reads back ---- */

  /** r is read from exactly these members, each with its own submission and all with this evidence. */
  ghost predicate ReadsBack(r: Release, paths: Paths, results: seq<Answer>, id: uint64, evidence: Dispatch) {
    && ReleaseOf(r, paths, id)
    && (forall q :: q in r.order <==> exists k :: 0 <= k < |results| && results[k].member == q)
    && (forall k :: 0 <= k < |results| ==> Dispatched(paths, results[k], evidence))
  }

  ghost predicate Dispatched(paths: Paths, a: Answer, evidence: Dispatch) {
    && a.member in paths && ADAPTER_DISPATCH in paths[a.member].presence
    && paths[a.member].ts[ADAPTER_DISPATCH] == a.dispatchedAt
    && EMITTER_ADAPTER in paths[a.member].dispatchBySource
    && paths[a.member].dispatchBySource[EMITTER_ADAPTER] == evidence
  }

  lemma ReadBackSkew(r: Release, paths: Paths, results: seq<Answer>, id: uint64, evidence: Dispatch)
    requires ReadsBack(r, paths, results, id, evidence)
    ensures r.observedSkew == SpreadOf(DispatchTimes(results))
  {
    hide Observed, Ascending, FirstEvidence, Submissions, Chained;
    var listed := Conservation.Members(r.order, paths);
    forall x ensures x in Observed(listed, ADAPTER_DISPATCH) <==> x in DispatchTimes(results) {
      ObservedMeans(listed, ADAPTER_DISPATCH, x);
      if x in DispatchTimes(results) {
        var k :| 0 <= k < |results| && DispatchTimes(results)[k] == x;
        assert Dispatched(paths, results[k], evidence) && results[k].member in r.order;
        var i :| 0 <= i < |r.order| && r.order[i] == results[k].member;
        assert listed[i] in listed;
      }
      if exists j :: j in listed && ADAPTER_DISPATCH in j.presence && j.ts[ADAPTER_DISPATCH] == x {
        var j :| j in listed && ADAPTER_DISPATCH in j.presence && j.ts[ADAPTER_DISPATCH] == x;
        var i :| 0 <= i < |listed| && listed[i] == j;
        assert r.order[i] in r.order;
        var k :| 0 <= k < |results| && results[k].member == r.order[i];
        assert Dispatched(paths, results[k], evidence) && DispatchTimes(results)[k] == x;
      }
    }
    SpreadOfSame(Observed(listed, ADAPTER_DISPATCH), DispatchTimes(results));
  }

  lemma ReadBackCount(r: Release, paths: Paths, results: seq<Answer>, id: uint64, evidence: Dispatch)
    requires ReadsBack(r, paths, results, id, evidence) && DistinctAnswers(results) && results != []
    ensures |r.order| == |results| && r.evidence == Some(evidence)
  {
    hide Observed, Submissions, Chained, SpreadOf;
    var members := seq(|results|, k requires 0 <= k < |results| => results[k].member);
    forall q ensures q in r.order <==> q in members {
      if q in r.order {
        var k :| 0 <= k < |results| && results[k].member == q;
        assert members[k] == q;
      }
    }
    SameThings(r.order, members);
    assert r.order[0] in r.order;
    var k :| 0 <= k < |results| && results[k].member == r.order[0];
    assert Dispatched(paths, results[k], evidence);
  }

  /**
   What the executor reports of its own fan-out is what the validator recomputes, whatever order
   the submissions finished in and the records were read in: the release's evidence is found, its
   count and its skew are true, so none of the three is ever named.
   */
  lemma OwnAccountIsTrue(exp: Checks.Expectation, results: seq<Answer>, cpu: int64, env: Envelope, recvAt: int64,
                         sendAt: int64, records: seq<Decoded>, from: nat, own: seq<Decoded>, r: Release)
    requires results != [] && |results| < TWO_32 && DistinctAnswers(results) && env.envelopeID != 0
    requires SpreadOf(DispatchTimes(results)) < TWO_63
    requires Answered(own, results, env, recvAt, sendAt, EvidenceOf(results, cpu))
    requires ReleaseRecords(records, from, own, results, env.envelopeID)
    requires ReleaseOf(r, JoinOf(records), env.envelopeID)
    ensures r.evidence == Some(EvidenceOf(results, cpu)) && |r.order| == |results|
    ensures r.observedSkew == r.evidence.value.skewNanos == SpreadOf(DispatchTimes(results))
    ensures forall d :: ReleaseDefect(exp, env.envelopeID, r, d) ==> d.SkewExceeds? || d.SerialRelease?
  {
    hide JoinOf, ReleaseOf, SpreadOf, DispatchTimes, Answered, ReleaseRecords, EvidenceOf, Says;
    var id, evidence, paths := env.envelopeID, EvidenceOf(results, cpu), JoinOf(records);
    Gathered(results, evidence, env, recvAt, sendAt, records, from, own, r);
    ReadBackSkew(r, paths, results, id, evidence);
    ReadBackCount(r, paths, results, id, evidence);
    EvidenceIs(results, cpu);
  }

  lemma EvidenceIs(results: seq<Answer>, cpu: int64)
    requires |results| < TWO_32 && SpreadOf(DispatchTimes(results)) < TWO_63
    ensures EvidenceOf(results, cpu).dispatched == |results|
    ensures EvidenceOf(results, cpu).skewNanos == SpreadOf(DispatchTimes(results))
  {
    var xs := DispatchTimes(results);
    if xs != [] {
      assert Lowest(xs) in xs && Lowest(xs) <= Highest(xs);
    }
  }

  lemma Gathered(results: seq<Answer>, evidence: Dispatch, env: Envelope, recvAt: int64, sendAt: int64,
                 records: seq<Decoded>, from: nat, own: seq<Decoded>, r: Release)
    requires results != [] && DistinctAnswers(results) && env.envelopeID != 0
    requires Answered(own, results, env, recvAt, sendAt, evidence)
    requires ReleaseRecords(records, from, own, results, env.envelopeID)
    requires ReleaseOf(r, JoinOf(records), env.envelopeID)
    ensures ReadsBack(r, JoinOf(records), results, env.envelopeID, evidence)
  {
    hide JoinOf, ReleaseRecords, Answered, Says, Observed, SpreadOf, FirstEvidence, Submissions, Chained, A.Ascending;
    var id, paths := env.envelopeID, JoinOf(records);
    assert |own| == |results| by { AnsweredLength(own, results, env, recvAt, sendAt, evidence); }
    forall i | 0 <= i < |own| ensures Says(own[i].record, results[i], id, evidence) {
      AnsweredSays(own, results, env, recvAt, sendAt, evidence, i);
    }
    forall k | 0 <= k < |results|
      ensures Dispatched(paths, results[k], evidence) && paths[results[k].member].envelopeID == id
    {
      MemberPath(records, from, own, results, id, evidence, k);
    }
    forall q ensures q in r.order <==> exists k :: 0 <= k < |results| && results[k].member == q {
      if q in r.order {
        OnlyMembers(records, from, own, results, id, evidence, q);
      }
      if exists k :: 0 <= k < |results| && results[k].member == q {
        var k :| 0 <= k < |results| && results[k].member == q;
        assert Dispatched(paths, results[k], evidence);
      }
    }
  }

  lemma AnsweredLength(own: seq<Decoded>, results: seq<Answer>, env: Envelope, recvAt: int64, sendAt: int64,
                       evidence: Dispatch)
    requires Answered(own, results, env, recvAt, sendAt, evidence)
    ensures |own| == |results|
  {
  }

  function MembersOf(env: Envelope): (members: seq<LogicalRequest>)
    ensures |members| == |env.requests|
  {
    seq(|env.requests|, i requires 0 <= i < |env.requests| => MemberOfEnvelope(env.requests[i]))
  }

  /**
   The whole way: the executor releases an envelope's members, the adapter records the outcome,
   and the check judges the release from those records, read back among any others.
   */
  method JudgeOwnRelease(exp: Checks.Expectation, env: Envelope, finished: seq<nat>, outcome: seq<Answer>, cpu: int64,
                         recvAt: int64, sendAt: int64, h: RunHeader, before: seq<Decoded>, after: seq<Decoded>)
    returns (defects: seq<Checks.Defect>)
    requires 0 < |env.requests| < TWO_32 && DistinctMembers(env.requests) && env.envelopeID != 0
    requires |outcome| == |env.requests| && forall i :: 0 <= i < |outcome| ==> outcome[i].member == MembersOf(env)[i]
    requires multiset(finished) == multiset(Indices(|env.requests|)) && SpreadOf(DispatchTimes(outcome)) < TWO_63
    requires forall d :: d in before + after ==> Aside(d.record, outcome, env.envelopeID)
    ensures forall d :: d in defects ==> d.SkewExceeds? || d.SerialRelease?
  {
    hide SpreadOf, DispatchTimes, EvidenceOf, Aside, JoinOf, Tells, ReleaseOf, Answered, ReleaseDefect, ReleaseRecords;
    var released := Execute(MembersOf(env), finished, outcome, cpu);
    var (results, evidence) := released.value;
    forall k | 0 <= k < |results| ensures IsMember(env.requests, results[k].member) {
      assert MemberOfEnvelope(env.requests[k]) == results[k].member;
    }
    var response, written := Respond(env, results, recvAt, sendAt, evidence);
    var own := S.Read(h, written);
    var records := before + own + after;
    ReadIsAnswered(h, written, results, env, recvAt, sendAt, evidence);
    AmongOthers(before, own, after, results, env.envelopeID);
    var paths := Join(records);
    var r;
    r, defects := JudgeRelease(exp, paths, env.envelopeID);
    OwnAccountIsTrue(exp, results, cpu, env, recvAt, sendAt, records, |before|, own, r);
  }

  lemma ReadIsAnswered(h: RunHeader, written: seq<Record>, results: seq<Answer>, env: Envelope, recvAt: int64,
                       sendAt: int64, evidence: Dispatch)
    requires |written| == |results|
    requires forall k :: 0 <= k < |written| ==> Tells(written[k], results[k], env, recvAt, sendAt, evidence)
    ensures Answered(S.Read(h, written), results, env, recvAt, sendAt, evidence)
  {
    hide Tells, RoundTrip.Canonical;
    forall k | 0 <= k < |written|
      ensures AnsweredBy(S.Read(h, written)[k].record, results[k], env, recvAt, sendAt, evidence)
    {
      assert written[k].(sequence := written[k].sequence) == written[k];
      assert S.Read(h, written)[k].record == RoundTrip.AsRead(written[k], written[k].sequence);
      assert RoundTrip.ReadAs(S.Read(h, written)[k].record, written[k]);
    }
  }

  lemma AmongOthers(before: seq<Decoded>, own: seq<Decoded>, after: seq<Decoded>, results: seq<Answer>, id: uint64)
    requires forall d :: d in before + after ==> Aside(d.record, results, id)
    ensures ReleaseRecords(before + own + after, |before|, own, results, id)
  {
    hide Aside;
    var records := before + own + after;
    forall i | 0 <= i < |records| && !(|before| <= i < |before| + |own|) ensures Aside(records[i].record, results, id) {
      assert records[i] == (before + after)[if i < |before| then i else i - |own|];
    }
  }
}
