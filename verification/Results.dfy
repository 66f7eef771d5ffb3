/**
 Which answer goes to which caller (internal/adapter/adapter.go, internal/proxy/proxy.go):
 results are matched to members by identity, never by position.
 */
module Results {
  import opened Identity
  import opened Schema
  import opened Wire
  import opened Sorting
  import opened Envelope

  /** What one member's submission came to (executor.MemberResult). */
  datatype Answer = Answer(member: LogicalRequest, dispatchedAt: int64, resultAt: int64, ok: bool, membership: Uids,
                           batchSize: uint32)

  function MemberOfEnvelope(m: Member): LogicalRequest {
    LogicalRequest(m.cohort, m.ordinal)
  }

  ghost predicate DistinctMembers(requests: seq<Member>) {
    forall i, j :: 0 <= i < j < |requests| ==> MemberOfEnvelope(requests[i]) != MemberOfEnvelope(requests[j])
  }

  ghost predicate DistinctAnswers(results: seq<Answer>) {
    forall i, j :: 0 <= i < j < |results| ==> results[i].member != results[j].member
  }

  ghost predicate IsMember(requests: seq<Member>, q: LogicalRequest) {
    exists i :: 0 <= i < |requests| && MemberOfEnvelope(requests[i]) == q
  }

  /** payloadBytesByMember. */
  method PayloadBytesByMember(requests: seq<Member>) returns (sizes: map<LogicalRequest, uint32>)
    ensures forall q :: q in sizes <==> IsMember(requests, q)
    ensures DistinctMembers(requests) ==>
              forall i :: 0 <= i < |requests| ==>
                && MemberOfEnvelope(requests[i]) in sizes
                && sizes[MemberOfEnvelope(requests[i])] == |requests[i].payload| % TWO_32
  {
    sizes := map[];
    for n := 0 to |requests|
      invariant forall q :: q in sizes <==> exists i :: 0 <= i < n && MemberOfEnvelope(requests[i]) == q
      invariant DistinctMembers(requests) ==>
        forall i :: 0 <= i < n ==>
          && MemberOfEnvelope(requests[i]) in sizes
          && sizes[MemberOfEnvelope(requests[i])] == |requests[i].payload| % TWO_32
    {
      sizes := sizes[MemberOfEnvelope(requests[n]) := |requests[n].payload| % TWO_32];
    }
  }

  /** The adapter's record of one member. */
  function AdapterRecord(a: Answer, env: Envelope, recvAt: int64, sendAt: int64, evidence: Dispatch,
                         bytes: uint32): Record
  {
    var rec := EMPTY_RECORD.(emitter := EMITTER_ADAPTER, cohort := a.member.cohort, ordinal := a.member.ordinal,
                             envelopeID := env.envelopeID,
                                envelopeBytes := (env.logicalBytes + env.auxiliaryBytes) % TWO_32,
                             logicalBytes := bytes, dispatch := evidence, hasDispatch := true)
                 .SetStage(ADAPTER_RECV, recvAt).SetStage(ADAPTER_DISPATCH, a.dispatchedAt)
                 .SetStage(ADAPTER_RESULT, a.resultAt).SetStage(ADAPTER_SEND, sendAt);
    if a.ok then rec.(status := STATUS_OK).SetMembership(a.membership).(batchSize := a.batchSize)
    else rec.(status := STATUS_ERROR)
  }

  /**
   The adapter's record carries exactly its four stages, its answer's and the envelope's values, and the
   member's outcome.
   */
  lemma AdapterStages(a: Answer, env: Envelope, recvAt: int64, sendAt: int64, evidence: Dispatch, bytes: uint32)
    ensures var rec := AdapterRecord(a, env, recvAt, sendAt, evidence, bytes);
            && (forall s: Stage :: rec.Has(s) <==> s in {ADAPTER_RECV, ADAPTER_DISPATCH, ADAPTER_RESULT, ADAPTER_SEND})
            && rec.ts[ADAPTER_RECV] == recvAt && rec.ts[ADAPTER_DISPATCH] == a.dispatchedAt
            && rec.ts[ADAPTER_RESULT] == a.resultAt && rec.ts[ADAPTER_SEND] == sendAt
            && rec.emitter == EMITTER_ADAPTER && rec.Request() == a.member && rec.envelopeID == env.envelopeID
            && rec.envelopeBytes == (env.logicalBytes + env.auxiliaryBytes) % TWO_32 && rec.logicalBytes == bytes
            && rec.hasDispatch && rec.dispatch == evidence
            && (if a.ok then
                  && rec.status == STATUS_OK && rec.membership == a.membership && rec.membershipCount == |a.membership|
                  && rec.batchSize == a.batchSize
                else
                  && rec.status == STATUS_ERROR && rec.membership == []
                  && rec.membershipCount == 0 && rec.batchSize == 0)
  {
    var r0 := EMPTY_RECORD.(emitter := EMITTER_ADAPTER, cohort := a.member.cohort, ordinal := a.member.ordinal,
                            envelopeID := env.envelopeID,
                            envelopeBytes := (env.logicalBytes + env.auxiliaryBytes) % TWO_32,
                            logicalBytes := bytes, dispatch := evidence, hasDispatch := true);
    var r4 := r0.SetStage(ADAPTER_RECV, recvAt).SetStage(ADAPTER_DISPATCH, a.dispatchedAt)
                .SetStage(ADAPTER_RESULT, a.resultAt).SetStage(ADAPTER_SEND, sendAt);
    var rec := AdapterRecord(a, env, recvAt, sendAt, evidence, bytes);
    forall s: Stage ensures rec.Has(s) <==> s in {ADAPTER_RECV, ADAPTER_DISPATCH, ADAPTER_RESULT, ADAPTER_SEND} {
      EmptyMask(s);
      assert !r0.Has(s) && (rec.Has(s) <==> r4.Has(s));
    }
  }

  /** Record k tells of answer k, with the payload size of the member it names. */
  ghost predicate Tells(rec: Record, a: Answer, env: Envelope, recvAt: int64, sendAt: int64, evidence: Dispatch) {
    exists i :: 0 <= i < |env.requests| && MemberOfEnvelope(env.requests[i]) == a.member
                && rec == AdapterRecord(a, env, recvAt, sendAt, evidence, |env.requests[i].payload| % TWO_32)
  }

  /**
   The answer loop of the adapter's Execute. An answer for a member the envelope does not carry
   fails the envelope; the records of the answers before it are already written.
   */
  method Respond(env: Envelope, results: seq<Answer>, recvAt: int64, sendAt: int64, evidence: Dispatch)
    returns (response: Option<seq<Answer>>, records: seq<Record>)
    requires DistinctMembers(env.requests)
    ensures response.Some? <==> forall k :: 0 <= k < |results| ==> IsMember(env.requests, results[k].member)
    ensures response.Some? ==> response.value == results && |records| == |results|
    ensures |records| <= |results|
    ensures forall k :: 0 <= k < |records| ==> Tells(records[k], results[k], env, recvAt, sendAt, evidence)
    ensures response.None? ==> |records| < |results| && !IsMember(env.requests, results[|records|].member)
  {
    var sizes := PayloadBytesByMember(env.requests);
    var answers: seq<Answer> := [];
    records := [];
    for k := 0 to |results|
      invariant |records| == k && answers == results[..k]
      invariant forall i :: 0 <= i < k ==> IsMember(env.requests, results[i].member)
      invariant forall i :: 0 <= i < k ==> Tells(records[i], results[i], env, recvAt, sendAt, evidence)
    {
      var a := results[k];
      if a.member !in sizes {
        return None, records;
      }
      var rec := AdapterRecord(a, env, recvAt, sendAt, evidence, sizes[a.member]);
      TellsOne(rec, a, env, recvAt, sendAt, evidence, sizes[a.member]);
      hide Tells, AdapterRecord;
      answers := answers + [a];
      records := records + [rec];
    }
    response := Some(answers);
  }

  lemma TellsOne(rec: Record, a: Answer, env: Envelope, recvAt: int64, sendAt: int64, evidence: Dispatch, bytes: uint32)
    requires IsMember(env.requests, a.member)
    requires forall i :: 0 <= i < |env.requests| && MemberOfEnvelope(env.requests[i]) == a.member ==>
               |env.requests[i].payload| % TWO_32 == bytes
    requires rec == AdapterRecord(a, env, recvAt, sendAt, evidence, bytes)
    ensures Tells(rec, a, env, recvAt, sendAt, evidence)
  {
    hide AdapterRecord;
    var i :| 0 <= i < |env.requests| && MemberOfEnvelope(env.requests[i]) == a.member;
  }

  /** memberResult: the first result that names the member. */
  function MemberResult(results: seq<Answer>, member: LogicalRequest): Option<Answer> {
    if results == [] then None
    else if results[0].member == member then Some(results[0])
    else MemberResult(results[1..], member)
  }

  method FindResult(results: seq<Answer>, member: LogicalRequest) returns (found: Option<Answer>)
    ensures found == MemberResult(results, member)
  {
    for i := 0 to |results|
      invariant MemberResult(results, member) == MemberResult(results[i..], member)
    {
      if results[i].member == member {
        return Some(results[i]);
      }
    }
    found := None;
  }

  lemma {:induction false} ResultAt(results: seq<Answer>, k: nat)
    requires DistinctAnswers(results) && k < |results|
    ensures MemberResult(results, results[k].member) == Some(results[k])
  {
    if k > 0 {
      assert results[0].member != results[k].member;
      ResultAt(results[1..], k - 1);
    }
  }

  lemma {:induction false} NoResult(results: seq<Answer>, member: LogicalRequest)
    requires forall a :: a in results ==> a.member != member
    ensures MemberResult(results, member).None?
  {
    if results != [] {
      assert results[0] in results;
      NoResult(results[1..], member);
    }
  }

  /**
   Every caller receives the result computed for its own member, whatever order the response
   lists results in; and a caller nobody computed anything for receives none.
   */
  lemma EachGetsItsOwn(computed: seq<Answer>, response: seq<Answer>, member: LogicalRequest)
    requires DistinctAnswers(computed) && multiset(response) == multiset(computed)
    ensures MemberResult(response, member) == MemberResult(computed, member)
    ensures forall k :: 0 <= k < |computed| && computed[k].member == member ==>
            MemberResult(response, member) == Some(computed[k])
  {
    forall a ensures a in response <==> a in computed {
      assert a in multiset(response) <==> a in multiset(computed);
    }
    if exists k :: 0 <= k < |computed| && computed[k].member == member {
      var k :| 0 <= k < |computed| && computed[k].member == member;
      assert computed[k] in response;
      var i :| 0 <= i < |response| && response[i] == computed[k];
      RearrangedDistinct(computed, response);
      ResultAt(computed, k);
      ResultAt(response, i);
      forall l | 0 <= l < |computed| && computed[l].member == member ensures l == k {
      }
    } else {
      NoResult(computed, member);
      NoResult(response, member);
    }
  }

  lemma RearrangedDistinct(computed: seq<Answer>, response: seq<Answer>)
    requires DistinctAnswers(computed) && multiset(response) == multiset(computed)
    ensures DistinctAnswers(response)
  {
    forall i, j | 0 <= i < j < |response| ensures response[i].member != response[j].member {
      var a, b := response[i], response[j];
      assert a in multiset(computed) && b in multiset(computed);
      assert a in computed && b in computed;
      var k :| 0 <= k < |computed| && computed[k] == a;
      var l :| 0 <= l < |computed| && computed[l] == b;
      DistinctOnce(computed, k);
      OnceMeansDistinct(response, i, j);
    }
  }

  /** An accepted aggregate envelope names each member once. */
  lemma AcceptedMembersDistinct(env: Envelope, exp: Config)
    requires Accepted(env, exp) && env.aggregate
    ensures DistinctMembers(env.requests)
  {
    hide Uid;
    AcceptedExactly(env, exp);
  }
}
