/**
 Synthetic evidence with durations chosen in advance (internal/testkit/fixtures.go), and what
 the validator's decomposition recovers from it.
 */
module Fixtures {
  import opened Identity
  import opened Schema
  import opened Chains
  import opened Conservation
  import opened Joins
  import Executions

  const DEFAULT_STAGE_DELAY: int := 100_000

  datatype Spec = Spec(
    cohortSize: nat,
    delays: map<SpanName, nat>,
    memberStagger: nat,
    interExecutionGap: nat,
    dispatchStagger: nat)
  {
    function Delay(name: SpanName): nat {
      if name in delays then delays[name] else DEFAULT_STAGE_DELAY
    }
  }

  /** A chain whose stages are all different, and which reaches execution through the backend queue. */
  ghost predicate ProperChain(spans: seq<Span>) {
    && spans != [] && Linked(spans)
    && (forall i, j :: 0 <= i < j <= |spans| ==> ChainStages(spans)[i] != ChainStages(spans)[j])
    && (forall k :: 0 <= k < |spans| ==> (spans[k].end == COMPUTE_START <==> spans[k].name == QBackend))
    && (exists k :: 0 <= k < |spans| - 1 && spans[k].end == COMPUTE_START && spans[k + 1].end == COMPUTE_END)
  }

  /** The time the first n spans take together. */
  function Elapsed(spec: Spec, spans: seq<Span>, n: nat): nat
    requires n <= |spans|
  {
    if n == 0 then 0 else Elapsed(spec, spans, n - 1) + spec.Delay(spans[n - 1].name)
  }

  /** A walk of the chain from `start`, with every stage from place `at` on moved later by `wait`. */
  ghost predicate Walked(spec: Spec, spans: seq<Span>, ts: Times, start: int, at: nat, wait: int) {
    forall i :: 0 <= i <= |spans| && spans != [] ==>
      && ChainStages(spans)[i] in ts
      && ts[ChainStages(spans)[i]] == start + Elapsed(spec, spans, i) + if i >= at then wait else 0
  }

  /** The inner loop of independentCohort: each stage follows the one before it by its injected delay. */
  method Walk(spec: Spec, spans: seq<Span>, start: int) returns (ts: Times)
    requires ProperChain(spans)
    ensures Walked(spec, spans, ts, start, |spans| + 1, 0)
  {
    var order := ChainStages(spans);
    ts := map[spans[0].start := start];
    var now := start;
    for n := 0 to |spans|
      invariant now == start + Elapsed(spec, spans, n)
      invariant forall i :: 0 <= i <= n ==> order[i] in ts && ts[order[i]] == start + Elapsed(spec, spans, i)
    {
      now := now + spec.Delay(spans[n].name);
      assert order[n + 1] == spans[n].end;
      ts := ts[spans[n].end := now];
    }
  }

  /** shiftFrom: the stage and everything after it in traversal order, later by delta. */
  method ShiftFrom(ts: Times, spans: seq<Span>, from: Stage, delta: int) returns (shifted: Times, at: nat)
    requires ProperChain(spans) && from in ChainStages(spans)
    ensures at <= |spans| && ChainStages(spans)[at] == from && shifted.Keys == ts.Keys
    ensures forall i :: 0 <= i <= |spans| && ChainStages(spans)[i] in ts ==>
              shifted[ChainStages(spans)[i]] == ts[ChainStages(spans)[i]] + if i >= at then delta else 0
  {
    var order := ChainStages(spans);
    at := 0;
    while order[at] != from
      invariant at <= |spans| && forall i :: 0 <= i < at ==> order[i] != from
      decreases |spans| - at
    {
      at := at + 1;
    }
    shifted := ts;
    for k := at to |order|
      invariant shifted.Keys == ts.Keys
      invariant forall i :: 0 <= i <= |spans| && order[i] in ts ==>
        shifted[order[i]] == ts[order[i]] + if at <= i < k then delta else 0
    {
      if order[k] in shifted {
        shifted := shifted[order[k] := shifted[order[k]] + delta];
      }
    }
  }

  /** A shift stretches only the span that ends at the shifted stage; every other duration stays as it was. */
  lemma ShiftStretchesOne(spans: seq<Span>, ts: Times, shifted: Times, at: nat, delta: int, k: nat)
    requires ProperChain(spans) && k < |spans| && at <= |spans| && Complete(spans, ts) && shifted.Keys == ts.Keys
    requires forall i :: 0 <= i <= |spans| && ChainStages(spans)[i] in ts ==>
               shifted[ChainStages(spans)[i]] == ts[ChainStages(spans)[i]] + if i >= at then delta else 0
    ensures Measured(spans[k], shifted) && Measured(spans[k], ts)
    ensures Duration(spans[k], shifted) == Duration(spans[k], ts) + if k + 1 == at then delta else 0
  {
    SpanPlaces(spans, k);
    assert Measured(spans[k], ts);
  }

  /** Span k runs from place k of the traversal to place k + 1. */
  lemma SpanPlaces(spans: seq<Span>, k: nat)
    requires Linked(spans) && k < |spans|
    ensures ChainStages(spans)[k] == spans[k].start && ChainStages(spans)[k + 1] == spans[k].end
  {
  }

  /** The injected delays, span by span: exact but for the queue, which may only have grown. */
  ghost predicate Recovers(spec: Spec, spans: seq<Span>, ts: Times) {
    forall k :: 0 <= k < |spans| ==>
      && Measured(spans[k], ts)
      && (spans[k].name != QBackend ==> Duration(spans[k], ts) == spec.Delay(spans[k].name))
      && (spans[k].name == QBackend ==> Duration(spans[k], ts) >= spec.Delay(QBackend))
  }

  /** Every duration is exactly the injected one. */
  ghost predicate RecoversExactly(spec: Spec, spans: seq<Span>, ts: Times) {
    forall k :: 0 <= k < |spans| ==> Measured(spans[k], ts) && Duration(spans[k], ts) == spec.Delay(spans[k].name)
  }

  lemma WalkRecovers(spec: Spec, spans: seq<Span>, ts: Times, start: int)
    requires ProperChain(spans) && Walked(spec, spans, ts, start, |spans| + 1, 0)
    ensures RecoversExactly(spec, spans, ts)
  {
    forall k | 0 <= k < |spans|
      ensures Measured(spans[k], ts) && Duration(spans[k], ts) == spec.Delay(spans[k].name)
    {
      SpanPlaces(spans, k);
      assert Elapsed(spec, spans, k + 1) == Elapsed(spec, spans, k) + spec.Delay(spans[k].name);
    }
  }

  /** The next execution begins at least the injected gap after the last one ended. */
  predicate After(spec: Spec, prev: Times, next: Times) {
    && COMPUTE_END in prev && COMPUTE_START in next
    && next[COMPUTE_START] - prev[COMPUTE_END] >= spec.interExecutionGap
  }

  /** Consecutive members execute one after the other. */
  ghost predicate Serialized(spec: Spec, out: seq<Times>) {
    forall o :: 0 <= o < |out| - 1 ==> After(spec, out[o], out[o + 1])
  }

  /** Places the execution stages hold in every chain. */
  lemma ExecutionMeasured(spec: Spec, spans: seq<Span>, ts: Times)
    requires ProperChain(spans) && Recovers(spec, spans, ts)
    ensures COMPUTE_START in ts && COMPUTE_END in ts && spans[0].start in ts
  {
    var k :| 0 <= k < |spans| - 1 && spans[k].end == COMPUTE_START && spans[k + 1].end == COMPUTE_END;
    assert Measured(spans[k], ts) && Measured(spans[k + 1], ts) && Measured(spans[0], ts);
  }

  /** The push behind the previous execution is absorbed by the queue alone. */
  method PushBehind(spec: Spec, spans: seq<Span>, ts: Times, wait: int) returns (pushed: Times)
    requires ProperChain(spans) && RecoversExactly(spec, spans, ts)
    requires wait > 0 && COMPUTE_START in ts && spans[0].start in ts
    ensures Recovers(spec, spans, pushed) && COMPUTE_START in pushed && spans[0].start in pushed
    ensures pushed[COMPUTE_START] == ts[COMPUTE_START] + wait && pushed[spans[0].start] == ts[spans[0].start]
  {
    var k :| 0 <= k < |spans| - 1 && spans[k].end == COMPUTE_START && spans[k + 1].end == COMPUTE_END;
    SpanPlaces(spans, k);
    SpanPlaces(spans, 0);
    var at;
    pushed, at := ShiftFrom(ts, spans, COMPUTE_START, wait);
    assert at == k + 1;
    forall i | 0 <= i < |spans|
      ensures Measured(spans[i], pushed)
      ensures Duration(spans[i], pushed) == spec.Delay(spans[i].name) + if i == k then wait else 0
    {
      ShiftStretchesOne(spans, ts, pushed, at, wait, i);
    }
  }

  /** The member loop of independentCohort. */
  method Member(spec: Spec, spans: seq<Span>, start: int, serial: bool, earliest: int) returns (ts: Times)
    requires ProperChain(spans)
    ensures Recovers(spec, spans, ts) && COMPUTE_START in ts && COMPUTE_END in ts && spans[0].start in ts
    ensures serial ==> ts[COMPUTE_START] >= earliest
    ensures !serial ==> RecoversExactly(spec, spans, ts)
    ensures ts[spans[0].start] == start
  {
    ts := Walk(spec, spans, start);
    WalkRecovers(spec, spans, ts, start);
    ExecutionMeasured(spec, spans, ts);
    assert ChainStages(spans)[0] == spans[0].start && Elapsed(spec, spans, 0) == 0;
    if serial {
      var wait := earliest - ts[COMPUTE_START];
      if wait > 0 {
        ts := PushBehind(spec, spans, ts, wait);
        ExecutionMeasured(spec, spans, ts);
      }
    }
  }

  /** Member o of an independent cohort. */
  ghost predicate MemberOk(spec: Spec, spans: seq<Span>, start: int, exact: bool, ts: Times)
    requires spans != []
  {
    && Recovers(spec, spans, ts) && (exact ==> RecoversExactly(spec, spans, ts))
    && spans[0].start in ts && ts[spans[0].start] == start
  }

  ghost predicate CohortOk(spec: Spec, spans: seq<Span>, cohortStart: int, batchSize: nat, out: seq<Times>)
    requires spans != []
  {
    && (forall o :: 0 <= o < |out| ==>
          MemberOk(spec, spans, cohortStart + o * spec.memberStagger, batchSize != 1 || o == 0, out[o]))
    && (batchSize == 1 ==> Serialized(spec, out))
  }

  /**
   independentCohort. Every injected delay is recovered exactly, the backend queue's never less;
   where each member executes alone, executions are serialized with at least the injected gap,
   and where they share one, nothing is stretched at all.
   */
  method IndependentCohort(spec: Spec, spans: seq<Span>, cohortStart: int, batchSize: nat) returns (out: seq<Times>)
    requires ProperChain(spans)
    ensures |out| == spec.cohortSize && CohortOk(spec, spans, cohortStart, batchSize, out)
  {
    out := [];
    var prevComputeEnd := 0;
    for o := 0 to spec.cohortSize
      invariant |out| == o && CohortOk(spec, spans, cohortStart, batchSize, out)
      invariant o > 0 ==> COMPUTE_END in out[o - 1] && prevComputeEnd == out[o - 1][COMPUTE_END]
    {
      hide Recovers, RecoversExactly, ProperChain;
      var start := cohortStart + o * spec.memberStagger;
      var ts := Member(spec, spans, start, batchSize == 1 && o > 0, prevComputeEnd + spec.interExecutionGap);
      assert MemberOk(spec, spans, start, batchSize != 1 || o == 0, ts);
      hide MemberOk;
      prevComputeEnd := ts[COMPUTE_END];
      out := out + [ts];
    }
  }

  /* ---- The aggregate construction ---- */

  /** v is the earliest value recorded for the stage. */
  ghost predicate IsEarliest(ts: seq<Times>, s: Stage, v: int) {
    && (exists o :: 0 <= o < |ts| && s in ts[o] && ts[o][s] == v)
    && (forall o :: 0 <= o < |ts| && s in ts[o] ==> v <= ts[o][s])
  }

  ghost predicate SomeRecorded(ts: seq<Times>, s: Stage) {
    exists o :: 0 <= o < |ts| && s in ts[o]
  }

  /** firstOf: the earliest value recorded for one stage, zero if none was. */
  method FirstOf(ts: seq<Times>, s: Stage) returns (first: int)
    ensures SomeRecorded(ts, s) ==> IsEarliest(ts, s, first)
    ensures !SomeRecorded(ts, s) ==> first == 0
  {
    first := 0;
    var seen := false;
    for o := 0 to |ts|
      invariant seen <==> exists p :: 0 <= p < o && s in ts[p]
      invariant !seen ==> first == 0
      invariant seen ==> (exists p :: 0 <= p < o && s in ts[p] && ts[p][s] == first)
      invariant forall p :: 0 <= p < o && s in ts[p] ==> first <= ts[p][s]
    {
      if s in ts[o] && (!seen || ts[o][s] < first) {
        first, seen := ts[o][s], true;
      }
    }
  }

  /** v is the latest value recorded for the stage. */
  ghost predicate IsLatest(ts: seq<Times>, s: Stage, v: int) {
    && (exists o :: 0 <= o < |ts| && s in ts[o] && ts[o][s] == v)
    && (forall o :: 0 <= o < |ts| && s in ts[o] ==> ts[o][s] <= v)
  }

  ghost predicate SomeNotNegative(ts: seq<Times>, s: Stage) {
    exists o :: 0 <= o < |ts| && s in ts[o] && ts[o][s] >= 0
  }

  /**
   lastOf starts from zero: it is the latest value recorded if and only if some value is not negative, and
   else zero.
   */
  method LastOf(ts: seq<Times>, s: Stage) returns (last: int)
    ensures IsLatest(ts, s, last) <==> SomeNotNegative(ts, s)
    ensures !SomeNotNegative(ts, s) ==> last == 0
  {
    last := 0;
    for o := 0 to |ts|
      invariant last >= 0 && forall p :: 0 <= p < o && s in ts[p] ==> ts[p][s] <= last
      invariant last == 0 || exists p :: 0 <= p < o && s in ts[p] && ts[p][s] == last
    {
      if s in ts[o] && ts[o][s] > last {
        last := ts[o][s];
      }
    }
  }

  /** The instants a cohort's one envelope has. */
  datatype EnvelopeTimes = EnvelopeTimes(seal: int, send: int, adapterRecv: int, adapterSend: int, respRecv: int)

  /** Member o's arrival at the proxy. */
  ghost predicate ArrivedAt(spec: Spec, cohortStart: int, o: nat, ts: Times) {
    && SCHED in ts && ts[SCHED] == cohortStart + o * spec.memberStagger
    && CLIENT_SEND in ts && ts[CLIENT_SEND] == ts[SCHED] + spec.Delay(ReleaseToSend)
    && PROXY_RECV in ts && ts[PROXY_RECV] == ts[CLIENT_SEND] + spec.Delay(XReqHop1)
  }

  /** Member o's own part in the adapter's fan-out; serial says executions take turns on one instance. */
  ghost predicate ExecutedAt(spec: Spec, serial: bool, dispatch: int, o: nat, ts: Times) {
    && ADAPTER_DISPATCH in ts && ts[ADAPTER_DISPATCH] == dispatch + (if serial then o * spec.dispatchStagger else 0)
    && QUEUE_START in ts && ts[QUEUE_START] == ts[ADAPTER_DISPATCH] + spec.Delay(XReqHop3)
    && COMPUTE_START in ts && ts[COMPUTE_START] >= ts[QUEUE_START] + spec.Delay(QBackend)
    && (!serial || o == 0 ==> ts[COMPUTE_START] == ts[QUEUE_START] + spec.Delay(QBackend))
    && COMPUTE_END in ts && ts[COMPUTE_END] == ts[COMPUTE_START] + spec.Delay(SComp)
    && ADAPTER_RESULT in ts && ts[ADAPTER_RESULT] == ts[COMPUTE_END] + spec.Delay(XRespHop1)
  }

  /** What the member shares with its cohort, and its way back. */
  ghost predicate CarriedBy(spec: Spec, env: EnvelopeTimes, ts: Times) {
    && COHORT_SEAL in ts && ts[COHORT_SEAL] == env.seal && PROXY_SEND in ts && ts[PROXY_SEND] == env.send
    && ADAPTER_RECV in ts && ts[ADAPTER_RECV] == env.adapterRecv
    && ADAPTER_SEND in ts && ts[ADAPTER_SEND] == env.adapterSend
    && PROXY_RESP_RECV in ts && ts[PROXY_RESP_RECV] == env.respRecv
    && PROXY_FANOUT in ts && ts[PROXY_FANOUT] == env.respRecv + spec.Delay(FFanout)
    && CLIENT_RECV in ts && ts[CLIENT_RECV] == ts[PROXY_FANOUT] + spec.Delay(XRespHop3)
  }

  /** The envelope follows its members: sealed after the last arrival, answered after the last result. */
  ghost predicate Envelops(spec: Spec, env: EnvelopeTimes, out: seq<Times>) {
    && env.send == env.seal + spec.Delay(APack) && env.adapterRecv == env.send + spec.Delay(XReqHop2)
    && env.respRecv == env.adapterSend + spec.Delay(XRespHop2)
    && (forall o :: 0 <= o < |out| ==> PROXY_RECV in out[o] && out[o][PROXY_RECV] + spec.Delay(WForm) <= env.seal)
    && (exists o :: 0 <= o < |out| && PROXY_RECV in out[o] && out[o][PROXY_RECV] + spec.Delay(WForm) == env.seal)
    && (forall o :: 0 <= o < |out| ==>
          ADAPTER_RESULT in out[o] && out[o][ADAPTER_RESULT] + spec.Delay(ResponsePack) <= env.adapterSend)
    && (exists o :: 0 <= o < |out|
          && ADAPTER_RESULT in out[o] && out[o][ADAPTER_RESULT] + spec.Delay(ResponsePack) == env.adapterSend)
  }

  /** The members arrive on their own schedules. */
  method Arrivals(spec: Spec, cohortStart: int) returns (ts: seq<Times>)
    ensures |ts| == spec.cohortSize && forall o :: 0 <= o < |ts| ==> ArrivedAt(spec, cohortStart, o, ts[o])
  {
    ts := [];
    for o := 0 to spec.cohortSize
      invariant |ts| == o && forall p :: 0 <= p < o ==> ArrivedAt(spec, cohortStart, p, ts[p])
    {
      var sched := cohortStart + o * spec.memberStagger;
      var send := sched + spec.Delay(ReleaseToSend);
      ts := ts + [map[SCHED := sched, CLIENT_SEND := send, PROXY_RECV := send + spec.Delay(XReqHop1)]];
    }
  }

  /** The stages of the fan-out, which the arrivals leave alone. */
  const FANOUT: set<Stage> := {ADAPTER_DISPATCH, QUEUE_START, COMPUTE_START, COMPUTE_END, ADAPTER_RESULT}

  ghost predicate SameBut(a: Times, b: Times, changed: set<Stage>) {
    forall s: Stage :: s !in changed ==> (s in a <==> s in b) && (s in a ==> a[s] == b[s])
  }

  function Execution(spec: Spec, ts: Times, submitted: int, computeStart: int): Times {
    var computeEnd := computeStart + spec.Delay(SComp);
    ts[ADAPTER_DISPATCH := submitted][QUEUE_START := submitted + spec.Delay(XReqHop3)][COMPUTE_START := computeStart]
      [COMPUTE_END := computeEnd][ADAPTER_RESULT := computeEnd + spec.Delay(XRespHop1)]
  }

  /** The execution part of aggregateCohort: one window for all at V=on, one after another at V=off. */
  method FanOutStages(spec: Spec, given: seq<Times>, dispatch: int, serial: bool) returns (ts: seq<Times>)
    ensures |ts| == |given|
    ensures forall o :: 0 <= o < |ts| ==>
            ExecutedAt(spec, serial, dispatch, o, ts[o]) && SameBut(given[o], ts[o], FANOUT)
    ensures serial ==> Serialized(spec, ts)
  {
    ts := [];
    var prevComputeEnd := 0;
    for o := 0 to |given|
      invariant |ts| == o
      invariant forall p :: 0 <= p < o ==>
                ExecutedAt(spec, serial, dispatch, p, ts[p]) && SameBut(given[p], ts[p], FANOUT)
      invariant serial ==> Serialized(spec, ts)
      invariant o > 0 ==> COMPUTE_END in ts[o - 1] && prevComputeEnd == ts[o - 1][COMPUTE_END]
    {
      var submitted := if serial then dispatch + o * spec.dispatchStagger else dispatch;
      var computeStart := submitted + spec.Delay(XReqHop3) + spec.Delay(QBackend);
      if serial && o > 0 && prevComputeEnd + spec.interExecutionGap > computeStart {
        computeStart := prevComputeEnd + spec.interExecutionGap;
      }
      var next := Execution(spec, given[o], submitted, computeStart);
      assert ExecutedAt(spec, serial, dispatch, o, next) && SameBut(given[o], next, FANOUT);
      hide ExecutedAt, SameBut;
      prevComputeEnd := next[COMPUTE_END];
      ts := ts + [next];
    }
  }

  const SHARED: set<Stage> := ENVELOPE_STAGES + {PROXY_FANOUT, CLIENT_RECV}

  function Carry(spec: Spec, ts: Times, env: EnvelopeTimes): Times {
    var fanout := env.respRecv + spec.Delay(FFanout);
    ts[COHORT_SEAL := env.seal][PROXY_SEND := env.send]
      [ADAPTER_RECV := env.adapterRecv][ADAPTER_SEND := env.adapterSend]
      [PROXY_RESP_RECV := env.respRecv][PROXY_FANOUT := fanout][CLIENT_RECV := fanout + spec.Delay(XRespHop3)]
  }

  /** An aggregate cohort: arrivals, fan-out and envelope, as the path would have produced them. */
  ghost predicate AggregateOk(spec: Spec, cohortStart: int, serial: bool, env: EnvelopeTimes, out: seq<Times>) {
    && |out| == spec.cohortSize && Envelops(spec, env, out)
    && (forall o :: 0 <= o < |out| ==>
          && ArrivedAt(spec, cohortStart, o, out[o]) && CarriedBy(spec, env, out[o])
          && ExecutedAt(spec, serial, env.adapterRecv + spec.Delay(AdapterUnpack), o, out[o]))
    && (serial ==> Serialized(spec, out))
  }

  lemma CarryKeeps(spec: Spec, ts: Times, env: EnvelopeTimes)
    ensures CarriedBy(spec, env, Carry(spec, ts, env)) && SameBut(ts, Carry(spec, ts, env), SHARED)
  {
  }

  lemma SameParts(spec: Spec, cohortStart: int, serial: bool, dispatch: int, o: nat, a: Times, b: Times)
    ensures ArrivedAt(spec, cohortStart, o, a) && SameBut(a, b, FANOUT) ==> ArrivedAt(spec, cohortStart, o, b)
    ensures ArrivedAt(spec, cohortStart, o, a) && SameBut(a, b, SHARED) ==> ArrivedAt(spec, cohortStart, o, b)
    ensures ExecutedAt(spec, serial, dispatch, o, a) && SameBut(a, b, SHARED) ==>
            ExecutedAt(spec, serial, dispatch, o, b)
  {
  }

  lemma ArrivalsForward(spec: Spec, cohortStart: int, ts: seq<Times>)
    requires cohortStart >= 0 && forall o :: 0 <= o < |ts| ==> ArrivedAt(spec, cohortStart, o, ts[o])
    ensures forall o :: 0 <= o < |ts| ==> PROXY_RECV in ts[o] && ts[o][PROXY_RECV] >= 0
  {
    forall o | 0 <= o < |ts| ensures PROXY_RECV in ts[o] && ts[o][PROXY_RECV] >= 0 {
      assert ArrivedAt(spec, cohortStart, o, ts[o]) && o * spec.memberStagger >= 0;
    }
  }

  lemma ResultsForward(spec: Spec, serial: bool, dispatch: int, ts: seq<Times>)
    requires dispatch >= 0 && forall o :: 0 <= o < |ts| ==> ExecutedAt(spec, serial, dispatch, o, ts[o])
    ensures forall o :: 0 <= o < |ts| ==> ADAPTER_RESULT in ts[o] && ts[o][ADAPTER_RESULT] >= 0
  {
    forall o | 0 <= o < |ts| ensures ADAPTER_RESULT in ts[o] && ts[o][ADAPTER_RESULT] >= 0 {
      assert ExecutedAt(spec, serial, dispatch, o, ts[o]) && o * spec.dispatchStagger >= 0;
    }
  }

  /** The last loop of aggregateCohort. */
  method CarryAll(spec: Spec, cohortStart: int, serial: bool, env: EnvelopeTimes, ts: seq<Times>)
    returns (out: seq<Times>)
    requires Envelops(spec, env, ts) && |ts| == spec.cohortSize && (serial ==> Serialized(spec, ts))
    requires forall o :: 0 <= o < |ts| ==>
               && ArrivedAt(spec, cohortStart, o, ts[o])
               && ExecutedAt(spec, serial, env.adapterRecv + spec.Delay(AdapterUnpack), o, ts[o])
    ensures AggregateOk(spec, cohortStart, serial, env, out)
  {
    out := [];
    for n := 0 to |ts|
      invariant |out| == n && forall o :: 0 <= o < n ==> out[o] == Carry(spec, ts[o], env)
    {
      out := out + [Carry(spec, ts[n], env)];
    }
    AllCarried(spec, cohortStart, serial, env, ts, out);
  }

  lemma OneCarried(spec: Spec, cohortStart: int, serial: bool, env: EnvelopeTimes, o: nat, a: Times, b: Times)
    requires ArrivedAt(spec, cohortStart, o, a) && b == Carry(spec, a, env)
    requires ExecutedAt(spec, serial, env.adapterRecv + spec.Delay(AdapterUnpack), o, a)
    ensures SameBut(a, b, SHARED) && CarriedBy(spec, env, b) && ArrivedAt(spec, cohortStart, o, b)
    ensures ExecutedAt(spec, serial, env.adapterRecv + spec.Delay(AdapterUnpack), o, b)
    ensures PROXY_RECV in a ==> PROXY_RECV in b && b[PROXY_RECV] == a[PROXY_RECV]
    ensures ADAPTER_RESULT in a ==> ADAPTER_RESULT in b && b[ADAPTER_RESULT] == a[ADAPTER_RESULT]
  {
    CarryKeeps(spec, a, env);
    hide Carry;
    SameParts(spec, cohortStart, serial, env.adapterRecv + spec.Delay(AdapterUnpack), o, a, b);
  }

  lemma AllCarried(spec: Spec, cohortStart: int, serial: bool, env: EnvelopeTimes, ts: seq<Times>, out: seq<Times>)
    requires Envelops(spec, env, ts) && |ts| == |out| == spec.cohortSize && (serial ==> Serialized(spec, ts))
    requires forall o :: 0 <= o < |ts| ==>
               && ArrivedAt(spec, cohortStart, o, ts[o])
               && ExecutedAt(spec, serial, env.adapterRecv + spec.Delay(AdapterUnpack), o, ts[o])
    requires forall o :: 0 <= o < |out| ==> out[o] == Carry(spec, ts[o], env)
    ensures AggregateOk(spec, cohortStart, serial, env, out)
  {
    hide Carry, ArrivedAt, ExecutedAt, CarriedBy, SameBut;
    forall o | 0 <= o < |out|
      ensures SameBut(ts[o], out[o], SHARED) && CarriedBy(spec, env, out[o])
      ensures ArrivedAt(spec, cohortStart, o, out[o])
      ensures ExecutedAt(spec, serial, env.adapterRecv + spec.Delay(AdapterUnpack), o, out[o])
      ensures PROXY_RECV in ts[o] ==> PROXY_RECV in out[o] && out[o][PROXY_RECV] == ts[o][PROXY_RECV]
      ensures ADAPTER_RESULT in ts[o] ==> ADAPTER_RESULT in out[o] && out[o][ADAPTER_RESULT] == ts[o][ADAPTER_RESULT]
    {
      OneCarried(spec, cohortStart, serial, env, o, ts[o], out[o]);
    }
    hide Serialized, Envelops;
    EnvelopsSame(spec, env, ts, out);
    if serial { SerializedSame(spec, ts, out); }
  }

  lemma SerializedSame(spec: Spec, ts: seq<Times>, out: seq<Times>)
    requires Serialized(spec, ts) && |out| == |ts| && forall o :: 0 <= o < |out| ==> SameBut(ts[o], out[o], SHARED)
    ensures Serialized(spec, out)
  {
    forall o | 0 <= o < |out| - 1 ensures After(spec, out[o], out[o + 1]) {
      assert After(spec, ts[o], ts[o + 1]) && SameBut(ts[o], out[o], SHARED) && SameBut(ts[o + 1], out[o + 1], SHARED);
    }
  }

  lemma EnvelopsSame(spec: Spec, env: EnvelopeTimes, ts: seq<Times>, out: seq<Times>)
    requires Envelops(spec, env, ts) && |out| == |ts|
    requires forall o :: 0 <= o < |out| && PROXY_RECV in ts[o] ==>
             PROXY_RECV in out[o] && out[o][PROXY_RECV] == ts[o][PROXY_RECV]
    requires forall o :: 0 <= o < |out| && ADAPTER_RESULT in ts[o] ==>
               ADAPTER_RESULT in out[o] && out[o][ADAPTER_RESULT] == ts[o][ADAPTER_RESULT]
    ensures Envelops(spec, env, out)
  {
    var a :| 0 <= a < |ts| && PROXY_RECV in ts[a] && ts[a][PROXY_RECV] + spec.Delay(WForm) == env.seal;
    var r :| 0 <= r < |ts| && ADAPTER_RESULT in ts[r]
             && ts[r][ADAPTER_RESULT] + spec.Delay(ResponsePack) == env.adapterSend;
    assert out[a][PROXY_RECV] + spec.Delay(WForm) == env.seal;
    assert out[r][ADAPTER_RESULT] + spec.Delay(ResponsePack) == env.adapterSend;
  }

  /** aggregateCohort: assembled, sealed, sent, executed and answered as one object. */
  method AggregateCohort(spec: Spec, cohortStart: int, serial: bool) returns (env: EnvelopeTimes, out: seq<Times>)
    requires spec.cohortSize > 0 && cohortStart >= 0
    ensures AggregateOk(spec, cohortStart, serial, env, out)
  {
    hide ExecutedAt, SameBut, ArrivedAt, Serialized, Carry, CarriedBy;
    var arrivals := Arrivals(spec, cohortStart);
    ArrivalsForward(spec, cohortStart, arrivals);
    var lastArrival := LastOf(arrivals, PROXY_RECV);
    assert PROXY_RECV in arrivals[0] && SomeNotNegative(arrivals, PROXY_RECV);
    var seal := lastArrival + spec.Delay(WForm);
    var send := seal + spec.Delay(APack);
    var adapterRecv := send + spec.Delay(XReqHop2);
    var dispatch := adapterRecv + spec.Delay(AdapterUnpack);
    var ts := FanOutStages(spec, arrivals, dispatch, serial);
    ResultsForward(spec, serial, dispatch, ts);
    var lastResult := LastOf(ts, ADAPTER_RESULT);
    assert ADAPTER_RESULT in ts[0] && SomeNotNegative(ts, ADAPTER_RESULT);
    var adapterSend := lastResult + spec.Delay(ResponsePack);
    env := EnvelopeTimes(seal, send, adapterRecv, adapterSend, adapterSend + spec.Delay(XRespHop2));
    forall o | 0 <= o < |ts|
      ensures ArrivedAt(spec, cohortStart, o, ts[o]) && PROXY_RECV in ts[o]
      ensures ts[o][PROXY_RECV] == arrivals[o][PROXY_RECV]
    {
      SameParts(spec, cohortStart, serial, dispatch, o, arrivals[o], ts[o]);
      SameArrival(arrivals[o], ts[o]);
    }
    assert Envelops(spec, env, ts) by {
      var a :| 0 <= a < |arrivals| && PROXY_RECV in arrivals[a] && arrivals[a][PROXY_RECV] == lastArrival;
      assert ts[a][PROXY_RECV] + spec.Delay(WForm) == env.seal;
      var r :| 0 <= r < |ts| && ADAPTER_RESULT in ts[r] && ts[r][ADAPTER_RESULT] == lastResult;
      assert ts[r][ADAPTER_RESULT] + spec.Delay(ResponsePack) == env.adapterSend;
    }
    out := CarryAll(spec, cohortStart, serial, env, ts);
  }

  lemma SameArrival(a: Times, b: Times)
    requires SameBut(a, b, FANOUT) && PROXY_RECV in a
    ensures PROXY_RECV in b && b[PROXY_RECV] == a[PROXY_RECV]
  {
  }

  /* ---- What the decomposition recovers from an aggregate cohort ---- */

  /** The stages a member may wait in for the rest of its cohort. */
  predicate Shares(name: SpanName) {
    name in {WForm, AdapterUnpack, QBackend, ResponsePack}
  }

  /**
   Each member's decomposition returns the injected delay of every span it walks alone, and
   never less for the four in which it waits for its cohort; the smallest formation wait in
   the cohort is exactly the injected one.
   */
  lemma AggregateRecovers(spec: Spec, cohortStart: int, serial: bool, env: EnvelopeTimes, out: seq<Times>)
    requires AggregateOk(spec, cohortStart, serial, env, out)
    ensures forall o, k :: 0 <= o < |out| && 0 <= k < |SharedChain(true)| ==>
              && Measured(SharedChain(true)[k], out[o])
              && Duration(SharedChain(true)[k], out[o]) >= spec.Delay(SharedChain(true)[k].name)
              && (!Shares(SharedChain(true)[k].name) ==>
                    Duration(SharedChain(true)[k], out[o]) == spec.Delay(SharedChain(true)[k].name))
    ensures exists o :: 0 <= o < |out| && out[o][COHORT_SEAL] - out[o][PROXY_RECV] == spec.Delay(WForm)
  {
    hide Serialized;
    forall o, k | 0 <= o < |out| && 0 <= k < |SharedChain(true)|
      ensures Measured(SharedChain(true)[k], out[o])
      ensures Duration(SharedChain(true)[k], out[o]) >= spec.Delay(SharedChain(true)[k].name)
      ensures !Shares(SharedChain(true)[k].name) ==>
                Duration(SharedChain(true)[k], out[o]) == spec.Delay(SharedChain(true)[k].name)
    {
      MemberRecovers(spec, cohortStart, serial, env, out, o, k);
    }
    var a :| 0 <= a < |out| && PROXY_RECV in out[a] && out[a][PROXY_RECV] + spec.Delay(WForm) == env.seal;
    assert CarriedBy(spec, env, out[a]);
  }

  lemma MemberRecovers(spec: Spec, cohortStart: int, serial: bool, env: EnvelopeTimes, out: seq<Times>, o: nat, k: nat)
    requires AggregateOk(spec, cohortStart, serial, env, out) && o < |out| && k < |SharedChain(true)|
    ensures Measured(SharedChain(true)[k], out[o])
    ensures Duration(SharedChain(true)[k], out[o]) >= spec.Delay(SharedChain(true)[k].name)
    ensures !Shares(SharedChain(true)[k].name) ==>
              Duration(SharedChain(true)[k], out[o]) == spec.Delay(SharedChain(true)[k].name)
  {
    hide Serialized;
    var ts := out[o];
    assert ArrivedAt(spec, cohortStart, o, ts) && CarriedBy(spec, env, ts);
    assert ExecutedAt(spec, serial, env.adapterRecv + spec.Delay(AdapterUnpack), o, ts);
    assert o * spec.dispatchStagger >= 0;
    if k < 4 {
      assert SharedChain(true)[k] == AGGREGATE_HEAD[k];
    } else {
      assert SharedChain(true)[k] == SHARED_TAIL[k - 4];
    }
  }

  /** The joined paths of a cohort carry these instants. */
  ghost predicate CarriesTimes(members: seq<Joined>, out: seq<Times>) {
    && |members| == |out|
    && forall o, s: Stage :: 0 <= o < |out| ==> s in members[o].presence && s in out[o] && members[o].ts[s] == out[o][s]
  }

  /**
   Two stages the cohort reaches the same way, a fixed delay apart for every member, are that far apart for
   the cohort.
   */
  lemma FixedApart(members: seq<Joined>, out: seq<Times>, at: Times, s: Stage, e: Stage, d: int)
    requires CarriesTimes(members, out) && CohortTimes(members, at) && out != [] && (PacedByLast(s) <==> PacedByLast(e))
    requires forall o :: 0 <= o < |out| ==> out[o][e] == out[o][s] + d
    ensures s in at && e in at && at[e] - at[s] == d
  {
    Present(members, out, at, s);
    Present(members, out, at, e);
    var i :| 0 <= i < |members| && members[i].ts[s] == at[s];
    var k :| 0 <= k < |members| && members[k].ts[e] == at[e];
    assert out[i][e] == out[i][s] + d && out[k][e] == out[k][s] + d;
    assert members[i].ts[e] == at[s] + d && members[k].ts[s] == at[e] - d;
  }

  lemma Present(members: seq<Joined>, out: seq<Times>, at: Times, s: Stage)
    requires CarriesTimes(members, out) && CohortTimes(members, at) && out != []
    ensures s in at && Pace(members, s, at[s])
  {
    assert s in members[0].presence;
    assert SomeCarry(members, s);
  }

  /** A stage all members share has its one value. */
  lemma SharedAt(members: seq<Joined>, out: seq<Times>, at: Times, s: Stage, t: int)
    requires CarriesTimes(members, out) && CohortTimes(members, at)
    requires out != [] && forall o :: 0 <= o < |out| ==> out[o][s] == t
    ensures s in at && at[s] == t
  {
    Present(members, out, at, s);
    var i :| 0 <= i < |members| && members[i].ts[s] == at[s];
    assert out[i][s] == t;
  }

  /** A stage the first member reaches first. */
  lemma FirstAt(members: seq<Joined>, out: seq<Times>, at: Times, s: Stage)
    requires CarriesTimes(members, out) && CohortTimes(members, at) && out != [] && !PacedByLast(s)
    requires forall o :: 0 <= o < |out| ==> out[0][s] <= out[o][s]
    ensures s in at && at[s] == out[0][s]
  {
    Present(members, out, at, s);
    var i :| 0 <= i < |members| && members[i].ts[s] == at[s];
    assert out[0][s] <= out[i][s] && members[0].ts[s] == out[0][s];
  }

  /** A stage member k reaches last. */
  lemma LastAt(members: seq<Joined>, out: seq<Times>, at: Times, s: Stage, k: nat)
    requires CarriesTimes(members, out) && CohortTimes(members, at) && k < |out| && PacedByLast(s)
    requires forall o :: 0 <= o < |out| ==> out[o][s] <= out[k][s]
    ensures s in at && at[s] == out[k][s]
  {
    Present(members, out, at, s);
    var i :| 0 <= i < |members| && members[i].ts[s] == at[s];
    assert out[i][s] <= out[k][s] && members[k].ts[s] == out[k][s];
  }

  /** Every instant of member o, in the terms the construction gives it. */
  lemma MemberTimes(spec: Spec, cohortStart: int, serial: bool, env: EnvelopeTimes, out: seq<Times>, o: nat)
    requires AggregateOk(spec, cohortStart, serial, env, out) && o < |out|
    ensures ArrivedAt(spec, cohortStart, o, out[o]) && CarriedBy(spec, env, out[o])
    ensures ExecutedAt(spec, serial, env.adapterRecv + spec.Delay(AdapterUnpack), o, out[o])
    ensures ArrivedAt(spec, cohortStart, 0, out[0]) && out[0][PROXY_RECV] <= out[o][PROXY_RECV]
    ensures ExecutedAt(spec, serial, env.adapterRecv + spec.Delay(AdapterUnpack), 0, out[0])
    ensures out[0][ADAPTER_DISPATCH] <= out[o][ADAPTER_DISPATCH] && out[0][QUEUE_START] <= out[o][QUEUE_START]
    ensures out[0][COMPUTE_START] <= out[o][COMPUTE_START]
  {
    hide Serialized, Envelops;
    assert o * spec.memberStagger >= 0 && o * spec.dispatchStagger >= 0;
  }

  /**
   The cohort's own decomposition returns every injected delay exactly, also of the spans its
   members wait in, but for formation, which is the wait of its first arrival, and execution,
   which runs from the first member's start to the latest end.
   */
  lemma CohortRecovers(spec: Spec, cohortStart: int, serial: bool, env: EnvelopeTimes, out: seq<Times>,
                       members: seq<Joined>, at: Times, k: nat)
    requires AggregateOk(spec, cohortStart, serial, env, out) && CarriesTimes(members, out) && CohortTimes(members, at)
    requires k < |SharedChain(true)| && out != []
    ensures Measured(SharedChain(true)[k], at)
    ensures SharedChain(true)[k].name !in {WForm, SComp} ==>
              Duration(SharedChain(true)[k], at) == spec.Delay(SharedChain(true)[k].name)
    ensures SharedChain(true)[k].name == WForm ==> Duration(SharedChain(true)[k], at) == env.seal - out[0][PROXY_RECV]
    ensures SharedChain(true)[k].name == SComp ==>
              && COMPUTE_START in out[0]
              && IsLatest(out, COMPUTE_END, out[0][COMPUTE_START] + Duration(SharedChain(true)[k], at))
  {
    hide Serialized, CohortTimes, CarriesTimes, ArrivedAt, CarriedBy, ExecutedAt, Envelops, AggregateOk, IsLatest;
    var span := SharedChain(true)[k];
    if k < 4 {
      assert span == AGGREGATE_HEAD[k];
      HeadRecovers(spec, cohortStart, serial, env, out, members, at, k);
    } else {
      assert span == SHARED_TAIL[k - 4];
      if k < 9 {
        OutwardRecovers(spec, cohortStart, serial, env, out, members, at, k - 4);
      } else {
        BackRecovers(spec, cohortStart, serial, env, out, members, at, k - 4);
      }
    }
  }

  lemma HeadRecovers(spec: Spec, cohortStart: int, serial: bool, env: EnvelopeTimes, out: seq<Times>,
                     members: seq<Joined>, at: Times, k: nat)
    requires AggregateOk(spec, cohortStart, serial, env, out) && CarriesTimes(members, out) && CohortTimes(members, at)
    requires k < 4 && out != []
    ensures Measured(AGGREGATE_HEAD[k], at)
    ensures k != 2 ==> Duration(AGGREGATE_HEAD[k], at) == spec.Delay(AGGREGATE_HEAD[k].name)
    ensures k == 2 ==> Duration(AGGREGATE_HEAD[k], at) == env.seal - out[0][PROXY_RECV]
  {
    hide CohortTimes, CarriesTimes, ExecutedAt, Serialized;
    forall o | 0 <= o < |out|
      ensures ArrivedAt(spec, cohortStart, o, out[o]) && CarriedBy(spec, env, out[o])
      ensures out[0][PROXY_RECV] <= out[o][PROXY_RECV]
    {
      MemberTimes(spec, cohortStart, serial, env, out, o);
    }
    match k
    case 0 => FixedApart(members, out, at, SCHED, CLIENT_SEND, spec.Delay(ReleaseToSend));
    case 1 => FixedApart(members, out, at, CLIENT_SEND, PROXY_RECV, spec.Delay(XReqHop1));
    case 2 =>
      FirstAt(members, out, at, PROXY_RECV);
      SharedAt(members, out, at, COHORT_SEAL, env.seal);
    case 3 => FixedApart(members, out, at, COHORT_SEAL, PROXY_SEND, spec.Delay(APack));
  }

  lemma OutwardRecovers(spec: Spec, cohortStart: int, serial: bool, env: EnvelopeTimes, out: seq<Times>,
                        members: seq<Joined>, at: Times, k: nat)
    requires AggregateOk(spec, cohortStart, serial, env, out) && CarriesTimes(members, out) && CohortTimes(members, at)
    requires k < 5 && out != []
    ensures Measured(SHARED_TAIL[k], at)
    ensures k != 4 ==> Duration(SHARED_TAIL[k], at) == spec.Delay(SHARED_TAIL[k].name)
    ensures k == 4 ==>
              && COMPUTE_START in out[0]
              && IsLatest(out, COMPUTE_END, out[0][COMPUTE_START] + Duration(SHARED_TAIL[k], at))
  {
    hide CohortTimes, CarriesTimes, ArrivedAt, Serialized, IsLatest;
    forall o | 0 <= o < |out|
      ensures CarriedBy(spec, env, out[o])
      ensures ExecutedAt(spec, serial, env.adapterRecv + spec.Delay(AdapterUnpack), o, out[o])
      ensures out[0][ADAPTER_DISPATCH] <= out[o][ADAPTER_DISPATCH] && out[0][QUEUE_START] <= out[o][QUEUE_START]
      ensures out[0][COMPUTE_START] <= out[o][COMPUTE_START]
    {
      MemberTimes(spec, cohortStart, serial, env, out, o);
    }
    match k
    case 0 => FixedApart(members, out, at, PROXY_SEND, ADAPTER_RECV, spec.Delay(XReqHop2));
    case 1 =>
      SharedAt(members, out, at, ADAPTER_RECV, env.adapterRecv);
      FirstAt(members, out, at, ADAPTER_DISPATCH);
    case 2 => FixedApart(members, out, at, ADAPTER_DISPATCH, QUEUE_START, spec.Delay(XReqHop3));
    case 3 =>
      FirstAt(members, out, at, QUEUE_START);
      FirstAt(members, out, at, COMPUTE_START);
    case 4 =>
      FirstAt(members, out, at, COMPUTE_START);
      LastIsLatest(members, out, at, COMPUTE_END);
  }

  lemma LastIsLatest(members: seq<Joined>, out: seq<Times>, at: Times, s: Stage)
    requires CarriesTimes(members, out) && CohortTimes(members, at) && out != [] && PacedByLast(s)
    ensures s in at && IsLatest(out, s, at[s])
  {
    Present(members, out, at, s);
    var i :| 0 <= i < |members| && members[i].ts[s] == at[s];
    assert s in out[i] && out[i][s] == at[s];
    assert forall o :: 0 <= o < |out| && s in out[o] ==> members[o].ts[s] == out[o][s];
  }

  lemma BackRecovers(spec: Spec, cohortStart: int, serial: bool, env: EnvelopeTimes, out: seq<Times>,
                     members: seq<Joined>, at: Times, k: nat)
    requires AggregateOk(spec, cohortStart, serial, env, out) && CarriesTimes(members, out) && CohortTimes(members, at)
    requires 5 <= k < 10 && out != []
    ensures Measured(SHARED_TAIL[k], at) && Duration(SHARED_TAIL[k], at) == spec.Delay(SHARED_TAIL[k].name)
  {
    hide CohortTimes, CarriesTimes, ArrivedAt, Serialized;
    forall o | 0 <= o < |out|
      ensures CarriedBy(spec, env, out[o])
      ensures ExecutedAt(spec, serial, env.adapterRecv + spec.Delay(AdapterUnpack), o, out[o])
    {
      MemberTimes(spec, cohortStart, serial, env, out, o);
    }
    match k
    case 5 => FixedApart(members, out, at, COMPUTE_END, ADAPTER_RESULT, spec.Delay(XRespHop1));
    case 6 =>
      var r :| 0 <= r < |out| && ADAPTER_RESULT in out[r]
               && out[r][ADAPTER_RESULT] + spec.Delay(ResponsePack) == env.adapterSend;
      LastAt(members, out, at, ADAPTER_RESULT, r);
      SharedAt(members, out, at, ADAPTER_SEND, env.adapterSend);
    case 7 => FixedApart(members, out, at, ADAPTER_SEND, PROXY_RESP_RECV, spec.Delay(XRespHop2));
    case 8 => FixedApart(members, out, at, PROXY_RESP_RECV, PROXY_FANOUT, spec.Delay(FFanout));
    case 9 => FixedApart(members, out, at, PROXY_FANOUT, CLIENT_RECV, spec.Delay(XRespHop3));
  }

  /* ---- Serialization ---- */

  /** The execution windows of a cohort's members, each under its own request. */
  function Windows(out: seq<Times>, cohort: uint32): (w: seq<Executions.Window>)
    requires |out| <= TWO_32 && forall o :: 0 <= o < |out| ==> COMPUTE_START in out[o] && COMPUTE_END in out[o]
    ensures |w| == |out|
  {
    seq(|out|, o requires 0 <= o < |out| =>
      Executions.Window(LogicalRequest(cohort, o), out[o][COMPUTE_START], out[o][COMPUTE_END]))
  }

  /** Executions that all take the same time d and follow one another. */
  ghost predicate InTurn(w: seq<Executions.Window>, d: int) {
    && d >= 0 && (forall i :: 0 <= i < |w| ==> w[i].end == w[i].start + d)
    && (forall i :: 0 <= i < |w| - 1 ==> w[i].end <= w[i + 1].start)
  }

  lemma {:induction false} InTurnApart(w: seq<Executions.Window>, d: int, i: nat, j: nat)
    requires InTurn(w, d) && i < j < |w|
    ensures w[i].end <= w[j].start
    decreases j
  {
    if i < j - 1 {
      InTurnApart(w, d, i, j - 1);
      assert w[j - 1].end <= w[(j - 1) + 1].start;
    }
  }

  /** However a sort orders them, executions in turn are never reported to overlap. */
  lemma InTurnPasses(w: seq<Executions.Window>, d: int, v: seq<Executions.Window>)
    requires InTurn(w, d) && Executions.SortOf(v, w)
    ensures Executions.Overlaps(v) == 0
  {
    forall i, j | 0 <= i < j < |w| ensures Executions.Disjoint(w[i], w[j]) {
      InTurnApart(w, d, i, j);
    }
    Executions.OneOrderPasses(v, w);
  }

  /** Every fixture whose executions are serialized passes the serialization check, at either factor level. */
  lemma SerializedPasses(spec: Spec, out: seq<Times>, cohort: uint32, v: seq<Executions.Window>)
    requires Serialized(spec, out) && |out| <= TWO_32
    requires forall o :: 0 <= o < |out| ==>
               && COMPUTE_START in out[o] && COMPUTE_END in out[o]
               && out[o][COMPUTE_END] == out[o][COMPUTE_START] + spec.Delay(SComp)
    requires Executions.SortOf(v, Windows(out, cohort))
    ensures Executions.Overlaps(v) == 0
  {
    var w := Windows(out, cohort);
    forall i | 0 <= i < |w| - 1 ensures w[i].end <= w[i + 1].start {
      assert After(spec, out[i], out[i + 1]);
    }
    InTurnPasses(w, spec.Delay(SComp), v);
  }

  lemma IndependentExecutes(spec: Spec, spans: seq<Span>, cohortStart: int, batchSize: nat, out: seq<Times>, o: nat)
    requires ProperChain(spans) && CohortOk(spec, spans, cohortStart, batchSize, out) && o < |out|
    requires Span(SComp, COMPUTE_START, COMPUTE_END, true) in spans
    ensures COMPUTE_START in out[o] && COMPUTE_END in out[o]
    ensures out[o][COMPUTE_END] == out[o][COMPUTE_START] + spec.Delay(SComp)
  {
    assert MemberOk(spec, spans, cohortStart + o * spec.memberStagger, batchSize != 1 || o == 0, out[o]);
    var k :| 0 <= k < |spans| && spans[k] == Span(SComp, COMPUTE_START, COMPUTE_END, true);
    assert Measured(spans[k], out[o]) && Duration(spans[k], out[o]) == spec.Delay(SComp);
  }

  /**
   Every independent cohort that executes one by one passes the serialization check, in every cell it can
   be built for.
   */
  lemma IndependentPasses(spec: Spec, cell: Cell, cohortStart: int, out: seq<Times>, cohort: uint32)
    requires !cell.UnknownCell? && Chain(cell).Some? && ProperChain(Chain(cell).value)
    requires CohortOk(spec, Chain(cell).value, cohortStart, 1, out) && |out| <= TWO_32
    ensures forall o :: 0 <= o < |out| ==> COMPUTE_START in out[o] && COMPUTE_END in out[o]
    ensures forall v :: Executions.SortOf(v, Windows(out, cohort)) ==> Executions.Overlaps(v) == 0
  {
    hide Chain, ProperChain, CohortOk, Serialized, Windows, Executions.SortOf, Executions.Overlaps;
    ChainIsProper(cell);
    forall o | 0 <= o < |out|
      ensures COMPUTE_START in out[o] && COMPUTE_END in out[o]
      ensures out[o][COMPUTE_END] == out[o][COMPUTE_START] + spec.Delay(SComp)
    {
      IndependentExecutes(spec, Chain(cell).value, cohortStart, 1, out, o);
    }
    assert Serialized(spec, out) by { OneByOneSerialized(spec, Chain(cell).value, cohortStart, out); }
    forall v | Executions.SortOf(v, Windows(out, cohort)) ensures Executions.Overlaps(v) == 0 {
      SerializedPasses(spec, out, cohort, v);
    }
  }

  lemma OneByOneSerialized(spec: Spec, spans: seq<Span>, cohortStart: int, out: seq<Times>)
    requires spans != [] && CohortOk(spec, spans, cohortStart, 1, out)
    ensures Serialized(spec, out)
  {
  }

  /** So does every aggregate cohort that executes one by one. */
  lemma AggregatePasses(spec: Spec, cohortStart: int, env: EnvelopeTimes, out: seq<Times>, cohort: uint32)
    requires AggregateOk(spec, cohortStart, true, env, out) && |out| <= TWO_32
    ensures forall o :: 0 <= o < |out| ==> COMPUTE_START in out[o] && COMPUTE_END in out[o]
    ensures forall v :: Executions.SortOf(v, Windows(out, cohort)) ==> Executions.Overlaps(v) == 0
  {
    hide Serialized, Windows, Executions.SortOf, Executions.Overlaps, ArrivedAt, CarriedBy, Envelops;
    forall o | 0 <= o < |out|
      ensures COMPUTE_START in out[o] && COMPUTE_END in out[o]
      ensures out[o][COMPUTE_END] == out[o][COMPUTE_START] + spec.Delay(SComp)
    {
      assert ExecutedAt(spec, true, env.adapterRecv + spec.Delay(AdapterUnpack), o, out[o]);
    }
    forall v | Executions.SortOf(v, Windows(out, cohort)) ensures Executions.Overlaps(v) == 0 {
      SerializedPasses(spec, out, cohort, v);
    }
  }

  /** Where a cell's chain reaches execution. */
  function ComputeAt(cell: Cell): nat {
    if cell == D0 then 3 else 7
  }

  lemma QueueEndsAtCompute(cell: Cell, k: nat)
    requires Chain(cell).Some? && k < |Chain(cell).value|
    ensures |Chain(cell).value| == (if cell == D0 then 6 else 14)
    ensures Chain(cell).value[k].end == COMPUTE_START <==> Chain(cell).value[k].name == QBackend
    ensures k == ComputeAt(cell) ==> Chain(cell).value[k].end == COMPUTE_START
    ensures k == ComputeAt(cell) + 1 ==> Chain(cell).value[k] == Span(SComp, COMPUTE_START, COMPUTE_END, true)
  {
    if cell == D0 {
      assert Chain(cell).value[k] == DIRECT[k];
    } else if k < 4 {
      assert Chain(cell).value[k] == (if cell.AggregatesEnvelopes() then AGGREGATE_HEAD else INDEPENDENT_HEAD)[k];
    } else {
      assert Chain(cell).value[k] == SHARED_TAIL[k - 4];
    }
  }

  lemma ChainLength(cell: Cell)
    requires !cell.UnknownCell?
    ensures Chain(cell).Some? && |Chain(cell).value| == if cell == D0 then 6 else 14
  {
  }

  lemma ReachesExecution(cell: Cell)
    requires !cell.UnknownCell? && Chain(cell).Some?
    ensures var spans := Chain(cell).value;
            && (forall k :: 0 <= k < |spans| ==> (spans[k].end == COMPUTE_START <==> spans[k].name == QBackend))
            && (exists k :: 0 <= k < |spans| - 1 && spans[k].end == COMPUTE_START && spans[k + 1].end == COMPUTE_END)
            && Span(SComp, COMPUTE_START, COMPUTE_END, true) in spans
  {
    ChainLength(cell);
    hide Chain;
    var spans, k := Chain(cell).value, ComputeAt(cell);
    QueueEndsAtCompute(cell, k);
    QueueEndsAtCompute(cell, k + 1);
    forall i | 0 <= i < |spans| ensures spans[i].end == COMPUTE_START <==> spans[i].name == QBackend {
      QueueEndsAtCompute(cell, i);
    }
    assert 0 <= k < |spans| - 1 && spans[k].end == COMPUTE_START && spans[k + 1].end == COMPUTE_END;
    assert spans[k + 1] in spans;
  }

  /** The chain of every cell is one the construction can walk. */
  lemma ChainIsProper(cell: Cell)
    requires !cell.UnknownCell?
    ensures Chain(cell).Some? && ProperChain(Chain(cell).value)
    ensures Span(SComp, COMPUTE_START, COMPUTE_END, true) in Chain(cell).value
  {
    ChainLength(cell);
    hide Chain, ChainStages, Topology, Linked;
    ChainVisitsTopology(cell);
    ReachesExecution(cell);
  }
}
