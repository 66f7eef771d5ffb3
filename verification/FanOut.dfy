/** How the adapter released a cohort (internal/validate/dispatch.go). */
module FanOut {
  import opened Identity
  import opened Schema
  import opened Wire
  import opened Sorting
  import opened Chains
  import opened Joins
  import opened Checks
  import opened Aggregation
  import Conservation
  import Coverage

  /* ---- Spread ---- */

  function Lowest(xs: seq<int>): (lo: int)
    requires xs != []
    ensures lo in xs && forall x :: x in xs ==> lo <= x
  {
    var n := |xs| - 1;
    assert xs == xs[..n] + [xs[n]];
    if n == 0 || xs[n] < Lowest(xs[..n]) then xs[n] else Lowest(xs[..n])
  }

  function Highest(xs: seq<int>): (hi: int)
    requires xs != []
    ensures hi in xs && forall x :: x in xs ==> x <= hi
  {
    var n := |xs| - 1;
    assert xs == xs[..n] + [xs[n]];
    if n == 0 || xs[n] > Highest(xs[..n]) then xs[n] else Highest(xs[..n])
  }

  /** First to last of some instants. */
  function SpreadOf(xs: seq<int>): int {
    if xs == [] then 0 else Highest(xs) - Lowest(xs)
  }

  /** Only which instants there are matters, not their order or how often each is listed. */
  lemma SpreadOfSame(a: seq<int>, b: seq<int>)
    requires forall x :: x in a <==> x in b
    ensures SpreadOf(a) == SpreadOf(b)
  {
    if a != [] {
      var x := Lowest(a);
      assert x in a;
    }
    if b != [] {
      var x := Lowest(b);
      assert x in b;
    }
  }

  lemma OneMoreInstant(xs: seq<int>, t: int)
    ensures Lowest(xs + [t]) == if xs == [] || t < Lowest(xs) then t else Lowest(xs)
    ensures Highest(xs + [t]) == if xs == [] || t > Highest(xs) then t else Highest(xs)
  {
    assert (xs + [t])[..|xs|] == xs;
  }

  function Observed(members: seq<Joined>, s: Stage): seq<int> {
    if members == [] then []
    else
      Observed(members[..|members| - 1], s)
      + if s in members[|members| - 1].presence then [members[|members| - 1].ts[s] as int] else []
  }

  /** spread: a running lowest and highest. */
  method Spread(members: seq<Joined>, s: Stage) returns (width: int)
    ensures width == SpreadOf(Observed(members, s))
  {
    var lo, hi, seen := 0, 0, false;
    for i := 0 to |members|
      invariant seen <==> Observed(members[..i], s) != []
      invariant seen ==> lo == Lowest(Observed(members[..i], s)) && hi == Highest(Observed(members[..i], s))
    {
      ghost var before := Observed(members[..i], s);
      assert members[..i + 1][..i] == members[..i];
      if s !in members[i].presence {
        assert Observed(members[..i + 1], s) == before;
        continue;
      }
      var t := members[i].ts[s] as int;
      assert Observed(members[..i + 1], s) == before + [t];
      OneMoreInstant(before, t);
      if !seen {
        lo, hi, seen := t, t, true;
        continue;
      }
      if t < lo {
        lo := t;
      }
      if t > hi {
        hi := t;
      }
    }
    assert members[..|members|] == members;
    width := if seen then hi - lo else 0;
  }

  lemma {:induction false} ObservedMeans(members: seq<Joined>, s: Stage, x: int)
    ensures x in Observed(members, s) <==> exists j :: j in members && s in j.presence && j.ts[s] == x
  {
    if members != [] {
      var n := |members| - 1;
      ObservedMeans(members[..n], s, x);
      assert members == members[..n] + [members[n]];
    }
  }

  /* ---- Overlap of a release's submissions ---- */

  /** The submission windows of the members that have both ends, as intervals. */
  function Submissions(members: seq<Joined>): seq<Coverage.Interval> {
    if members == [] then []
    else
      var j := members[|members| - 1];
      Submissions(members[..|members| - 1])
      + if ADAPTER_DISPATCH in j.presence && ADAPTER_RESULT in j.presence
        then [Coverage.Interval(j.ts[ADAPTER_DISPATCH], j.ts[ADAPTER_RESULT])] else []
  }

  /** Every submission was made before its predecessor in start order came back. */
  ghost predicate Chained(w: seq<Coverage.Interval>) {
    forall i :: 0 < i < |w| ==> w[i].start < w[i - 1].end
  }

  /** submissionsOverlapped, for some order of equal starts. */
  method SubmissionsOverlapped(members: seq<Joined>) returns (overlapped: bool, w: seq<Coverage.Interval>)
    ensures multiset(w) == multiset(Submissions(members)) && Coverage.ByStart(w)
    ensures overlapped <==> |w| < 2 || Chained(w)
  {
    var windows: seq<Coverage.Interval> := [];
    for i := 0 to |members|
      invariant windows == Submissions(members[..i])
    {
      assert members[..i + 1][..i] == members[..i];
      var j := members[i];
      if ADAPTER_DISPATCH in j.presence && ADAPTER_RESULT in j.presence {
        windows := windows + [Coverage.Interval(j.ts[ADAPTER_DISPATCH], j.ts[ADAPTER_RESULT])];
      }
    }
    assert members[..|members|] == members;
    hide Submissions;
    w := SortBy(windows, (x: Coverage.Interval) => x.start);
    if |w| < 2 {
      return true, w;
    }
    for i := 1 to |w|
      invariant forall k :: 0 < k < i ==> w[k].start < w[k - 1].end
    {
      if w[i].start >= w[i - 1].end {
        return false, w;
      }
    }
    overlapped := true;
  }

  /** Overlapping neighbours leave no instant of the release without a member in flight. */
  lemma {:induction false} ChainedLeavesNoGap(w: seq<Coverage.Interval>)
    requires w != [] && Coverage.Forward(w) && Coverage.ByStart(w) && Chained(w)
    ensures Coverage.NoIdleInstant(w)
  {
    var n := |w| - 1;
    if n == 0 {
      forall t | w[0].start <= t < Coverage.LatestEnd(w) ensures Coverage.InFlight(w, t) {
        assert w[0].start <= t < w[0].end;
      }
    } else {
      var before := w[..n];
      ChainedLeavesNoGap(before);
      assert before[n - 1] == w[n - 1];
      forall t | w[0].start <= t < Coverage.LatestEnd(w) ensures Coverage.InFlight(w, t) {
        if t < Coverage.LatestEnd(before) {
          assert Coverage.InFlight(before, t);
          var i :| 0 <= i < n && before[i].start <= t < before[i].end;
          assert w[i] == before[i];
        } else {
          assert w[n].start <= t < w[n].end;
        }
      }
    }
  }

  /* ---- Every order of ties ---- */

  /** w is one of the results the sort of given may have. */
  ghost predicate SortOf(w: seq<Coverage.Interval>, given: seq<Coverage.Interval>) {
    multiset(w) == multiset(given) && Coverage.ByStart(w)
  }

  function StartOf(x: Coverage.Interval): int {
    x.start
  }

  /** The sort may leave submission j right after submission i. */
  ghost predicate MayFollow(w: seq<Coverage.Interval>, i: nat, j: nat)
    requires i < |w| && j < |w|
  {
    i != j && w[i].start <= w[j].start && NoneBetween(w, StartOf, w[i].start, w[j].start)
  }

  /** Each submission was still out at the next start, and at its own if another started with it. */
  ghost predicate Linked(w: seq<Coverage.Interval>) {
    forall i, j :: 0 <= i < |w| && 0 <= j < |w| && MayFollow(w, i, j) ==> w[j].start < w[i].end
  }

  lemma NeighboursHaveNoneBetween(v: seq<Coverage.Interval>, w: seq<Coverage.Interval>, n: nat)
    requires SortOf(v, w) && 0 < n < |v|
    ensures NoneBetween(w, StartOf, v[n - 1].start, v[n].start)
  {
    forall k | 0 <= k < |w| ensures !(v[n - 1].start < StartOf(w[k]) < v[n].start) {
      assert w[k] in multiset(v);
      var m :| 0 <= m < |v| && v[m] == w[k];
      assert m < n - 1 ==> v[m].start <= v[n - 1].start;
      assert n < m ==> v[n].start <= v[m].start;
    }
  }

  lemma LinkedIsChained(v: seq<Coverage.Interval>, w: seq<Coverage.Interval>)
    requires SortOf(v, w) && Linked(w)
    ensures Chained(v)
  {
    forall n | 0 < n < |v| ensures v[n].start < v[n - 1].end {
      var i, j := TwoPlaces(v, w, n - 1, n);
      NeighboursHaveNoneBetween(v, w, n);
      assert MayFollow(w, i, j);
    }
  }

  /**
   Whatever order the sort gives submissions that started together, they count as overlapped if and
   only if each was still out at the next start, and at its own if another started with it.
   */
  lemma EveryOrderOverlaps(w: seq<Coverage.Interval>)
    ensures (forall v :: SortOf(v, w) ==> Chained(v)) <==> Linked(w)
  {
    if Linked(w) {
      forall v | SortOf(v, w) ensures Chained(v) {
        LinkedIsChained(v, w);
      }
    }
    if forall v :: SortOf(v, w) ==> Chained(v) {
      forall i, j | 0 <= i < |w| && 0 <= j < |w| && MayFollow(w, i, j) ensures w[j].start < w[i].end
      {
        var v, k := SideBySide(w, StartOf, i, j);
        assert SortOf(v, w);
        assert v[k + 1].start < v[k].end;
      }
    }
  }

  /* ---- One release ---- */

  /** The members that reported envelope id, in identity order. */
  ghost predicate ReleaseOrder(order: seq<LogicalRequest>, paths: Paths, id: uint64) {
    Ascending(order) && forall q :: q in order <==> q in paths && paths[q].envelopeID == id
  }

  datatype Release = Release(order: seq<LogicalRequest>, observedSkew: int, evidence: Option<Dispatch>,
                             overlapped: bool,
                             windows: seq<Coverage.Interval>)

  /** What the report says of one release, read from its members' records. */
  ghost predicate ReleaseOf(r: Release, paths: Paths, id: uint64) {
    && ReleaseOrder(r.order, paths, id)
    && var members := Conservation.Members(r.order, paths);
    && r.observedSkew == SpreadOf(Observed(members, ADAPTER_DISPATCH))
    && r.evidence == FirstEvidence(members)
    && multiset(r.windows) == multiset(Submissions(members)) && Coverage.ByStart(r.windows)
    && (r.overlapped <==> |r.windows| < 2 || Chained(r.windows))
  }

  /** The first member that carries the adapter's evidence. */
  function FirstEvidence(members: seq<Joined>): Option<Dispatch> {
    if members == [] then None
    else if EMITTER_ADAPTER in members[0].dispatchBySource then Some(members[0].dispatchBySource[EMITTER_ADAPTER])
    else FirstEvidence(members[1..])
  }

  predicate ReleaseDefect(exp: Expectation, id: uint64, r: Release, d: Defect) {
    match d
    case NoDispatchEvidence(e) => e == id && r.evidence.None?
    case MiscountedRelease(e) => e == id && r.evidence.Some? && r.evidence.value.dispatched != |r.order|
    case MisreportedSkew(e) => e == id && r.evidence.Some? && r.evidence.value.skewNanos != r.observedSkew
    case SkewExceeds(e) =>
      e == id && r.evidence.Some? && exp.maxDispatchSkew > 0 && r.observedSkew > exp.maxDispatchSkew
    case SerialRelease(e) => e == id && r.evidence.Some? && |r.order| > 1 && !r.overlapped
    case _ => false
  }

  /** Each submission took time, and none overlapped another. */
  ghost predicate OneByOne(w: seq<Coverage.Interval>) {
    && (forall i :: 0 <= i < |w| ==> w[i].start < w[i].end)
    && (forall i, j :: 0 <= i < j < |w| ==> Coverage.Apart(w[i], w[j]))
  }

  lemma {:induction false} NoMoreSubmissions(members: seq<Joined>)
    ensures |Submissions(members)| <= |members|
  {
    if members != [] { NoMoreSubmissions(members[..|members| - 1]); }
  }

  /**
   A fan-out that was none is named: submissions made one after another, in whatever order they are listed
   and sorted.
   */
  lemma SerialReleaseIsNamed(exp: Expectation, paths: Paths, id: uint64, r: Release)
    requires ReleaseOf(r, paths, id) && r.evidence.Some?
    requires var w := Submissions(Conservation.Members(r.order, paths)); |w| >= 2 && OneByOne(w)
    ensures ReleaseDefect(exp, id, r, SerialRelease(id))
  {
    hide Observed, SpreadOf, FirstEvidence, Ascending;
    var members := Conservation.Members(r.order, paths);
    var w := Submissions(members);
    NoMoreSubmissions(members);
    hide Submissions;
    assert |multiset(r.windows)| == |multiset(w)|;
    var k, l := TwoPlaces(r.windows, w, 0, 1);
    assert Coverage.Apart(w[k], w[l]) by {
      assert if k < l then Coverage.Apart(w[k], w[l]) else Coverage.Apart(w[l], w[k]);
    }
    assert r.windows[0].start <= r.windows[1].start;
  }

  /**
   Whatever order the sort gives submissions that started together, a release of more than one
   member escapes being called serial if and only if its submissions are linked.
   */
  lemma EveryReleaseDecided(exp: Expectation, paths: Paths, id: uint64, r: Release)
    requires ReleaseOf(r, paths, id) && r.evidence.Some? && |r.order| > 1
    ensures (forall s :: ReleaseOf(s, paths, id) ==> !ReleaseDefect(exp, id, s, SerialRelease(id))) <==>
            Linked(Submissions(Conservation.Members(r.order, paths)))
  {
    hide Observed, SpreadOf, FirstEvidence, Submissions, Ascending, Linked;
    var w := Submissions(Conservation.Members(r.order, paths));
    EveryOrderOverlaps(w);
    if Linked(w) {
      forall s | ReleaseOf(s, paths, id) ensures !ReleaseDefect(exp, id, s, SerialRelease(id)) {
        AscendingIsUnique(s.order, r.order);
        assert SortOf(s.windows, w);
      }
    }
    if forall s :: ReleaseOf(s, paths, id) ==> !ReleaseDefect(exp, id, s, SerialRelease(id)) {
      forall v | SortOf(v, w) ensures Chained(v) {
        var s := r.(windows := v, overlapped := |v| < 2 || Chained(v));
        assert ReleaseOf(s, paths, id);
      }
    }
  }

  /** judgeRelease. */
  method JudgeRelease(exp: Expectation, paths: Paths, id: uint64) returns (r: Release, defects: seq<Defect>)
    ensures ReleaseOf(r, paths, id)
    ensures forall d :: d in defects <==> ReleaseDefect(exp, id, r, d)
  {
    hide Submissions, Observed, SpreadOf;
    var order := SelectRequests(paths, (q: LogicalRequest, j: Joined) => j.envelopeID == id);
    var members := Conservation.Members(order, paths);
    var evidence := FindEvidence(members);
    var skew := Spread(members, ADAPTER_DISPATCH);
    var overlapped, windows := SubmissionsOverlapped(members);
    r := Release(order, skew, evidence, overlapped, windows);
    defects := ReleaseDefects(exp, id, r);
  }

  method FindEvidence(members: seq<Joined>) returns (evidence: Option<Dispatch>)
    ensures evidence == FirstEvidence(members)
  {
    for i := 0 to |members|
      invariant FirstEvidence(members) == FirstEvidence(members[i..])
    {
      if EMITTER_ADAPTER in members[i].dispatchBySource {
        return Some(members[i].dispatchBySource[EMITTER_ADAPTER]);
      }
    }
    evidence := None;
  }

  method ReleaseDefects(exp: Expectation, id: uint64, r: Release) returns (defects: seq<Defect>)
    ensures forall d :: d in defects <==> ReleaseDefect(exp, id, r, d)
  {
    if r.evidence.None? {
      return [NoDispatchEvidence(id)];
    }
    defects := [];
    if r.evidence.value.dispatched != |r.order| {
      defects := defects + [MiscountedRelease(id)];
    }
    if r.evidence.value.skewNanos != r.observedSkew {
      defects := defects + [MisreportedSkew(id)];
    }
    if exp.maxDispatchSkew > 0 && r.observedSkew > exp.maxDispatchSkew {
      defects := defects + [SkewExceeds(id)];
    }
    if |r.order| > 1 && !r.overlapped {
      defects := defects + [SerialRelease(id)];
    }
  }

  /* ---- Every release ---- */

  /** Another process claims a fan-out only the adapter can observe. */
  predicate ForeignAt(paths: Paths, d: Defect) {
    && d.ForeignDispatch? && d.q in paths && paths[d.q].envelopeID != 0
    && d.emitter in paths[d.q].dispatchBySource && d.emitter != EMITTER_ADAPTER
  }

  /** What checkFanOut names, given how it read each release. */
  ghost predicate FanOutDefect(exp: Expectation, paths: Paths, releases: map<uint64, Release>, d: Defect) {
    || ForeignAt(paths, d)
    || exists id :: id in releases && ReleaseDefect(exp, id, releases[id], d)
  }

  method ForeignDispatches(paths: Paths) returns (defects: seq<Defect>)
    ensures forall d :: d in defects <==> ForeignAt(paths, d)
  {
    defects := [];
    var left := paths.Keys;
    while left != {}
      invariant left <= paths.Keys
      invariant forall d :: d in defects <==> ForeignAt(paths, d) && d.q !in left
      decreases |left|
    {
      var q :| q in left;
      if paths[q].envelopeID != 0 {
        var found := ForeignOf(q, paths[q]);
        defects := defects + found;
      }
      left := left - {q};
    }
  }

  method ForeignOf(q: LogicalRequest, j: Joined) returns (defects: seq<Defect>)
    ensures forall d :: d in defects <==>
            d.ForeignDispatch? && d.q == q && d.emitter in j.dispatchBySource && d.emitter != EMITTER_ADAPTER
  {
    defects := [];
    var left := j.dispatchBySource.Keys;
    while left != {}
      invariant left <= j.dispatchBySource.Keys
      invariant forall d :: d in defects <==>
        && d.ForeignDispatch? && d.q == q && d.emitter in j.dispatchBySource
        && d.emitter !in left && d.emitter != EMITTER_ADAPTER
      decreases |left|
    {
      var e :| e in left;
      if e != EMITTER_ADAPTER {
        defects := defects + [ForeignDispatch(q, e)];
      }
      left := left - {e};
    }
  }

  /** The defects named are those of the releases judged so far. */
  ghost predicate NamesReleases(exp: Expectation, releases: map<uint64, Release>, defects: seq<Defect>) {
    forall d :: d in defects <==> exists id :: id in releases && ReleaseDefect(exp, id, releases[id], d)
  }

  lemma NameRelease(exp: Expectation, releases: map<uint64, Release>, defects: seq<Defect>, id: uint64, r: Release,
                    found: seq<Defect>)
    requires NamesReleases(exp, releases, defects) && id !in releases
    requires forall d :: d in found <==> ReleaseDefect(exp, id, r, d)
    ensures NamesReleases(exp, releases[id := r], defects + found)
  {
    hide ReleaseDefect;
    var next := releases[id := r];
    forall d ensures d in defects + found <==> exists i :: i in next && ReleaseDefect(exp, i, next[i], d) {
      if d in defects {
        var i :| i in releases && ReleaseDefect(exp, i, releases[i], d);
        assert next[i] == releases[i];
      }
      if d in found {
        assert id in next && next[id] == r;
      }
      if exists i :: i in next && ReleaseDefect(exp, i, next[i], d) {
        var i :| i in next && ReleaseDefect(exp, i, next[i], d);
        assert i != id ==> i in releases && next[i] == releases[i];
      }
    }
  }

  /** The release loop of checkFanOut. */
  method JudgeReleases(exp: Expectation, paths: Paths) returns (releases: map<uint64, Release>, defects: seq<Defect>)
    ensures forall id :: id in releases <==> id != 0 && exists q :: q in paths && paths[q].envelopeID == id
    ensures forall id :: id in releases ==> ReleaseOf(releases[id], paths, id)
    ensures NamesReleases(exp, releases, defects)
  {
    var ids := set q | q in paths && paths[q].envelopeID != 0 :: paths[q].envelopeID;
    releases, defects := map[], [];
    var left := ids;
    while left != {}
      invariant left <= ids && releases.Keys == ids - left
      invariant forall id :: id in releases ==> ReleaseOf(releases[id], paths, id)
      invariant NamesReleases(exp, releases, defects)
      decreases |left|
    {
      hide ReleaseOf, ReleaseDefect, NamesReleases;
      var id :| id in left;
      var r, found := JudgeRelease(exp, paths, id);
      NameRelease(exp, releases, defects, id, r, found);
      releases := releases[id := r];
      defects := defects + found;
      left := left - {id};
    }
  }

  /** checkFanOut. */
  method CheckFanOut(exp: Expectation, paths: Paths) returns (releases: map<uint64, Release>, defects: seq<Defect>)
    ensures exp.cell.UnknownCell? ==> defects == [NoChain]
    ensures exp.cell == D0 ==> defects == []
    ensures !exp.cell.UnknownCell? && exp.cell != D0 && exp.cell.AggregatesEnvelopes() && exp.maxDispatchSkew <= 0 ==>
            defects == [NoBound]
    ensures !exp.cell.UnknownCell? && exp.cell != D0
            && !(exp.cell.AggregatesEnvelopes() && exp.maxDispatchSkew <= 0) ==>
              && (forall id :: id in releases <==> id != 0 && exists q :: q in paths && paths[q].envelopeID == id)
              && (forall id :: id in releases ==> ReleaseOf(releases[id], paths, id))
              && (forall d :: d in defects <==> FanOutDefect(exp, paths, releases, d))
  {
    hide ReleaseOf, ReleaseDefect;
    releases, defects := map[], [];
    if Topology(exp.cell).None? {
      return map[], [NoChain];
    }
    if ADAPTER_DISPATCH !in Topology(exp.cell).value {
      return;
    }
    if exp.cell.AggregatesEnvelopes() && exp.maxDispatchSkew <= 0 {
      return map[], [NoBound];
    }
    var foreign := ForeignDispatches(paths);
    releases, defects := JudgeReleases(exp, paths);
    defects := foreign + defects;
  }

  /* ---- Dispatch on arrival ---- */

  const MIN_ARRIVAL_SPREAD: int := 20_000

  predicate ThroughAdapter(j: Joined) {
    ADAPTER_RECV in j.presence && ADAPTER_DISPATCH in j.presence
  }

  datatype CohortDispatch = CohortDispatch(order: seq<LogicalRequest>, arrivals: int, dispatches: int)

  ghost predicate DispatchOf(r: CohortDispatch, paths: Paths, cohort: uint32) {
    && Ascending(r.order)
    && (forall q :: q in r.order <==> q in paths && q.cohort == cohort && ThroughAdapter(paths[q]))
    && var members := Conservation.Members(r.order, paths);
    && r.arrivals == SpreadOf(Observed(members, ADAPTER_RECV))
    && r.dispatches == SpreadOf(Observed(members, ADAPTER_DISPATCH))
  }

  /**
   The members arrived apart and left together, which is what joining looks like: under a quarter of the
   spread is left.
   */
  predicate Collapsed(r: CohortDispatch) {
    |r.order| >= 2 && r.arrivals >= MIN_ARRIVAL_SPREAD && 4 * r.dispatches < r.arrivals
  }

  predicate WaitsTooLong(exp: Expectation, j: Joined) {
    ThroughAdapter(j) && exp.maxAdapterDispatchWait > 0
    && j.ts[ADAPTER_DISPATCH] as int - j.ts[ADAPTER_RECV] > exp.maxAdapterDispatchWait
  }

  predicate AdapterDefect(exp: Expectation, paths: Paths, cohorts: map<uint32, CohortDispatch>, d: Defect) {
    match d
    case WaitExceeds(q) => q in paths && WaitsTooLong(exp, paths[q])
    case LeftTogether(c) => c in cohorts && Collapsed(cohorts[c])
    case _ => false
  }

  method DispatchSpreads(paths: Paths, cohort: uint32) returns (r: CohortDispatch)
    ensures DispatchOf(r, paths, cohort)
  {
    var order := SelectRequests(paths, (q: LogicalRequest, j: Joined) => q.cohort == cohort && ThroughAdapter(j));
    var members := Conservation.Members(order, paths);
    var arrivals := Spread(members, ADAPTER_RECV);
    var dispatches := Spread(members, ADAPTER_DISPATCH);
    r := CohortDispatch(order, arrivals, dispatches);
  }

  method Waits(exp: Expectation, paths: Paths) returns (defects: seq<Defect>)
    ensures forall d :: d in defects <==> d.WaitExceeds? && d.q in paths && WaitsTooLong(exp, paths[d.q])
  {
    defects := [];
    var left := paths.Keys;
    while left != {}
      invariant left <= paths.Keys
      invariant forall d :: d in defects <==>
                d.WaitExceeds? && d.q in paths && d.q !in left && WaitsTooLong(exp, paths[d.q])
      decreases |left|
    {
      var q :| q in left;
      if WaitsTooLong(exp, paths[q]) {
        defects := defects + [WaitExceeds(q)];
      }
      left := left - {q};
    }
  }

  /** The cohort loop of checkAdapterDispatch: how apart each arrived and left. */
  method CohortSpreads(paths: Paths) returns (cohorts: map<uint32, CohortDispatch>)
    ensures cohorts.Keys == Cohorts(paths) && forall c :: c in cohorts ==> DispatchOf(cohorts[c], paths, c)
  {
    hide DispatchOf, Cohorts;
    cohorts := map[];
    var left := Cohorts(paths);
    while left != {}
      invariant left <= Cohorts(paths) && cohorts.Keys == Cohorts(paths) - left
      invariant forall c :: c in cohorts ==> DispatchOf(cohorts[c], paths, c)
      decreases |left|
    {
      var c :| c in left;
      var r := DispatchSpreads(paths, c);
      cohorts := cohorts[c := r];
      left := left - {c};
    }
  }

  method Together(cohorts: map<uint32, CohortDispatch>) returns (defects: seq<Defect>)
    ensures forall d :: d in defects <==> d.LeftTogether? && d.cohort in cohorts && Collapsed(cohorts[d.cohort])
  {
    defects := [];
    var left := cohorts.Keys;
    while left != {}
      invariant left <= cohorts.Keys
      invariant forall d :: d in defects <==>
        d.LeftTogether? && d.cohort in cohorts && d.cohort !in left && Collapsed(cohorts[d.cohort])
      decreases |left|
    {
      var c :| c in left;
      if Collapsed(cohorts[c]) {
        defects := defects + [LeftTogether(c)];
      }
      left := left - {c};
    }
  }

  /** checkAdapterDispatch. */
  method CheckAdapterDispatch(exp: Expectation, paths: Paths)
    returns (cohorts: map<uint32, CohortDispatch>, defects: seq<Defect>)
    ensures exp.cell.UnknownCell? ==> defects == [NoChain]
    ensures exp.cell == D0 || exp.cell.AggregatesEnvelopes() ==> defects == []
    ensures !exp.cell.UnknownCell? && exp.cell != D0 && !exp.cell.AggregatesEnvelopes() ==>
              && cohorts.Keys == Cohorts(paths) && (forall c :: c in cohorts ==> DispatchOf(cohorts[c], paths, c))
              && (forall d :: d in defects <==> AdapterDefect(exp, paths, cohorts, d))
  {
    cohorts, defects := map[], [];
    if Topology(exp.cell).None? {
      return map[], [NoChain];
    }
    if ADAPTER_RECV !in Topology(exp.cell).value || exp.cell.AggregatesEnvelopes() {
      return;
    }
    hide DispatchOf, Cohorts, WaitsTooLong;
    var waits := Waits(exp, paths);
    cohorts := CohortSpreads(paths);
    var together := Together(cohorts);
    defects := waits + together;
  }
}
