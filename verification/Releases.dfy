/**
 What is named of a release (internal/validate/dispatch.go, checkFanOut), on the members' own paths:
 whose evidence counts, how many members there are, how far apart they were dispatched; and what
 it means when nothing is named.
 */
module Releases {
  import opened Identity
  import opened Schema
  import opened Wire
  import opened Sorting
  import opened Joins
  import opened Checks
  import opened Aggregation
  import Conservation
  import Coverage
  import FanOut
  import V = Verdict

  /** Request q reported the envelope. */
  predicate Reported(paths: Paths, id: uint64, q: LogicalRequest) {
    q in paths && paths[q].envelopeID == id
  }

  function Reporters(paths: Paths, id: uint64): set<LogicalRequest> {
    set q | q in paths && Reported(paths, id, q)
  }

  /** Its path carries the adapter's evidence. */
  predicate Tells(paths: Paths, q: LogicalRequest)
    requires q in paths
  {
    EMITTER_ADAPTER in paths[q].dispatchBySource
  }

  /** The first of the release, by cohort and then by ordinal, to carry the adapter's evidence. */
  ghost predicate FirstToTell(paths: Paths, id: uint64, q: LogicalRequest) {
    && Reported(paths, id, q) && Tells(paths, q)
    && forall r :: Reported(paths, id, r) && Tells(paths, r) ==>
         q.cohort < r.cohort || (q.cohort == r.cohort && q.ordinal <= r.ordinal)
  }

  /** Request q was dispatched for the envelope, as far as its records say. */
  predicate WasDispatched(paths: Paths, id: uint64, q: LogicalRequest) {
    Reported(paths, id, q) && ADAPTER_DISPATCH in paths[q].presence
  }

  /** Some member was dispatched x after another, and none longer after another; zero where none was. */
  ghost predicate FurthestApart(paths: Paths, id: uint64, x: int) {
    if forall q :: !WasDispatched(paths, id, q) then x == 0
    else
      && (exists q, r :: WasDispatched(paths, id, q) && WasDispatched(paths, id, r)
            && paths[q].ts[ADAPTER_DISPATCH] as int - paths[r].ts[ADAPTER_DISPATCH] == x)
      && (forall q, r :: WasDispatched(paths, id, q) && WasDispatched(paths, id, r) ==>
            paths[q].ts[ADAPTER_DISPATCH] as int - paths[r].ts[ADAPTER_DISPATCH] <= x)
  }

  /* ---- Evidence ---- */

  lemma {:induction false} FirstIs(members: seq<Joined>)
    ensures FanOut.FirstEvidence(members).None? <==>
            forall i :: 0 <= i < |members| ==> EMITTER_ADAPTER !in members[i].dispatchBySource
    ensures FanOut.FirstEvidence(members).Some? ==> exists i ::
              && 0 <= i < |members| && EMITTER_ADAPTER in members[i].dispatchBySource
              && FanOut.FirstEvidence(members).value == members[i].dispatchBySource[EMITTER_ADAPTER]
              && forall k :: 0 <= k < i ==> EMITTER_ADAPTER !in members[k].dispatchBySource
  {
    if members != [] {
      FirstIs(members[1..]);
      var rest := members[1..];
      assert forall i :: 0 <= i < |rest| ==> rest[i] == members[i + 1];
      if EMITTER_ADAPTER !in members[0].dispatchBySource {
        assert FanOut.FirstEvidence(members) == FanOut.FirstEvidence(rest);
        assert forall i :: 1 <= i < |members| ==> members[i] == rest[i - 1];
        if FanOut.FirstEvidence(rest).Some? {
          var i :| 0 <= i < |rest| && EMITTER_ADAPTER in rest[i].dispatchBySource
                   && FanOut.FirstEvidence(rest).value == rest[i].dispatchBySource[EMITTER_ADAPTER]
                   && forall k :: 0 <= k < i ==> EMITTER_ADAPTER !in rest[k].dispatchBySource;
          assert forall k :: 0 <= k < i + 1 ==> EMITTER_ADAPTER !in members[k].dispatchBySource;
        }
      }
    }
  }

  lemma OnlyOneFirst(paths: Paths, id: uint64, q: LogicalRequest, r: LogicalRequest)
    requires FirstToTell(paths, id, q) && FirstToTell(paths, id, r)
    ensures q == r
  {
  }

  /** The evidence read is that of the first member to carry it, and none exactly where no member does. */
  lemma EvidenceExactly(r: FanOut.Release, paths: Paths, id: uint64)
    requires FanOut.ReleaseOf(r, paths, id)
    ensures r.evidence.None? <==> forall q :: Reported(paths, id, q) ==> !Tells(paths, q)
    ensures r.evidence.Some? ==> exists q ::
              && FirstToTell(paths, id, q) && r.evidence.value == paths[q].dispatchBySource[EMITTER_ADAPTER]
  {
    hide FanOut.Observed, FanOut.SpreadOf, FanOut.Submissions, FanOut.Chained, FanOut.FirstEvidence;
    var members := Conservation.Members(r.order, paths);
    FirstIs(members);
    forall q ensures q in r.order <==> exists i :: 0 <= i < |r.order| && r.order[i] == q {
    }
    if r.evidence.Some? {
      var i :| 0 <= i < |members| && EMITTER_ADAPTER in members[i].dispatchBySource
               && r.evidence.value == members[i].dispatchBySource[EMITTER_ADAPTER]
               && forall k :: 0 <= k < i ==> EMITTER_ADAPTER !in members[k].dispatchBySource;
      assert forall k :: 0 <= k <= i ==> r.order[k] in r.order && members[k] == paths[r.order[k]];
      FirstListed(r.order, paths, id, i);
    } else {
      forall q | Reported(paths, id, q) ensures !Tells(paths, q) {
        assert q in r.order;
        var i :| 0 <= i < |r.order| && r.order[i] == q;
        assert members[i] == paths[q];
      }
    }
  }

  lemma FirstListed(order: seq<LogicalRequest>, paths: Paths, id: uint64, i: nat)
    requires FanOut.ReleaseOrder(order, paths, id) && i < |order| && Tells(paths, order[i])
    requires forall k :: 0 <= k < i ==> !Tells(paths, order[k])
    ensures FirstToTell(paths, id, order[i])
  {
    var q := order[i];
    assert q in order;
    forall p | Reported(paths, id, p) && Tells(paths, p)
      ensures q.cohort < p.cohort || (q.cohort == p.cohort && q.ordinal <= p.ordinal)
    {
      assert p in order;
      var k :| 0 <= k < |order| && order[k] == p;
      assert k > i ==> Before(order[i], order[k]);
    }
  }

  /* ---- Spread and size ---- */

  ghost predicate DispatchedAt(paths: Paths, id: uint64, x: int) {
    exists q :: WasDispatched(paths, id, q) && paths[q].ts[ADAPTER_DISPATCH] == x
  }

  lemma ObservedAre(r: FanOut.Release, paths: Paths, id: uint64, x: int)
    requires FanOut.ReleaseOf(r, paths, id)
    ensures x in FanOut.Observed(Conservation.Members(r.order, paths), ADAPTER_DISPATCH) <==> DispatchedAt(paths, id, x)
  {
    hide FanOut.Observed, FanOut.SpreadOf, FanOut.Submissions, FanOut.Chained, FanOut.FirstEvidence, Ascending;
    var members := Conservation.Members(r.order, paths);
    FanOut.ObservedMeans(members, ADAPTER_DISPATCH, x);
    if exists j :: j in members && ADAPTER_DISPATCH in j.presence && j.ts[ADAPTER_DISPATCH] == x {
      var j :| j in members && ADAPTER_DISPATCH in j.presence && j.ts[ADAPTER_DISPATCH] == x;
      var i :| 0 <= i < |members| && members[i] == j;
      assert r.order[i] in r.order && WasDispatched(paths, id, r.order[i]);
    }
    if DispatchedAt(paths, id, x) {
      var q :| WasDispatched(paths, id, q) && paths[q].ts[ADAPTER_DISPATCH] == x;
      assert q in r.order;
      var i :| 0 <= i < |r.order| && r.order[i] == q;
      assert members[i] in members;
    }
  }

  lemma SpreadOfInstants(paths: Paths, id: uint64, xs: seq<int>)
    requires forall x :: x in xs <==> DispatchedAt(paths, id, x)
    ensures FurthestApart(paths, id, FanOut.SpreadOf(xs))
  {
    if xs == [] {
      forall q ensures !WasDispatched(paths, id, q) {
        if WasDispatched(paths, id, q) { assert DispatchedAt(paths, id, paths[q].ts[ADAPTER_DISPATCH]); }
      }
    } else {
      var lo, hi := FanOut.Lowest(xs), FanOut.Highest(xs);
      assert DispatchedAt(paths, id, lo) && DispatchedAt(paths, id, hi);
      var q :| WasDispatched(paths, id, q) && paths[q].ts[ADAPTER_DISPATCH] == hi;
      var p :| WasDispatched(paths, id, p) && paths[p].ts[ADAPTER_DISPATCH] == lo;
      assert paths[q].ts[ADAPTER_DISPATCH] as int - paths[p].ts[ADAPTER_DISPATCH] == hi - lo;
      forall a, b | WasDispatched(paths, id, a) && WasDispatched(paths, id, b)
        ensures paths[a].ts[ADAPTER_DISPATCH] as int - paths[b].ts[ADAPTER_DISPATCH] <= hi - lo
      {
        assert DispatchedAt(paths, id, paths[a].ts[ADAPTER_DISPATCH]);
        assert DispatchedAt(paths, id, paths[b].ts[ADAPTER_DISPATCH]);
      }
    }
  }

  /** What is observed of a release is how far apart its members were dispatched. */
  lemma SkewIsFurthest(r: FanOut.Release, paths: Paths, id: uint64)
    requires FanOut.ReleaseOf(r, paths, id)
    ensures FurthestApart(paths, id, r.observedSkew)
  {
    hide FurthestApart, FanOut.SpreadOf, DispatchedAt;
    var xs := FanOut.Observed(Conservation.Members(r.order, paths), ADAPTER_DISPATCH);
    forall x ensures x in xs <==> DispatchedAt(paths, id, x) {
      ObservedAre(r, paths, id, x);
    }
    hide FanOut.Observed, FanOut.Submissions, FanOut.Chained, FanOut.FirstEvidence, Ascending;
    SpreadOfInstants(paths, id, xs);
  }

  lemma FurthestIsOne(paths: Paths, id: uint64, x: int, y: int)
    requires FurthestApart(paths, id, x) && FurthestApart(paths, id, y)
    ensures x == y
  {
  }

  lemma SizeIs(r: FanOut.Release, paths: Paths, id: uint64)
    requires FanOut.ReleaseOf(r, paths, id)
    ensures |r.order| == |Reporters(paths, id)|
  {
    hide FanOut.Observed, FanOut.SpreadOf, FanOut.Submissions, FanOut.Chained, FanOut.FirstEvidence;
    forall i, j | 0 <= i < j < |r.order| ensures r.order[i] != r.order[j] {
      assert Before(r.order[i], r.order[j]);
    }
    DistinctSize(r.order);
    assert Elements(r.order) == Reporters(paths, id);
  }

  /* ---- What is named ---- */

  /** The releases checkFanOut reports: one per envelope some request names. */
  ghost predicate Reads(paths: Paths, releases: map<uint64, FanOut.Release>) {
    && (forall id :: id in releases <==> id != 0 && exists q :: q in paths && paths[q].envelopeID == id)
    && (forall id :: id in releases ==> FanOut.ReleaseOf(releases[id], paths, id))
  }

  lemma ReleaseNamed(exp: Expectation, paths: Paths, releases: map<uint64, FanOut.Release>, id: uint64, d: Defect)
    requires d in {NoDispatchEvidence(id), MiscountedRelease(id), MisreportedSkew(id), SkewExceeds(id),
                   SerialRelease(id)}
    ensures FanOut.FanOutDefect(exp, paths, releases, d) <==>
            id in releases && FanOut.ReleaseDefect(exp, id, releases[id], d)
  {
  }

  /**
   What is named of an envelope's release: that no member carries the adapter's evidence; and of
   the first that does, that it miscounts the members or misstates how far apart they were
   dispatched; and that they were further apart than the bound, where the run sets one.
   */
  lemma ReleaseNamedExactly(exp: Expectation, paths: Paths, releases: map<uint64, FanOut.Release>, id: uint64)
    requires Reads(paths, releases)
    ensures FanOut.FanOutDefect(exp, paths, releases, NoDispatchEvidence(id)) <==>
            && id != 0 && (exists q :: Reported(paths, id, q))
            && forall q :: Reported(paths, id, q) ==> !Tells(paths, q)
    ensures FanOut.FanOutDefect(exp, paths, releases, MiscountedRelease(id)) <==>
            id != 0 && exists q :: FirstToTell(paths, id, q)
                         && paths[q].dispatchBySource[EMITTER_ADAPTER].dispatched != |Reporters(paths, id)|
    ensures FanOut.FanOutDefect(exp, paths, releases, MisreportedSkew(id)) <==>
            id != 0 && exists q, x :: FirstToTell(paths, id, q) && FurthestApart(paths, id, x)
                         && paths[q].dispatchBySource[EMITTER_ADAPTER].skewNanos != x
    ensures FanOut.FanOutDefect(exp, paths, releases, SkewExceeds(id)) <==>
            && id != 0 && exp.maxDispatchSkew > 0 && (exists q :: FirstToTell(paths, id, q))
            && exists x :: FurthestApart(paths, id, x) && x > exp.maxDispatchSkew
    ensures FanOut.FanOutDefect(exp, paths, releases, SerialRelease(id)) ==>
            id != 0 && (exists q :: FirstToTell(paths, id, q)) && |Reporters(paths, id)| > 1
  {
    hide FanOut.FanOutDefect, Reads, FurthestApart, FirstToTell, Reported;
    EvidenceNamed(exp, paths, releases, id);
    CountNamed(exp, paths, releases, id);
    SkewNamed(exp, paths, releases, id);
    BoundNamed(exp, paths, releases, id);
  }

  lemma EvidenceNamed(exp: Expectation, paths: Paths, releases: map<uint64, FanOut.Release>, id: uint64)
    requires Reads(paths, releases)
    ensures FanOut.FanOutDefect(exp, paths, releases, NoDispatchEvidence(id)) <==>
            && id != 0 && (exists q :: Reported(paths, id, q))
            && forall q :: Reported(paths, id, q) ==> !Tells(paths, q)
    ensures FanOut.FanOutDefect(exp, paths, releases, SerialRelease(id)) ==>
            id != 0 && (exists q :: FirstToTell(paths, id, q)) && |Reporters(paths, id)| > 1
  {
    hide FanOut.FanOutDefect, FanOut.ReleaseOf, FirstToTell, FurthestApart;
    ReleaseNamed(exp, paths, releases, id, NoDispatchEvidence(id));
    ReleaseNamed(exp, paths, releases, id, SerialRelease(id));
    if id in releases {
      ReleaseTells(paths, id, releases[id]);
      var q :| q in paths && paths[q].envelopeID == id;
      assert Reported(paths, id, q);
    } else if id != 0 {
      NobodyReports(paths, id);
    }
  }

  lemma CountNamed(exp: Expectation, paths: Paths, releases: map<uint64, FanOut.Release>, id: uint64)
    requires Reads(paths, releases)
    ensures FanOut.FanOutDefect(exp, paths, releases, MiscountedRelease(id)) <==>
            id != 0 && exists q :: FirstToTell(paths, id, q)
                         && paths[q].dispatchBySource[EMITTER_ADAPTER].dispatched != |Reporters(paths, id)|
  {
    hide FanOut.FanOutDefect, FanOut.ReleaseOf, Reporters;
    ReleaseNamed(exp, paths, releases, id, MiscountedRelease(id));
    if id in releases {
      CountTold(paths, id, releases[id]);
    } else if id != 0 {
      NobodyReports(paths, id);
    }
  }

  lemma CountTold(paths: Paths, id: uint64, r: FanOut.Release)
    requires FanOut.ReleaseOf(r, paths, id)
    ensures r.evidence.Some? && r.evidence.value.dispatched != |r.order| <==>
            exists q :: FirstToTell(paths, id, q)
                        && paths[q].dispatchBySource[EMITTER_ADAPTER].dispatched != |Reporters(paths, id)|
  {
    hide FanOut.ReleaseOf, FurthestApart, Reporters;
    ReleaseTells(paths, id, r);
    if r.evidence.Some? && r.evidence.value.dispatched != |r.order| {
      var q :| FirstToTell(paths, id, q);
      assert r.evidence == Some(paths[q].dispatchBySource[EMITTER_ADAPTER]);
    }
  }

  lemma SkewNamed(exp: Expectation, paths: Paths, releases: map<uint64, FanOut.Release>, id: uint64)
    requires Reads(paths, releases)
    ensures FanOut.FanOutDefect(exp, paths, releases, MisreportedSkew(id)) <==>
            id != 0 && exists q, x :: FirstToTell(paths, id, q) && FurthestApart(paths, id, x)
                         && paths[q].dispatchBySource[EMITTER_ADAPTER].skewNanos != x
  {
    hide FanOut.FanOutDefect, FanOut.ReleaseOf, FurthestApart, Reporters;
    ReleaseNamed(exp, paths, releases, id, MisreportedSkew(id));
    if id in releases {
      SkewTold(paths, id, releases[id]);
    } else if id != 0 {
      NobodyReports(paths, id);
    }
  }

  lemma SkewTold(paths: Paths, id: uint64, r: FanOut.Release)
    requires FanOut.ReleaseOf(r, paths, id)
    ensures r.evidence.Some? && r.evidence.value.skewNanos != r.observedSkew <==>
            exists q, x :: FirstToTell(paths, id, q) && FurthestApart(paths, id, x)
                           && paths[q].dispatchBySource[EMITTER_ADAPTER].skewNanos != x
  {
    hide FanOut.ReleaseOf, FurthestApart, Reporters;
    ReleaseTells(paths, id, r);
    if r.evidence.Some? && r.evidence.value.skewNanos != r.observedSkew {
      var q :| FirstToTell(paths, id, q);
      assert FurthestApart(paths, id, r.observedSkew);
      assert r.evidence == Some(paths[q].dispatchBySource[EMITTER_ADAPTER]);
    }
  }

  lemma BoundNamed(exp: Expectation, paths: Paths, releases: map<uint64, FanOut.Release>, id: uint64)
    requires Reads(paths, releases)
    ensures FanOut.FanOutDefect(exp, paths, releases, SkewExceeds(id)) <==>
            && id != 0 && exp.maxDispatchSkew > 0 && (exists q :: FirstToTell(paths, id, q))
            && exists x :: FurthestApart(paths, id, x) && x > exp.maxDispatchSkew
  {
    hide FanOut.FanOutDefect, FanOut.ReleaseOf, FurthestApart, Reporters, FirstToTell;
    ReleaseNamed(exp, paths, releases, id, SkewExceeds(id));
    if id in releases {
      ReleaseTells(paths, id, releases[id]);
      assert FurthestApart(paths, id, releases[id].observedSkew);
      hide Reads;
    } else if id != 0 {
      NobodyReports(paths, id);
    }
  }

  /** A release's evidence, size and skew on its members' paths. */
  lemma ReleaseTells(paths: Paths, id: uint64, r: FanOut.Release)
    requires FanOut.ReleaseOf(r, paths, id)
    ensures r.evidence.None? <==> forall q :: Reported(paths, id, q) ==> !Tells(paths, q)
    ensures r.evidence.Some? <==> exists q :: FirstToTell(paths, id, q)
    ensures forall q :: FirstToTell(paths, id, q) ==> r.evidence == Some(paths[q].dispatchBySource[EMITTER_ADAPTER])
    ensures |r.order| == |Reporters(paths, id)|
    ensures forall x :: FurthestApart(paths, id, x) <==> x == r.observedSkew
  {
    hide FanOut.ReleaseOf, FurthestApart;
    EvidenceExactly(r, paths, id);
    SkewIsFurthest(r, paths, id);
    SizeIs(r, paths, id);
    forall x ensures FurthestApart(paths, id, x) <==> x == r.observedSkew {
      if FurthestApart(paths, id, x) { FurthestIsOne(paths, id, x, r.observedSkew); }
    }
    forall q | FirstToTell(paths, id, q) ensures r.evidence == Some(paths[q].dispatchBySource[EMITTER_ADAPTER]) {
      var p :| FirstToTell(paths, id, p) && r.evidence.value == paths[p].dispatchBySource[EMITTER_ADAPTER];
      OnlyOneFirst(paths, id, p, q);
    }
  }

  lemma NobodyReports(paths: Paths, id: uint64)
    requires !exists q :: q in paths && paths[q].envelopeID == id
    ensures forall q :: !Reported(paths, id, q) && !FirstToTell(paths, id, q)
    ensures |Reporters(paths, id)| == 0
  {
    assert Reporters(paths, id) == {};
  }

  /* ---- A fan-out that was none ---- */

  /** The adapter submitted q's request for the envelope and had its result, as far as its records say. */
  predicate Submitted(paths: Paths, id: uint64, q: LogicalRequest) {
    Reported(paths, id, q) && BothEnds(paths[q])
  }

  predicate BothEnds(j: Joined) {
    ADAPTER_DISPATCH in j.presence && ADAPTER_RESULT in j.presence
  }

  /** No member was submitted strictly between the two instants. */
  ghost predicate NoneSubmittedBetween(paths: Paths, id: uint64, low: int, high: int) {
    forall p :: Submitted(paths, id, p) ==> !(low < paths[p].ts[ADAPTER_DISPATCH] < high)
  }

  /** Each member was still out when the next was submitted, and when another was submitted with it. */
  ghost predicate OutTogether(paths: Paths, id: uint64) {
    forall q, p :: Submitted(paths, id, q) && Submitted(paths, id, p) && q != p ==>
      Met(paths, id, paths[q].ts[ADAPTER_DISPATCH], paths[q].ts[ADAPTER_RESULT], paths[p].ts[ADAPTER_DISPATCH])
  }

  /** If nobody was submitted between the one and the next, the one came back after the next left. */
  ghost predicate Met(paths: Paths, id: uint64, left: int, back: int, next: int) {
    left <= next && NoneSubmittedBetween(paths, id, left, next) ==> next < back
  }

  /** The requests in order that were submitted. */
  function Submitters(order: seq<LogicalRequest>, paths: Paths): seq<LogicalRequest>
    requires forall q :: q in order ==> q in paths
  {
    if order == [] then []
    else
      var q := order[|order| - 1];
      Submitters(order[..|order| - 1], paths) + if BothEnds(paths[q]) then [q] else []
  }

  function WindowOf(j: Joined): Coverage.Interval {
    Coverage.Interval(j.ts[ADAPTER_DISPATCH], j.ts[ADAPTER_RESULT])
  }

  lemma {:induction false} SubmittersAre(order: seq<LogicalRequest>, paths: Paths)
    requires (forall q :: q in order ==> q in paths) && Distinct(order)
    ensures Distinct(Submitters(order, paths))
    ensures forall q :: q in Submitters(order, paths) <==> q in order && BothEnds(paths[q])
  {
    hide BothEnds;
    if order != [] {
      var n := |order| - 1;
      SubmittersAre(order[..n], paths);
      assert order == order[..n] + [order[n]];
      assert order[n] !in order[..n];
    }
  }

  lemma {:induction false} WindowsAre(order: seq<LogicalRequest>, paths: Paths)
    requires forall q :: q in order ==> q in paths
    ensures forall q :: q in Submitters(order, paths) ==> q in paths
    ensures var (who, w) := (Submitters(order, paths), FanOut.Submissions(Conservation.Members(order, paths)));
            |who| == |w| && forall i :: 0 <= i < |who| ==> who[i] in who && w[i] == WindowOf(paths[who[i]])
  {
    if order != [] {
      var n := |order| - 1;
      WindowsAre(order[..n], paths);
      assert Conservation.Members(order, paths)[..n] == Conservation.Members(order[..n], paths);
    }
  }

  lemma LinkedIsTogether(order: seq<LogicalRequest>, paths: Paths, id: uint64)
    requires FanOut.ReleaseOrder(order, paths, id)
    ensures FanOut.Linked(FanOut.Submissions(Conservation.Members(order, paths))) <==> OutTogether(paths, id)
  {
    forall i, j | 0 <= i < j < |order| ensures order[i] != order[j] {
      assert Before(order[i], order[j]);
    }
    SubmittersAre(order, paths);
    WindowsAre(order, paths);
    var who, w := Submitters(order, paths), FanOut.Submissions(Conservation.Members(order, paths));
    assert forall q :: q in who <==> Submitted(paths, id, q);
    hide FanOut.Submissions, Submitters, FanOut.ReleaseOrder, Submitted;
    LinkedByPlace(who, w, paths, id);
  }

  lemma LinkedByPlace(who: seq<LogicalRequest>, w: seq<Coverage.Interval>, paths: Paths, id: uint64)
    requires |who| == |w| && Distinct(who) && forall q :: q in who <==> Submitted(paths, id, q)
    requires forall i :: 0 <= i < |who| ==> who[i] in paths && w[i] == WindowOf(paths[who[i]])
    ensures FanOut.Linked(w) <==> OutTogether(paths, id)
  {
    hide Submitted;
    forall low, high
      ensures NoneBetween(w, FanOut.StartOf, low, high) <==> NoneSubmittedBetween(paths, id, low, high)
    {
      BetweenByPlace(who, w, paths, id, low, high);
    }
    hide NoneBetween, NoneSubmittedBetween;
    if OutTogether(paths, id) {
      forall i, j | 0 <= i < |w| && 0 <= j < |w| && FanOut.MayFollow(w, i, j) ensures w[j].start < w[i].end {
        assert who[i] in who && who[j] in who;
      }
    }
    if FanOut.Linked(w) {
      forall q, p | Submitted(paths, id, q) && Submitted(paths, id, p) && q != p
        ensures q in paths && p in paths
        ensures Met(paths, id, paths[q].ts[ADAPTER_DISPATCH], paths[q].ts[ADAPTER_RESULT],
                    paths[p].ts[ADAPTER_DISPATCH])
      {
        var i :| 0 <= i < |who| && who[i] == q;
        var j :| 0 <= j < |who| && who[j] == p;
        assert FanOut.MayFollow(w, i, j) ==> w[j].start < w[i].end;
      }
    }
  }

  lemma BetweenByPlace(who: seq<LogicalRequest>, w: seq<Coverage.Interval>, paths: Paths, id: uint64, low: int,
                       high: int)
    requires |who| == |w| && forall q :: q in who <==> Submitted(paths, id, q)
    requires forall i :: 0 <= i < |who| ==> who[i] in paths && w[i] == WindowOf(paths[who[i]])
    ensures NoneBetween(w, FanOut.StartOf, low, high) <==> NoneSubmittedBetween(paths, id, low, high)
  {
    if NoneBetween(w, FanOut.StartOf, low, high) {
      forall p | Submitted(paths, id, p) ensures !(low < paths[p].ts[ADAPTER_DISPATCH] < high) {
        var k :| 0 <= k < |who| && who[k] == p;
        assert !(low < FanOut.StartOf(w[k]) < high);
      }
    }
    if NoneSubmittedBetween(paths, id, low, high) {
      forall k | 0 <= k < |w| ensures !(low < FanOut.StartOf(w[k]) < high) {
        assert who[k] in who;
      }
    }
  }

  /**
   A release of more than one member with evidence escapes being called serial, however its
   submissions are sorted, if and only if each member was still out when the next was submitted,
   and when another was submitted with it.
   */
  lemma SerialExactly(exp: Expectation, paths: Paths, id: uint64, r: FanOut.Release)
    requires FanOut.ReleaseOf(r, paths, id) && r.evidence.Some? && |r.order| > 1
    ensures (forall s :: FanOut.ReleaseOf(s, paths, id) ==> !FanOut.ReleaseDefect(exp, id, s, SerialRelease(id))) <==>
            OutTogether(paths, id)
  {
    FanOut.EveryReleaseDecided(exp, paths, id, r);
    hide FanOut.ReleaseDefect, OutTogether, FanOut.Linked, FanOut.SpreadOf, FanOut.Observed, FanOut.Chained;
    LinkedIsTogether(r.order, paths, id);
  }

  /** Another process's claim to a dispatch is named wherever the request reported an envelope. */
  lemma ForeignNamedExactly(exp: Expectation, paths: Paths, releases: map<uint64, FanOut.Release>, q: LogicalRequest,
                            e: Emitter)
    ensures FanOut.FanOutDefect(exp, paths, releases, ForeignDispatch(q, e)) <==>
            q in paths && paths[q].envelopeID != 0 && e != EMITTER_ADAPTER && e in paths[q].dispatchBySource
  {
  }

  /** The whole of a release is as its evidence says, within the bound where there is one. */
  ghost predicate TrulyTold(exp: Expectation, paths: Paths, id: uint64) {
    && (exists q :: FirstToTell(paths, id, q))
    && (forall q :: FirstToTell(paths, id, q) ==>
          && paths[q].dispatchBySource[EMITTER_ADAPTER].dispatched == |Reporters(paths, id)|
          && FurthestApart(paths, id, paths[q].dispatchBySource[EMITTER_ADAPTER].skewNanos)
          && (exp.maxDispatchSkew > 0 ==> paths[q].dispatchBySource[EMITTER_ADAPTER].skewNanos <= exp.maxDispatchSkew))
  }

  /**
   What a pass says of releases, in every cell through the adapter: each is as its evidence says, and only
   the adapter claims one.
   */
  lemma PassMeansTold(exp: Expectation, paths: Paths, v: V.Verdict)
    requires exp.cell != D0 && !exp.cell.UnknownCell? && V.Judges(exp, paths, v) && v.passed
    ensures exp.cell in {F10, F11D, F11P} ==> exp.maxDispatchSkew > 0
    ensures forall q :: q in paths && paths[q].envelopeID != 0 ==>
              && TrulyTold(exp, paths, paths[q].envelopeID)
              && forall e :: e in paths[q].dispatchBySource ==> e == EMITTER_ADAPTER
  {
    PassedReleases(exp, paths, v);
    hide V.Judges, FanOut.FanOutDefect, TrulyTold, Reads;
    var releases := v.cohorts.releases;
    forall q | q in paths && paths[q].envelopeID != 0
      ensures TrulyTold(exp, paths, paths[q].envelopeID)
      ensures forall e :: e in paths[q].dispatchBySource ==> e == EMITTER_ADAPTER
    {
      ReadsRelease(paths, releases, q);
      NothingNamedMeans(exp, paths, releases, paths[q].envelopeID);
      forall e | e in paths[q].dispatchBySource ensures e == EMITTER_ADAPTER {
        ForeignNamedExactly(exp, paths, releases, q, e);
      }
    }
  }

  lemma ReadsRelease(paths: Paths, releases: map<uint64, FanOut.Release>, q: LogicalRequest)
    requires Reads(paths, releases) && q in paths && paths[q].envelopeID != 0
    ensures paths[q].envelopeID in releases
    ensures FanOut.ReleaseOf(releases[paths[q].envelopeID], paths, paths[q].envelopeID)
  {
    hide FanOut.ReleaseOf;
  }

  lemma NothingNamedMeans(exp: Expectation, paths: Paths, releases: map<uint64, FanOut.Release>, id: uint64)
    requires id in releases && FanOut.ReleaseOf(releases[id], paths, id)
    requires forall d :: !FanOut.FanOutDefect(exp, paths, releases, d)
    ensures TrulyTold(exp, paths, id)
  {
    hide FanOut.FanOutDefect, FanOut.ReleaseOf, TrulyTold;
    ReleaseNamed(exp, paths, releases, id, NoDispatchEvidence(id));
    ReleaseNamed(exp, paths, releases, id, MiscountedRelease(id));
    ReleaseNamed(exp, paths, releases, id, MisreportedSkew(id));
    ReleaseNamed(exp, paths, releases, id, SkewExceeds(id));
    TrueRelease(exp, paths, id, releases[id]);
  }

  lemma TrueRelease(exp: Expectation, paths: Paths, id: uint64, r: FanOut.Release)
    requires FanOut.ReleaseOf(r, paths, id) && r.evidence.Some?
    requires r.evidence.value.dispatched == |r.order| && r.evidence.value.skewNanos == r.observedSkew
    requires exp.maxDispatchSkew > 0 ==> r.observedSkew <= exp.maxDispatchSkew
    ensures TrulyTold(exp, paths, id)
  {
    hide FirstToTell, FurthestApart, Reporters, FanOut.ReleaseOf;
    ReleaseTells(paths, id, r);
    forall q | FirstToTell(paths, id, q)
      ensures Reported(paths, id, q) && Tells(paths, q)
      ensures r.evidence == Some(paths[q].dispatchBySource[EMITTER_ADAPTER])
    {
      FirstTells(paths, id, q);
    }
  }

  lemma FirstTells(paths: Paths, id: uint64, q: LogicalRequest)
    requires FirstToTell(paths, id, q)
    ensures Reported(paths, id, q) && Tells(paths, q)
  {
  }

  lemma PassedReleases(exp: Expectation, paths: Paths, v: V.Verdict)
    requires exp.cell != D0 && !exp.cell.UnknownCell? && V.Judges(exp, paths, v) && v.passed
    ensures exp.cell.AggregatesEnvelopes() ==> exp.maxDispatchSkew > 0
    ensures Reads(paths, v.cohorts.releases)
    ensures forall d :: !FanOut.FanOutDefect(exp, paths, v.cohorts.releases, d)
  {
    hide V.PathsJudged, V.ExecutionsJudged, V.ConservationJudged, V.AdapterJudged, Diagnoses, FanOut.FanOutDefect,
         FanOut.ReleaseOf;
    forall c ensures c !in v.failures {
      assert FormationFailed(c) !in v.cohorts.formation;
    }
    assert v.failures == map[] && v.failures.Keys == {} && Without(paths, {}) == paths;
    forall d ensures !FanOut.FanOutDefect(exp, paths, v.cohorts.releases, d) {
      assert d !in v.cohorts.fanOut;
    }
  }
}
