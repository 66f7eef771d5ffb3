/**
 What the validator finds in the paths of a run whose records were built whole
 (internal/testkit/fixtures.go, internal/validate/validate.go): where the records are those of
 the scheduled requests, each with its own uid and in order along its cell's chain, no check of
 single paths names anything.
 */
module CleanPaths {
  import opened Identity
  import opened Schema
  import opened Chains
  import opened Joins
  import opened Conservation
  import opened Bundles
  import C = Checks
  import V = Verdict

  /** The expectation Build puts beside the records of a V=off run. */
  ghost predicate Expects(exp: C.Expectation, h: RunHeader) {
    && !exp.cell.UnknownCell? && exp.clockDomain in {[], h.clockDomain} && exp.batchSize == 1 && exp.droppedRecords == 0
    && forall d :: !C.ContaminationDefect(exp, d)
  }

  /** The records were made for exactly the requests the run scheduled. */
  ghost predicate AsScheduled(exp: C.Expectation, parts: seq<Part>) {
    forall q :: C.Scheduled(exp, q) <==> exists i :: 0 <= i < |parts| && parts[i].q == q
  }

  /** One request's records attest it alone and never go backwards along the chain. */
  ghost predicate SoundPart(exp: C.Expectation, p: Part) {
    && p.batchSize == 1 && p.membership == [Uid(p.q)] && UidRequest(Uid(p.q)) == p.q && p.q.ordinal < exp.cohortSize
    && Chain(exp.cell).Some?
    && forall k :: 0 <= k < |Chain(exp.cell).value| ==>
         Measured(Chain(exp.cell).value[k], p.at) && Duration(Chain(exp.cell).value[k], p.at) >= 0
  }

  ghost predicate Clean(exp: C.Expectation, h: RunHeader, parts: seq<Part>, paths: Paths) {
    && Expects(exp, h) && AsScheduled(exp, parts) && Joined4(exp.cell, h, parts, paths)
    && forall i :: 0 <= i < |parts| ==> SoundPart(exp, parts[i])
  }

  lemma PartAt(exp: C.Expectation, h: RunHeader, parts: seq<Part>, paths: Paths, q: LogicalRequest) returns (p: Part)
    requires Clean(exp, h, parts, paths) && q in paths
    ensures p.q == q && SoundPart(exp, p) && PutTogether(exp.cell, h, p, 4, paths[q]) && C.Scheduled(exp, q)
  {
    hide SoundPart, PutTogether, C.Scheduled;
    var i :| 0 <= i < |parts| && parts[i].q == q;
    p := parts[i];
  }

  lemma IntegrityClean(exp: C.Expectation, h: RunHeader, parts: seq<Part>, paths: Paths, d: C.Defect)
    requires Clean(exp, h, parts, paths)
    ensures !C.IntegrityDefect(exp, paths, d)
  {
    hide SoundPart, PutTogether, C.Scheduled, C.IntegrityAt;
    forall q | C.Scheduled(exp, q) ensures !C.IntegrityAt(paths, q, d) {
      assert q in paths;
      var p := PartAt(exp, h, parts, paths, q);
      RecordedOnce(exp, h, p, paths, q, d);
    }
    if d.Unscheduled? && d.q in paths {
      var p := PartAt(exp, h, parts, paths, d.q);
    }
  }

  lemma RecordedOnce(exp: C.Expectation, h: RunHeader, p: Part, paths: Paths, q: LogicalRequest, d: C.Defect)
    requires q in paths && PutTogether(exp.cell, h, p, 4, paths[q])
    ensures !C.IntegrityAt(paths, q, d)
  {
    hide StagesTogether;
  }

  lemma RuleClean(exp: C.Expectation, h: RunHeader, parts: seq<Part>, paths: Paths, rule: C.Rule, d: C.Defect)
    requires Clean(exp, h, parts, paths) && PathRule(exp.cell, rule)
    ensures !C.RuleDefect(exp, rule, paths, d)
  {
    forall q | q in paths ensures !C.RuleAt(exp, rule, paths[q], d) {
      var p := PartAt(exp, h, parts, paths, q);
      hide C.RuleAt, PathRule, PutTogether, Joined4, AsScheduled, Chain, Uid, UidRequest;
      PathIsSound(exp, h, p, paths[q], rule, d);
    }
  }

  lemma PlainRules(cell: Cell)
    ensures PathRule(cell, C.ClockRule) && PathRule(cell, C.OwnershipRule) && PathRule(cell, C.MembershipRule)
    ensures Topology(cell).Some? && Chain(cell).Some? ==>
              PathRule(cell, C.PresenceRule(Topology(cell).value)) && PathRule(cell, C.OrderingRule(Chain(cell).value))
  {
  }

  /** None of the checks of single paths names anything. */
  lemma PathsClean(exp: C.Expectation, h: RunHeader, parts: seq<Part>, paths: Paths, f: V.PathFindings)
    requires Clean(exp, h, parts, paths) && V.PathsJudged(exp, paths, paths, f)
    ensures f.None()
  {
    assert !exp.cell.UnknownCell? && forall d :: !C.ContaminationDefect(exp, d);
    ChainVisitsTopology(exp.cell);
    PlainRules(exp.cell);
    var presence, ordering := C.PresenceRule(Topology(exp.cell).value), C.OrderingRule(Chain(exp.cell).value);
    hide Clean, C.IntegrityDefect, C.RuleDefect, C.ContaminationDefect, PathRule, Topology, Chain, ChainStages, Linked;
    forall d: C.Defect
      ensures !C.IntegrityDefect(exp, paths, d)
      ensures !C.RuleDefect(exp, C.ClockRule, paths, d) && !C.RuleDefect(exp, C.OwnershipRule, paths, d)
      ensures !C.RuleDefect(exp, C.MembershipRule, paths, d)
      ensures !C.RuleDefect(exp, presence, paths, d) && !C.RuleDefect(exp, ordering, paths, d)
    {
      IntegrityClean(exp, h, parts, paths, d);
      RuleClean(exp, h, parts, paths, C.ClockRule, d);
      RuleClean(exp, h, parts, paths, C.OwnershipRule, d);
      RuleClean(exp, h, parts, paths, C.MembershipRule, d);
      RuleClean(exp, h, parts, paths, presence, d);
      RuleClean(exp, h, parts, paths, ordering, d);
    }
    HeadsIn(f);
  }

  lemma HeadsIn(f: V.PathFindings)
    ensures f.integrity != [] ==> f.integrity[0] in f.integrity
    ensures f.clock != [] ==> f.clock[0] in f.clock
    ensures f.presence != [] ==> f.presence[0] in f.presence
    ensures f.ownership != [] ==> f.ownership[0] in f.ownership
    ensures f.ordering != [] ==> f.ordering[0] in f.ordering
    ensures f.membership != [] ==> f.membership[0] in f.membership
    ensures f.contamination != [] ==> f.contamination[0] in f.contamination
  {
  }
}
