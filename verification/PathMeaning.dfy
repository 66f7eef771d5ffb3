/**
 What a joined path says about the records it was made from (internal/validate/validate.go,
 Join): every field in terms of the records themselves, in whatever order they were read.
 */
module PathMeaning {
  import opened Identity
  import opened Schema
  import opened Joins

  /** Record i is one of q's. */
  predicate Of(records: seq<Decoded>, q: LogicalRequest, i: int) {
    0 <= i < |records| && records[i].record.Request() == q
  }

  /** Some record is one of q's. */
  ghost predicate Recorded(records: seq<Decoded>, q: LogicalRequest) {
    exists i :: Of(records, q, i)
  }

  function CountOf(records: seq<Decoded>, q: LogicalRequest, e: Emitter): nat {
    if records == [] then 0
    else
      var n := |records| - 1;
      CountOf(records[..n], q, e)
      + (if records[n].record.Request() == q && records[n].record.emitter == e then 1 else 0)
  }

  /** Record i is the last of q's to carry stage s. */
  ghost predicate LastToCarry(records: seq<Decoded>, q: LogicalRequest, s: Stage, i: int) {
    && Of(records, q, i) && records[i].record.Has(s)
    && forall k :: i < k < |records| && Of(records, q, k) ==> !records[k].record.Has(s)
  }

  ghost predicate LastToAttest(records: seq<Decoded>, q: LogicalRequest, i: int) {
    && Of(records, q, i) && records[i].record.membership != []
    && forall k :: i < k < |records| && Of(records, q, k) ==> records[k].record.membership == []
  }

  ghost predicate LastToName(records: seq<Decoded>, q: LogicalRequest, i: int) {
    && Of(records, q, i) && records[i].record.envelopeID != 0
    && forall k :: i < k < |records| && Of(records, q, k) ==> records[k].record.envelopeID == 0
  }

  ghost predicate LastToSize(records: seq<Decoded>, q: LogicalRequest, i: int) {
    && Of(records, q, i) && records[i].record.batchSize > 0
    && forall k :: i < k < |records| && Of(records, q, k) ==> records[k].record.batchSize == 0
  }

  /** Record i is the last of q's that process e wrote with uids in it. */
  ghost predicate LastAttestedBy(records: seq<Decoded>, q: LogicalRequest, e: Emitter, i: int) {
    && Of(records, q, i) && records[i].record.emitter == e && records[i].record.membership != []
    && forall k :: i < k < |records| && Of(records, q, k) && records[k].record.emitter == e ==>
         records[k].record.membership == []
  }

  ghost predicate LastDispatchedBy(records: seq<Decoded>, q: LogicalRequest, e: Emitter, i: int) {
    && Of(records, q, i) && records[i].record.emitter == e && records[i].record.hasDispatch
    && forall k :: i < k < |records| && Of(records, q, k) && records[k].record.emitter == e ==>
         !records[k].record.hasDispatch
  }

  /** What one more record does to the path of q. */
  lemma AddedPath(records: seq<Decoded>, q: LogicalRequest)
    requires records != []
    ensures var d, before := records[|records| - 1], JoinOf(records[..|records| - 1]);
            && (q in JoinOf(records) <==> q in before || d.record.Request() == q)
            && PathOf(JoinOf(records), q)
               == if d.record.Request() == q then Merge(PathOf(before, q), d) else PathOf(before, q)
  {
    hide Merge;
  }

  /** The fields of a path after one more record. */
  lemma MergedFields(j: Joined, d: Decoded)
    ensures var k, rec := Merge(j, d), d.record;
            && k.request == j.request && k.presence == j.presence + Carried(rec)
            && k.status == (if rec.status != STATUS_UNSPECIFIED then HigherStatus(j.status, rec.status) else j.status)
            && k.domains == j.domains + {d.header.clockDomain}
            && k.schemaVersions == j.schemaVersions + {d.schemaVersion}
            && k.emitters == Counted(j.emitters, rec.emitter)
            && k.envelopeID == (if rec.envelopeID != 0 then rec.envelopeID else j.envelopeID)
            && k.membership == (if rec.membership != [] then rec.membership else j.membership)
            && k.membershipCount == (if rec.membership != [] then rec.membershipCount else j.membershipCount)
            && k.batchSize == (if rec.batchSize > 0 then rec.batchSize else j.batchSize)
  {
    hide CarriedTimes, CarriedOwners, Noted, Counted, HigherStatus, Carried, MaskHas;
  }

  lemma MergedStage(j: Joined, d: Decoded, s: Stage)
    ensures var k, rec := Merge(j, d), d.record;
            && (s in k.presence <==> s in j.presence || rec.Has(s))
            && k.ts[s] == (if rec.Has(s) then rec.ts[s] else j.ts[s])
            && k.stageEmitter[s] == (if rec.Has(s) then rec.emitter else j.stageEmitter[s])
  {
    hide Noted, Counted, HigherStatus, Latest, MaskHas;
  }

  lemma {:induction false} InJoin(records: seq<Decoded>, q: LogicalRequest)
    ensures q in JoinOf(records) <==> exists i :: Of(records, q, i)
    ensures PathOf(JoinOf(records), q).request == q
  {
    hide Merge;
    if records != [] {
      var n := |records| - 1;
      InJoin(records[..n], q);
      AddedPath(records, q);
      MergedFields(PathOf(JoinOf(records[..|records| - 1]), q), records[|records| - 1]);
      assert forall i :: 0 <= i < n ==> records[..n][i] == records[i];
      if exists i :: Of(records, q, i) {
        var i :| Of(records, q, i);
        assert i < n ==> Of(records[..n], q, i);
      }
      if Of(records, q, n) {
      } else if q in JoinOf(records) {
        var i :| Of(records[..n], q, i);
        assert Of(records, q, i);
      }
    }
  }

  /** How many records each process wrote for the request. */
  lemma {:induction false} EmittersMean(records: seq<Decoded>, q: LogicalRequest, e: Emitter)
    ensures var j := PathOf(JoinOf(records), q);
            CountOf(records, q, e) == if e in j.emitters then j.emitters[e] else 0
  {
    hide Merge;
    if records != [] {
      EmittersMean(records[..|records| - 1], q, e);
      AddedPath(records, q);
      MergedFields(PathOf(JoinOf(records[..|records| - 1]), q), records[|records| - 1]);
    }
  }

  /** Some record of q carries stage s. */
  ghost predicate SomeCarries(records: seq<Decoded>, q: LogicalRequest, s: Stage) {
    exists i :: Of(records, q, i) && records[i].record.Has(s)
  }

  /** A stage is present exactly when some record carries it. */
  lemma {:induction false} StagePresent(records: seq<Decoded>, q: LogicalRequest, s: Stage)
    ensures s in PathOf(JoinOf(records), q).presence <==> SomeCarries(records, q, s)
  {
    hide Merge, Add, MaskHas;
    if records != [] {
      var n := |records| - 1;
      var before := records[..n];
      StagePresent(before, q, s);
      AddedPath(records, q);
      MergedStage(PathOf(JoinOf(records[..|records| - 1]), q), records[|records| - 1], s);
      if SomeCarries(before, q, s) {
        var i :| Of(before, q, i) && before[i].record.Has(s);
        assert Of(records, q, i) && records[i].record.Has(s);
      }
      if Of(records, q, n) && records[n].record.Has(s) {
        assert SomeCarries(records, q, s);
      } else if SomeCarries(records, q, s) {
        var i :| Of(records, q, i) && records[i].record.Has(s);
        assert Of(before, q, i) && before[i].record.Has(s);
      }
    }
  }

  /** Its value and its owner are those of the last record to carry it. */
  lemma {:induction false} StageValue(records: seq<Decoded>, q: LogicalRequest, s: Stage, i: nat)
    requires LastToCarry(records, q, s, i)
    ensures var j := PathOf(JoinOf(records), q);
            j.ts[s] == records[i].record.ts[s] && j.stageEmitter[s] == records[i].record.emitter
  {
    hide Merge, Add, MaskHas;
    var n := |records| - 1;
    AddedPath(records, q);
    MergedStage(PathOf(JoinOf(records[..|records| - 1]), q), records[|records| - 1], s);
    if i < n {
      assert forall k :: Of(records[..n], q, k) ==> Of(records, q, k) && records[..n][k] == records[k];
      StageValue(records[..n], q, s, i);
    }
  }

  /** If some record of q's is such, one is the last to be. */
  lemma {:induction false} LastSuch(records: seq<Decoded>, q: LogicalRequest, such: Record -> bool, k: nat)
    returns (i: nat)
    requires Of(records, q, k) && such(records[k].record)
    ensures Of(records, q, i) && such(records[i].record)
    ensures forall l :: i < l < |records| && Of(records, q, l) ==> !such(records[l].record)
  {
    var n := |records| - 1;
    if Of(records, q, n) && such(records[n].record) {
      i := n;
    } else {
      assert Of(records[..n], q, k);
      i := LastSuch(records[..n], q, such, k);
      assert forall l :: Of(records, q, l) && l < n ==> Of(records[..n], q, l);
    }
  }

  /** A carried stage has a last record to carry it. */
  lemma LastCarrier(records: seq<Decoded>, q: LogicalRequest, s: Stage) returns (i: nat)
    requires SomeCarries(records, q, s)
    ensures LastToCarry(records, q, s, i)
  {
    hide MaskHas;
    var k :| Of(records, q, k) && records[k].record.Has(s);
    i := LastSuch(records, q, (r: Record) => r.Has(s), k);
  }

  /* ---- Status ---- */

  /** The status is one some record states, and none states a more diagnostic one. */
  lemma {:induction false} StatusMeans(records: seq<Decoded>, q: LogicalRequest)
    ensures var status := PathOf(JoinOf(records), q).status;
            && status <= STATUS_TIMEOUT
            && (status == STATUS_UNSPECIFIED
                || exists d :: d in records && d.record.Request() == q && d.record.status == status)
            && (forall d :: d in records && d.record.Request() == q ==>
                  StatusRank(d.record.status) <= StatusRank(status))
  {
    hide Merge, Add;
    if records != [] {
      var n := |records| - 1;
      assert records == records[..n] + [records[n]];
      StatusMeans(records[..n], q);
      AddedPath(records, q);
      MergedFields(PathOf(JoinOf(records[..|records| - 1]), q), records[|records| - 1]);
      assert records[n] in records;
    }
  }

  lemma StatusAtMost(a: seq<Decoded>, b: seq<Decoded>, q: LogicalRequest)
    requires multiset(a) == multiset(b)
    ensures StatusRank(PathOf(JoinOf(a), q).status) <= StatusRank(PathOf(JoinOf(b), q).status)
  {
    hide JoinOf, PathOf, Add, Merge;
    StatusMeans(a, q);
    StatusMeans(b, q);
    var status := PathOf(JoinOf(a), q).status;
    if status != STATUS_UNSPECIFIED {
      var d :| d in a && d.record.Request() == q && d.record.status == status;
      assert d in multiset(a) && d in multiset(b);
    }
  }

  /** The order the records are read in never decides a request's status, whatever else they disagree about. */
  lemma StatusUnconditional(a: seq<Decoded>, b: seq<Decoded>, q: LogicalRequest)
    requires multiset(a) == multiset(b)
    ensures PathOf(JoinOf(a), q).status == PathOf(JoinOf(b), q).status
  {
    hide JoinOf, PathOf, Add, Merge;
    StatusAtMost(a, b, q);
    StatusAtMost(b, a, q);
    StatusMeans(a, q);
    StatusMeans(b, q);
  }

  /* ---- Envelope, membership, clock domains ---- */

  lemma {:induction false} EnvelopeMeans(records: seq<Decoded>, q: LogicalRequest, i: nat)
    requires LastToName(records, q, i)
    ensures PathOf(JoinOf(records), q).envelopeID == records[i].record.envelopeID
  {
    hide Merge, Add;
    var n := |records| - 1;
    AddedPath(records, q);
    MergedFields(PathOf(JoinOf(records[..|records| - 1]), q), records[|records| - 1]);
    if i < n {
      assert forall k :: Of(records[..n], q, k) ==> Of(records, q, k) && records[..n][k] == records[k];
      EnvelopeMeans(records[..n], q, i);
    }
  }

  lemma {:induction false} MembershipMeans(records: seq<Decoded>, q: LogicalRequest, i: nat)
    requires LastToAttest(records, q, i)
    ensures var j := PathOf(JoinOf(records), q);
            j.membership == records[i].record.membership && j.membershipCount == records[i].record.membershipCount
  {
    hide Merge, Add;
    var n := |records| - 1;
    AddedPath(records, q);
    MergedFields(PathOf(JoinOf(records[..|records| - 1]), q), records[|records| - 1]);
    if i < n {
      assert forall k :: Of(records[..n], q, k) ==> Of(records, q, k) && records[..n][k] == records[k];
      MembershipMeans(records[..n], q, i);
    }
  }

  lemma {:induction false} BatchSizeMeans(records: seq<Decoded>, q: LogicalRequest, i: nat)
    requires LastToSize(records, q, i)
    ensures PathOf(JoinOf(records), q).batchSize == records[i].record.batchSize
  {
    hide Merge, Add;
    var n := |records| - 1;
    AddedPath(records, q);
    MergedFields(PathOf(JoinOf(records[..|records| - 1]), q), records[|records| - 1]);
    if i < n {
      assert forall k :: Of(records[..n], q, k) ==> Of(records, q, k) && records[..n][k] == records[k];
      BatchSizeMeans(records[..n], q, i);
    }
  }

  /** A path says of envelope, members and batch only what some record says. */
  lemma {:induction false} NothingUnsaid(records: seq<Decoded>, q: LogicalRequest)
    ensures var j := PathOf(JoinOf(records), q);
            && (j.envelopeID != 0 ==> exists i :: Of(records, q, i) && records[i].record.envelopeID != 0)
            && (j.membership != [] ==> exists i :: Of(records, q, i) && records[i].record.membership != [])
            && (j.batchSize > 0 ==> exists i :: Of(records, q, i) && records[i].record.batchSize > 0)
  {
    hide Merge, Add;
    if records != [] {
      var n := |records| - 1;
      NothingUnsaid(records[..n], q);
      AddedPath(records, q);
      MergedFields(PathOf(JoinOf(records[..|records| - 1]), q), records[|records| - 1]);
      assert forall i :: Of(records[..n], q, i) ==> Of(records, q, i) && records[..n][i] == records[i];
    }
  }

  /** What each process observed is kept apart: its last record decides, whatever others wrote after it. */
  lemma {:induction false} AttestedMeans(records: seq<Decoded>, q: LogicalRequest, e: Emitter, i: nat)
    requires LastAttestedBy(records, q, e, i)
    ensures var seen := PathOf(JoinOf(records), q).membershipBySource;
            e in seen && seen[e] == records[i].record.membership
  {
    hide Merge, Add;
    var n := |records| - 1;
    AddedPath(records, q);
    MergedNotes(PathOf(JoinOf(records[..|records| - 1]), q), records[|records| - 1]);
    if i < n {
      assert forall k :: Of(records[..n], q, k) ==> Of(records, q, k) && records[..n][k] == records[k];
      AttestedMeans(records[..n], q, e, i);
    }
  }

  /** A path says what a process observed only where the process wrote it. */
  lemma {:induction false} NothingUnseen(records: seq<Decoded>, q: LogicalRequest, e: Emitter)
    ensures var j := PathOf(JoinOf(records), q);
            && (e in j.membershipBySource ==>
                  exists i :: Of(records, q, i) && records[i].record.emitter == e && records[i].record.membership != [])
            && (e in j.dispatchBySource ==>
                  exists i :: Of(records, q, i) && records[i].record.emitter == e && records[i].record.hasDispatch)
  {
    hide Merge, Add;
    if records != [] {
      var n := |records| - 1;
      NothingUnseen(records[..n], q, e);
      AddedPath(records, q);
      MergedNotes(PathOf(JoinOf(records[..|records| - 1]), q), records[|records| - 1]);
      assert forall i :: Of(records[..n], q, i) ==> Of(records, q, i) && records[..n][i] == records[i];
    }
  }

  lemma {:induction false} DispatchedMeans(records: seq<Decoded>, q: LogicalRequest, e: Emitter, i: nat)
    requires LastDispatchedBy(records, q, e, i)
    ensures var seen := PathOf(JoinOf(records), q).dispatchBySource; e in seen && seen[e] == records[i].record.dispatch
  {
    hide Merge, Add;
    var n := |records| - 1;
    AddedPath(records, q);
    MergedNotes(PathOf(JoinOf(records[..|records| - 1]), q), records[|records| - 1]);
    if i < n {
      assert forall k :: Of(records[..n], q, k) ==> Of(records, q, k) && records[..n][k] == records[k];
      DispatchedMeans(records[..n], q, e, i);
    }
  }

  /** Record i is the last of q's that process e wrote with a status in it. */
  ghost predicate LastStatedBy(records: seq<Decoded>, q: LogicalRequest, e: Emitter, i: int) {
    && Of(records, q, i) && records[i].record.emitter == e && records[i].record.status != STATUS_UNSPECIFIED
    && forall k :: i < k < |records| && Of(records, q, k) && records[k].record.emitter == e ==>
         records[k].record.status == STATUS_UNSPECIFIED
  }

  /** Each process's own view of the outcome is kept apart, too. */
  lemma {:induction false} StatedMeans(records: seq<Decoded>, q: LogicalRequest, e: Emitter, i: nat)
    requires LastStatedBy(records, q, e, i)
    ensures var seen := PathOf(JoinOf(records), q).statusBySource; e in seen && seen[e] == records[i].record.status
  {
    hide Merge, Add;
    var n := |records| - 1;
    AddedPath(records, q);
    MergedNotes(PathOf(JoinOf(records[..|records| - 1]), q), records[|records| - 1]);
    if i < n {
      assert forall k :: Of(records[..n], q, k) ==> Of(records, q, k) && records[..n][k] == records[k];
      StatedMeans(records[..n], q, e, i);
    }
  }

  lemma {:induction false} DomainsMean(records: seq<Decoded>, q: LogicalRequest)
    ensures var j := PathOf(JoinOf(records), q);
            && (forall x :: x in j.domains <==> exists i :: Of(records, q, i) && records[i].header.clockDomain == x)
            && (forall x :: x in j.schemaVersions <==> exists i :: Of(records, q, i) && records[i].schemaVersion == x)
  {
    hide Merge, Add;
    if records != [] {
      var n := |records| - 1;
      DomainsMean(records[..n], q);
      AddedPath(records, q);
      MergedFields(PathOf(JoinOf(records[..|records| - 1]), q), records[|records| - 1]);
      assert forall i :: Of(records, q, i) && i < n ==> Of(records[..n], q, i);
      assert forall i :: Of(records[..n], q, i) ==> Of(records, q, i);
    }
  }
}
