/**
 Two diagnoses of one failure: what the proxy says of a cohort it failed at its deadline
 (internal/proxy/cohort.go, expire and absent), and what the validator makes of the records
 that failure leaves behind (internal/validate/aggregation.go, findFormationFailures).
 */
module ExpiredCohorts {
  import opened Identity
  import opened Schema
  import opened Envelope
  import opened Formation
  import opened Proxy
  import opened ProxyRuns
  import opened Joins
  import opened PathMeaning
  import opened Sorting
  import Checks
  import A = Aggregation
  import RT = RoundTrip
  import S = Stream
  import Writer
  import BankPool

  /** The formation's deadline failed it. */
  predicate HasExpired(w: World, f: nat) {
    f < |w.reg.formations| && w.reg.formations[f].terminal.Some? && w.reg.formations[f].terminal.value.Expired?
  }

  /** What a record that is not the proxy's own says of formation: nothing. */
  predicate Bystander(rec: Record) {
    !rec.Has(PROXY_RECV) && !rec.Has(COHORT_SEAL)
  }

  /** The proxy wrote this record in this run. */
  ghost predicate FromProxy(w: World, seen: Record) {
    exists k :: 0 <= k < |w.emitted| && RT.ReadAs(seen, w.emitted[k].rec)
  }

  ghost predicate InRecords(records: seq<Decoded>, rec: Record) {
    exists i :: 0 <= i < |records| && RT.ReadAs(records[i].record, rec)
  }

  /**
   The records of a finished run as they bear on one cohort: the proxy's, all of them, and
   others that say nothing of formation, at least one for each of the B ordinals that were
   released and none beyond.
   */
  ghost predicate Evidence(w: World, cohort: uint32, records: seq<Decoded>) {
    && (forall c :: 0 <= c < |w.callers| && w.callers[c].member.cohort == cohort ==> w.callers[c].at.Gone?)
    && (forall d :: d in records && d.record.cohort == cohort ==>
          d.record.ordinal < w.cfg.targetB && (Bystander(d.record) || FromProxy(w, d.record)))
    && (forall k :: 0 <= k < |w.emitted| && w.emitted[k].rec.cohort == cohort ==> InRecords(records, w.emitted[k].rec))
    && (forall o: uint32 :: o < w.cfg.targetB ==> Recorded(records, LogicalRequest(cohort, o)))
  }

  /** Some caller submitted ordinal o of the cohort. */
  ghost predicate Submitted(w: World, cohort: uint32, o: uint32) {
    exists c :: 0 <= c < |w.callers| && w.callers[c].member == LogicalRequest(cohort, o)
  }

  /** Nobody reached the proxy under this cohort id but the members formation f had admitted. */
  ghost predicate NoLateArrival(w: World, f: nat)
    requires f < |w.reg.formations|
  {
    forall o: uint32 :: Submitted(w, w.reg.formations[f].cohort, o) ==> (f, o as nat) in w.admitter
  }

  lemma SealedIsNotExpired(r: Registry, f: nat, g: nat)
    requires Inv(r) && f < |r.formations| && g < |r.formations|
    requires r.formations[f].terminal.Some? && !r.formations[f].Marker() && r.formations[g].sealed
    ensures r.formations[f].cohort != r.formations[g].cohort
  {
    assert Shape(r, f) && Shape(r, g);
  }

  /** Every record the proxy wrote for a cohort that expired says the member arrived, and no more. */
  lemma OnlyArrivals(w: World, f: nat, k: nat)
    requires WInv(w) && HasExpired(w, f) && k < |w.emitted| && w.emitted[k].rec.cohort == w.reg.formations[f].cohort
    ensures var rec := w.emitted[k].rec;
            && rec.Has(PROXY_RECV) && !rec.Has(COHORT_SEAL)
            && w.emitted[k].caller < |w.callers| && rec.Request() == w.callers[w.emitted[k].caller].member
  {
    hide ReplyRecord, ArrivalRecord, SlotsOk, CausesOk, SealersOk, SentOk, EnvelopesOk, AdmitterOk, TimesOk;
    var e := w.emitted[k];
    assert RecordOk(w, k) && CallerOk(w, e.caller);
    var caller := w.callers[e.caller];
    if e.f.None? {
      ArrivalStages(caller.member, caller.payload, caller.recvAt, e.status);
    } else {
      var g := e.f.value;
      var G := w.reg.formations[g];
      ReplyStages(caller.member, caller.payload, caller.recvAt, G.env.value, G.sealAt, G.sendAt, G.respRecvAt,
                  e.fanoutAt, e.status);
      SealedIsNotExpired(w.reg, f, g);
    }
  }

  /** A caller that has returned left the record of its arrival. */
  lemma LeftRecord(w: World, c: nat) returns (k: nat)
    requires WInv(w) && c < |w.callers| && w.callers[c].at.Gone?
    ensures k < |w.emitted| && w.emitted[k].caller == c && w.emitted[k].rec.Request() == w.callers[c].member
  {
    hide ReplyRecord, ArrivalRecord, SlotsOk, CausesOk, SealersOk, SentOk, EnvelopesOk, AdmitterOk, TimesOk;
    assert CallerOk(w, c);
    k := w.callers[c].at.k;
    assert RecordOk(w, k);
    var e, caller := w.emitted[k], w.callers[c];
    if e.f.None? {
      ArrivalStages(caller.member, caller.payload, caller.recvAt, e.status);
    } else {
      var G := w.reg.formations[e.f.value];
      ReplyStages(caller.member, caller.payload, caller.recvAt, G.env.value, G.sealAt, G.sendAt, G.respRecvAt,
                  e.fanoutAt, e.status);
    }
  }

  /** The joined path of an ordinal carries an arrival exactly when someone submitted it, and never a seal. */
  lemma PathOfOrdinal(w: World, f: nat, records: seq<Decoded>, o: uint32)
    requires WInv(w) && HasExpired(w, f) && Evidence(w, w.reg.formations[f].cohort, records) && o < w.cfg.targetB
    ensures var q := LogicalRequest(w.reg.formations[f].cohort, o);
            && q in JoinOf(records)
            && (PROXY_RECV in JoinOf(records)[q].presence <==> Submitted(w, q.cohort, o))
            && COHORT_SEAL !in JoinOf(records)[q].presence
  {
    hide JoinOf, WInv, RT.ReadAs;
    var q := LogicalRequest(w.reg.formations[f].cohort, o);
    assert Recorded(records, q);
    InJoin(records, q);
    StagePresent(records, q, PROXY_RECV);
    StagePresent(records, q, COHORT_SEAL);
    if SomeCarries(records, q, COHORT_SEAL) {
      var i :| Of(records, q, i) && records[i].record.Has(COHORT_SEAL);
      var k := ProxyWrote(w, f, records, i);
    }
    if SomeCarries(records, q, PROXY_RECV) {
      var i :| Of(records, q, i) && records[i].record.Has(PROXY_RECV);
      var k := ProxyWrote(w, f, records, i);
      assert Submitted(w, q.cohort, o);
    }
    if Submitted(w, q.cohort, o) {
      var c :| 0 <= c < |w.callers| && w.callers[c].member == q;
      var k := LeftRecord(w, c);
      OnlyArrivals(w, f, k);
      assert InRecords(records, w.emitted[k].rec);
      var i :| 0 <= i < |records| && RT.ReadAs(records[i].record, w.emitted[k].rec);
      RT.ReadAsKeeps(records[i].record, w.emitted[k].rec);
      assert Of(records, q, i) && records[i].record.Has(PROXY_RECV);
    }
  }

  /** A record of the cohort that mentions formation is one of the proxy's. */
  lemma ProxyWrote(w: World, f: nat, records: seq<Decoded>, i: nat) returns (k: nat)
    requires WInv(w) && HasExpired(w, f) && Evidence(w, w.reg.formations[f].cohort, records)
    requires i < |records| && records[i].record.cohort == w.reg.formations[f].cohort && !Bystander(records[i].record)
    ensures k < |w.emitted| && RT.ReadAs(records[i].record, w.emitted[k].rec) && !records[i].record.Has(COHORT_SEAL)
    ensures w.emitted[k].caller < |w.callers| && w.callers[w.emitted[k].caller].member == records[i].record.Request()
  {
    hide WInv;
    assert records[i] in records;
    k :| 0 <= k < |w.emitted| && RT.ReadAs(records[i].record, w.emitted[k].rec);
    RT.ReadAsKeeps(records[i].record, w.emitted[k].rec);
    OnlyArrivals(w, f, k);
  }

  /** An admitted ordinal was submitted. */
  lemma AdmittedWasSubmitted(w: World, f: nat, o: nat)
    requires WInv(w) && f < |w.reg.formations| && (f, o) in w.admitter
    ensures o < w.cfg.targetB && o < TWO_32 && Submitted(w, w.reg.formations[f].cohort, o)
  {
    var c := w.admitter[(f, o)];
    assert CallerOk(w, c);
    assert w.callers[c].member == LogicalRequest(w.reg.formations[f].cohort, o);
  }

  /** What the proxy's own cause says: who was admitted, and who was not. */
  lemma CauseMeans(w: World, f: nat)
    requires WInv(w) && HasExpired(w, f)
    ensures var absent := w.reg.formations[f].terminal.value.absent;
            && Increasing(absent) && absent != []
            && (forall o: nat :: o in absent <==> o < w.cfg.targetB && (f, o) !in w.admitter)
            && (exists o: nat :: (f, o) in w.admitter)
  {
    assert CauseOk(w, f);
  }

  /** Increasing lists of the same numbers are the same list. */
  lemma {:induction false} SameIncreasing(a: seq<nat>, b: seq<nat>)
    requires Increasing(a) && Increasing(b) && forall o: nat :: o in a <==> o in b
    ensures a == b
    decreases |a|
  {
    HeadIn(a);
    HeadIn(b);
    if a != [] && b != [] {
      assert a[0] in b && b[0] in a;
      assert a[0] == b[0];
      forall o: nat ensures o in a[1..] <==> o in b[1..] {
        assert a == [a[0]] + a[1..] && b == [b[0]] + b[1..];
        assert o in a[1..] ==> o > a[0];
        assert o in b[1..] ==> o > b[0];
        assert o in a <==> o in b;
      }
      SameIncreasing(a[1..], b[1..]);
    }
  }

  /**
   The validator names the cohort as the proxy's cause does: the absent are the proxy's absent, the held
   were admitted.
   */
  ghost predicate NamedAlike(w: World, f: nat, failures: A.Failures)
    requires HasExpired(w, f)
  {
    var F := w.reg.formations[f];
    && F.cohort in failures
    && failures[F.cohort].absent == F.terminal.value.absent
    && (forall o: uint32 :: o in failures[F.cohort].held <==> (f, o as nat) in w.admitter)
  }

  /** How the validator sees ordinal o of the expired cohort. */
  lemma Seen(w: World, f: nat, records: seq<Decoded>, o: uint32)
    requires WInv(w) && HasExpired(w, f) && Evidence(w, w.reg.formations[f].cohort, records)
    ensures var q, paths := LogicalRequest(w.reg.formations[f].cohort, o), JoinOf(records);
            && (q in paths <==> o < w.cfg.targetB)
            && (q in paths ==> (A.Held(paths[q]) <==> Submitted(w, q.cohort, o)))
            && (q in paths ==> (A.Absent(paths[q]) <==> !Submitted(w, q.cohort, o)))
  {
    hide JoinOf, WInv;
    var q := LogicalRequest(w.reg.formations[f].cohort, o);
    InJoin(records, q);
    if o < w.cfg.targetB {
      PathOfOrdinal(w, f, records, o);
    } else {
      forall i ensures !Of(records, q, i) {
        assert 0 <= i < |records| ==> records[i] in records;
      }
    }
  }

  lemma OnTimeIsNamed(w: World, f: nat, exp: Checks.Expectation, records: seq<Decoded>, failures: A.Failures)
    requires WInv(w) && HasExpired(w, f) && Evidence(w, w.reg.formations[f].cohort, records)
    requires exp.cell.AggregatesEnvelopes() && w.cfg.targetB <= TWO_32
    requires A.Diagnoses(failures, exp, JoinOf(records)) && NoLateArrival(w, f)
    ensures NamedAlike(w, f, failures)
  {
    hide JoinOf, WInv, Evidence, A.Held, A.Absent, Submitted;
    var cohort, paths := w.reg.formations[f].cohort, JoinOf(records);
    var absent := w.reg.formations[f].terminal.value.absent;
    CauseMeans(w, f);
    forall o: uint32
      ensures var q := LogicalRequest(cohort, o);
              && (q in paths && A.Held(paths[q]) <==> (f, o as nat) in w.admitter)
              && (q in paths && A.Absent(paths[q]) <==> o in absent)
    {
      Seen(w, f, records, o);
      if (f, o as nat) in w.admitter { AdmittedWasSubmitted(w, f, o); }
    }
    var a: nat :| (f, a) in w.admitter;
    AdmittedWasSubmitted(w, f, a);
    assert LogicalRequest(cohort, a) in paths && A.Held(paths[LogicalRequest(cohort, a)]);
    assert A.SomeMember(paths, cohort, A.Held);
    assert absent[0] in absent;
    assert LogicalRequest(cohort, absent[0]) in paths && A.Absent(paths[LogicalRequest(cohort, absent[0])]);
    assert A.SomeMember(paths, cohort, A.Absent);
    assert A.Diagnosis(failures[cohort], paths, cohort);
    SameIncreasing(failures[cohort].absent, absent);
  }

  lemma SubmittedInRange(w: World, f: nat, records: seq<Decoded>, o: uint32)
    requires WInv(w) && HasExpired(w, f) && Evidence(w, w.reg.formations[f].cohort, records)
    requires Submitted(w, w.reg.formations[f].cohort, o)
    ensures o < w.cfg.targetB
  {
    hide WInv;
    var q := LogicalRequest(w.reg.formations[f].cohort, o);
    var c :| 0 <= c < |w.callers| && w.callers[c].member == q;
    var k := LeftRecord(w, c);
    assert InRecords(records, w.emitted[k].rec);
    var i :| 0 <= i < |records| && RT.ReadAs(records[i].record, w.emitted[k].rec);
    RT.ReadAsKeeps(records[i].record, w.emitted[k].rec);
    assert records[i] in records;
  }

  lemma LateIsNot(w: World, f: nat, exp: Checks.Expectation, records: seq<Decoded>, failures: A.Failures)
    requires WInv(w) && HasExpired(w, f) && Evidence(w, w.reg.formations[f].cohort, records)
    requires A.Diagnoses(failures, exp, JoinOf(records)) && !NoLateArrival(w, f)
    ensures !NamedAlike(w, f, failures)
  {
    hide JoinOf, WInv, Evidence, A.Held, A.Absent, Submitted;
    var cohort, paths := w.reg.formations[f].cohort, JoinOf(records);
    var absent := w.reg.formations[f].terminal.value.absent;
    CauseMeans(w, f);
    var o: uint32 :| Submitted(w, cohort, o) && (f, o as nat) !in w.admitter;
    Seen(w, f, records, o);
    SubmittedInRange(w, f, records, o);
    assert o in absent;
    if cohort in failures {
      assert A.Diagnosis(failures[cohort], paths, cohort);
      assert o !in failures[cohort].absent;
    }
  }

  /**
   After any run, a cohort that expired is named by the validator with exactly the members the
   proxy had admitted held and exactly the proxy's own list absent, if and only if nobody
   reached the proxy late.
   */
  lemma ExpiredIsNamed(cfg: Config, events: seq<Event>, f: nat, exp: Checks.Expectation, records: seq<Decoded>,
                       failures: A.Failures)
    requires cfg.Valid() && exp.cell.AggregatesEnvelopes() && cfg.targetB <= TWO_32
    requires HasExpired(Reached(cfg, events), f)
    requires Evidence(Reached(cfg, events), Reached(cfg, events).reg.formations[f].cohort, records)
    requires A.Diagnoses(failures, exp, JoinOf(records))
    ensures NamedAlike(Reached(cfg, events), f, failures) <==> NoLateArrival(Reached(cfg, events), f)
  {
    hide WInv, JoinOf, Exec, Evidence;
    var w := Reached(cfg, events);
    ReachedOk(cfg, events);
    if NoLateArrival(w, f) {
      OnTimeIsNamed(w, f, exp, records, failures);
    } else {
      LateIsNot(w, f, exp, records, failures);
    }
  }

  /* ---- Through the proxy's own writer ---- */

  /** The records the run left for the writer. */
  function Left(emitted: seq<Emitted>): (r: seq<Record>)
    ensures |r| == |emitted|
  {
    seq(|emitted|, k requires 0 <= k < |emitted| => emitted[k].rec)
  }

  /**
   What the other processes wrote, as it bears on the cohort: nothing of formation, something
   of each ordinal released, and of none beyond; nor did the proxy hear of one beyond.
   */
  ghost predicate Surroundings(w: World, cohort: uint32, others: seq<Decoded>) {
    && (forall c :: 0 <= c < |w.callers| && w.callers[c].member.cohort == cohort ==> w.callers[c].at.Gone?)
    && (forall d :: d in others && d.record.cohort == cohort ==>
          d.record.ordinal < w.cfg.targetB && Bystander(d.record))
    && (forall o: uint32 :: o < w.cfg.targetB ==> Recorded(others, LogicalRequest(cohort, o)))
    && (forall k :: 0 <= k < |w.emitted| && w.emitted[k].rec.cohort == cohort ==>
          w.emitted[k].rec.ordinal < w.cfg.targetB)
  }

  /** What a writer that dropped nothing accepted of these records, numbered as the calls came. */
  ghost predicate Accepted(accepted: seq<Record>, begun: seq<Record>, drawn: uint64, left: seq<Record>) {
    multiset(accepted) == multiset(Writer.Numbered(begun, drawn)) && multiset(begun) == multiset(left)
  }

  lemma AcceptedWasLeft(accepted: seq<Record>, begun: seq<Record>, drawn: uint64, left: seq<Record>, i: nat)
    returns (k: nat)
    requires Accepted(accepted, begun, drawn, left) && i < |accepted|
    ensures k < |left| && accepted[i] == left[k].(sequence := accepted[i].sequence)
  {
    assert accepted[i] in multiset(Writer.Numbered(begun, drawn));
    var j :| 0 <= j < |begun| && Writer.Numbered(begun, drawn)[j] == accepted[i];
    assert begun[j] in multiset(left);
    k :| 0 <= k < |left| && left[k] == begun[j];
  }

  lemma LeftWasAccepted(accepted: seq<Record>, begun: seq<Record>, drawn: uint64, left: seq<Record>, k: nat)
    returns (i: nat)
    requires Accepted(accepted, begun, drawn, left) && k < |left|
    ensures i < |accepted| && accepted[i] == left[k].(sequence := accepted[i].sequence)
  {
    assert left[k] in multiset(begun);
    var j :| 0 <= j < |begun| && begun[j] == left[k];
    assert Writer.Numbered(begun, drawn)[j] in multiset(accepted);
    i :| 0 <= i < |accepted| && accepted[i] == Writer.Numbered(begun, drawn)[j];
  }

  /** What the writer accepted is read back beside the other streams as the evidence of the run. */
  lemma WrittenIsEvidence(w: World, cohort: uint32, h: RunHeader, accepted: seq<Record>, begun: seq<Record>,
                          drawn: uint64,
                          before: seq<Decoded>, after: seq<Decoded>)
    requires Surroundings(w, cohort, before + after) && Accepted(accepted, begun, drawn, Left(w.emitted))
    ensures Evidence(w, cohort, before + S.Read(h, accepted) + after)
  {
    hide Accepted, Bystander, RT.Canonical;
    var own := S.Read(h, accepted);
    var records := before + own + after;
    forall d | d in records && d.record.cohort == cohort
      ensures d.record.ordinal < w.cfg.targetB && (Bystander(d.record) || FromProxy(w, d.record))
    {
      if d !in before + after {
        var i :| 0 <= i < |own| && own[i] == d;
        var k := AcceptedWasLeft(accepted, begun, drawn, Left(w.emitted), i);
        assert d.record == RT.AsRead(w.emitted[k].rec, accepted[i].sequence);
        assert RT.ReadAs(d.record, w.emitted[k].rec);
        RT.ReadAsKeeps(d.record, w.emitted[k].rec);
      }
    }
    forall k | 0 <= k < |w.emitted| && w.emitted[k].rec.cohort == cohort ensures InRecords(records, w.emitted[k].rec) {
      var i := LeftWasAccepted(accepted, begun, drawn, Left(w.emitted), k);
      assert records[|before| + i] == own[i];
      assert records[|before| + i].record == RT.AsRead(w.emitted[k].rec, accepted[i].sequence);
      assert RT.ReadAs(records[|before| + i].record, w.emitted[k].rec);
    }
    forall o: uint32 | o < w.cfg.targetB ensures Recorded(records, LogicalRequest(cohort, o)) {
      var i :| Of(before + after, LogicalRequest(cohort, o), i);
      var at := if i < |before| then i else i + |own|;
      assert records[at] == (before + after)[i];
      assert Of(records, LogicalRequest(cohort, o), at);
    }
  }

  /**
   The whole way: the proxy's records of any run, numbered and accepted by its writer in any
   order and read back beside the other streams. An expired cohort is named as the proxy failed
   it, if and only if nobody reached the proxy late.
   */
  lemma WrittenIsNamed(cfg: Config, events: seq<Proxy.Event>, f: nat, exp: Checks.Expectation, h: RunHeader,
                       accepted: seq<Record>, begun: seq<Record>, drawn: uint64, before: seq<Decoded>,
                       after: seq<Decoded>, failures: A.Failures)
    requires cfg.Valid() && exp.cell.AggregatesEnvelopes() && cfg.targetB <= TWO_32
    requires HasExpired(Reached(cfg, events), f)
    requires Surroundings(Reached(cfg, events), Reached(cfg, events).reg.formations[f].cohort, before + after)
    requires Accepted(accepted, begun, drawn, Left(Reached(cfg, events).emitted))
    requires A.Diagnoses(failures, exp, JoinOf(before + S.Read(h, accepted) + after))
    ensures NamedAlike(Reached(cfg, events), f, failures) <==> NoLateArrival(Reached(cfg, events), f)
  {
    hide NamedAlike, NoLateArrival, JoinOf, Evidence, Surroundings, Exec, Accepted, Left, A.Diagnoses, S.Read;
    var w := Reached(cfg, events);
    WrittenIsEvidence(w, w.reg.formations[f].cohort, h, accepted, begun, drawn, before, after);
    ExpiredIsNamed(cfg, events, f, exp, before + S.Read(h, accepted) + after, failures);
  }

  /** The same with the writer at work: any schedule of its calls, flushes and Close that drops no record. */
  method JudgeStream(ghost cfg: Config, ghost events: seq<Proxy.Event>, ghost f: nat, exp: Checks.Expectation,
                     writer: Writer.Writer, schedule: seq<BankPool.Event>, before: seq<Decoded>, after: seq<Decoded>)
    returns (failures: A.Failures)
    requires cfg.Valid() && exp.cell.AggregatesEnvelopes() && cfg.targetB <= TWO_32
    requires HasExpired(Reached(cfg, events), f)
    requires Surroundings(Reached(cfg, events), Reached(cfg, events).reg.formations[f].cohort, before + after)
    requires multiset(Writer.Begun(schedule)) == multiset(Left(Reached(cfg, events).emitted))
    requires writer.Valid() && writer.pool.log == [] && writer.pool.calls == multiset{}
    modifies writer, writer.Heap()
    ensures writer.waiting == [] && writer.countingWritten == writer.countingDropped == writer.dropped == 0
            && |writer.out| < TWO_63 ==>
              (NamedAlike(Reached(cfg, events), f, failures) <==> NoLateArrival(Reached(cfg, events), f))
  {
    hide Writer.Begun, Writer.Numbered, NamedAlike, NoLateArrival, JoinOf, Surroundings, Exec, HasExpired, Left,
         A.Diagnoses, S.Read, S.ReadStream, S.StreamOf, BankPool.Inv;
    ghost var drawn := writer.sequence;
    ghost var accepted := Writer.Run(writer, schedule);
    if |writer.out| >= TWO_63 {
      return map[];
    }
    var contents := S.ReadAll(writer.out);
    var records := before + contents.records + after;
    var paths := Joins.Join(records);
    failures := A.FindFormationFailures(exp, paths);
    if writer.waiting == [] && writer.countingWritten == writer.countingDropped == writer.dropped == 0 {
      assert writer.pool.refused == [] && multiset(accepted) == writer.pool.calls;
      WrittenIsNamed(cfg, events, f, exp, writer.h, accepted, Writer.Begun(schedule), drawn, before, after, failures);
    }
  }
}
