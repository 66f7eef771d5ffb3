/**
 When the writer drops a record (internal/events/writer.go, Record and rotateLocked): over every
 run, exactly where its call found the writer closed, or too little room with no bank free.
 */
module Drops {
  import opened Identity
  import opened Schema
  import opened Wire
  import opened Codec
  import opened Stream
  import opened BankPool

  /** Every bank but the active one is full or being written. */
  ghost predicate AllInFlight(p: Pool) {
    p.free == [] && |p.pending| + (if p.flushing.Some? then 1 else 0) == p.banks - 1
  }

  /** The active bank may not hold one more of the largest frames. */
  predicate ShortOfRoom(p: Pool)
    requires p.active < |p.content|
  {
    p.bankBytes < |p.content[p.active]| + 10 + |EncodeFields(HeaderFields(p.h))| + MAX_BODY_SIZE
  }

  /** What drops a call at its lock: a closed writer, or no room left and every other bank in flight. */
  ghost predicate Drops(p: Pool)
    requires p.active < |p.content|
  {
    p.closed || (ShortOfRoom(p) && AllInFlight(p))
  }

  /** One call at the lock: dropped for one of these reasons, and otherwise accepted. */
  lemma DropsExactly(p: Pool, i: nat)
    requires Inv(p) && i < |p.waiting|
    ensures p.active < |p.content|
    ensures Drops(p) ==> Enter(p, i).refused == p.refused + [p.waiting[i]] && Enter(p, i).log == p.log
    ensures !Drops(p) ==> Enter(p, i).refused == p.refused && Enter(p, i).log == p.log + [p.waiting[i]]
  {
    hide Frame, Body, Flow, StreamOf, EncodeFields, HeaderFields, EveryFrameFits;
    EnterBooks(p, i);
  }

  /** The call that the last event of a schedule lets into the lock, where it does. */
  ghost predicate Enters(p: Pool, e: Event) {
    e.EnterLock? && Enabled(p, e)
  }

  lemma OthersRefuseNone(p: Pool, e: Event)
    requires !Enters(p, e)
    ensures After(p, e).refused == p.refused && After(p, e).log == p.log
  {
    hide Partition, Enter;
  }

  /** Record k was refused by the call that the n-th event let into the lock, and for one of the two reasons. */
  ghost predicate RefusedAt(p: Pool, schedule: seq<Event>, n: nat, k: nat, r: Record)
    requires n < |schedule|
  {
    var q := Exec(p, schedule[..n]);
    && schedule[n].EnterLock? && schedule[n].i < |q.waiting| && q.waiting[schedule[n].i] == r && |q.refused| == k
    && q.active < |q.content| && Drops(q)
  }

  lemma RefusedBefore(p: Pool, schedule: seq<Event>, n: nat, m: nat, k: nat, r: Record)
    requires n < m <= |schedule| && RefusedAt(p, schedule[..m], n, k, r)
    ensures RefusedAt(p, schedule, n, k, r)
  {
    assert schedule[..m][..n] == schedule[..n];
  }

  /**
   Over every run, each record that was dropped found the writer closed, or no room and every other bank in
   flight.
   */
  lemma {:induction false} DroppedForCause(p: Pool, schedule: seq<Event>, k: nat)
    requires Inv(p) && p.bankBytes < TWO_63 && |p.refused| <= k < |Exec(p, schedule).refused|
    ensures exists n :: 0 <= n < |schedule| && RefusedAt(p, schedule, n, k, Exec(p, schedule).refused[k])
  {
    if schedule != [] {
      var n := |schedule| - 1;
      var q, e := Exec(p, schedule[..n]), schedule[n];
      ExecKeeps(p, schedule[..n]);
      RefusedGrows(q, e);
      hide Inv, Drops, After, RefusedAt;
      if k < |q.refused| {
        DroppedForCause(p, schedule[..n], k);
        var m :| 0 <= m < n && RefusedAt(p, schedule[..n], m, k, q.refused[k]);
        RefusedBefore(p, schedule, m, n, k, q.refused[k]);
      } else {
        RefusedLast(p, schedule, k);
      }
    }
  }

  lemma RefusedLast(p: Pool, schedule: seq<Event>, k: nat)
    requires schedule != [] && Inv(Exec(p, schedule[..|schedule| - 1]))
    requires |Exec(p, schedule[..|schedule| - 1]).refused| <= k < |Exec(p, schedule).refused|
    ensures RefusedAt(p, schedule, |schedule| - 1, k, Exec(p, schedule).refused[k])
  {
    hide Inv, Drops;
    var n := |schedule| - 1;
    var q, e := Exec(p, schedule[..n]), schedule[n];
    if Enters(q, e) {
      EnterIs(q, e);
      hide After, Enter;
      DropsExactly(q, e.i);
    } else {
      OthersRefuseNone(q, e);
    }
  }

  lemma RefusedGrows(p: Pool, e: Event)
    requires Inv(p)
    ensures p.refused <= After(p, e).refused && p.log <= After(p, e).log
  {
    hide Inv, Drops;
    if Enters(p, e) { DropsExactly(p, e.i); } else { OthersRefuseNone(p, e); }
  }

  /** One call's outcome: it is dropped, or logged. */
  ghost predicate Settled(q: Pool, r: Pool, i: nat)
    requires i < |q.waiting| && q.active < |q.content|
  {
    && (Drops(q) <==> r.refused == q.refused + [q.waiting[i]])
    && (!Drops(q) <==> r.log == q.log + [q.waiting[i]])
  }

  lemma EnterSettles(q: Pool, i: nat)
    requires Inv(q) && q.bankBytes < TWO_63 && i < |q.waiting|
    ensures q.active < |q.content| && Settled(q, Enter(q, i), i)
  {
    DropsExactly(q, i);
    hide Inv, Drops, Enter;
    assert q.log + [q.waiting[i]] != q.log && q.refused + [q.waiting[i]] != q.refused;
  }

  /** And every call that finds so is dropped: the n-th event's, if it found either. */
  lemma CauseDrops(p: Pool, schedule: seq<Event>, n: nat)
    requires Inv(p) && p.bankBytes < TWO_63 && n < |schedule| && schedule[n].EnterLock?
    requires schedule[n].i < |Exec(p, schedule[..n]).waiting|
    ensures var q := Exec(p, schedule[..n]);
            q.active < |q.content| && Settled(q, Exec(p, schedule[..n + 1]), schedule[n].i)
  {
    ExecKeeps(p, schedule[..n]);
    var q := Exec(p, schedule[..n]);
    EnterIsNext(q);
    LastStep(p, schedule, n);
    EnterIs(q, schedule[n]);
    hide Inv, Settled, Exec, After, Enter, Enabled;
    EnterSettles(q, schedule[n].i);
  }

  lemma LastStep(p: Pool, schedule: seq<Event>, n: nat)
    requires n < |schedule|
    ensures Exec(p, schedule[..n + 1]) == After(Exec(p, schedule[..n]), schedule[n])
  {
    hide After;
    assert schedule[..n + 1][..n] == schedule[..n] && schedule[..n + 1][n] == schedule[n];
  }

  /* ---- A run that drops nothing ---- */

  lemma FlowHoldsActive(p: Pool)
    requires Inv(p) && !p.closed
    ensures p.active < |p.content| && |p.content[p.active]| <= |StreamOf(p.h, p.log)|
  {
    hide StreamOf, EncodeFields, HeaderFields, EveryFrameFits, BankPool.Contents;
  }

  lemma StreamGrows(h: RunHeader, a: seq<Record>, b: seq<Record>)
    requires a <= b
    ensures |StreamOf(h, a)| <= |StreamOf(h, b)|
  {
    hide Frame, Body, Flatten;
    var more := Frames(h, b[|a|..]);
    assert Frames(h, b) == Frames(h, a) + more;
    FlattenConcat(Frames(h, a), more);
  }

  ghost predicate NeverCloses(schedule: seq<Event>) {
    forall n :: 0 <= n < |schedule| ==> !schedule[n].CloseWriter?
  }

  lemma StaysOpen(p: Pool, e: Event)
    requires !p.closed && !e.CloseWriter?
    ensures !After(p, e).closed && After(p, e).h == p.h && After(p, e).bankBytes == p.bankBytes
  {
    hide Frame, Body;
  }

  /**
   A writer that is not closed drops nothing while the frames of a run, and one more of the
   largest, fit a bank: whatever the flusher does meanwhile, if anything.
   */
  lemma {:induction false} NothingDropped(p: Pool, schedule: seq<Event>)
    requires Inv(p) && p.bankBytes < TWO_63 && !p.closed && NeverCloses(schedule)
    requires |StreamOf(p.h, Exec(p, schedule).log)| + 10 + |EncodeFields(HeaderFields(p.h))| + MAX_BODY_SIZE
          <= p.bankBytes
    ensures Exec(p, schedule).refused == p.refused && !Exec(p, schedule).closed
    ensures Exec(p, schedule).h == p.h && Exec(p, schedule).bankBytes == p.bankBytes
  {
    hide StreamOf, EncodeFields, HeaderFields, After;
    if schedule != [] {
      var n := |schedule| - 1;
      var q, e := Exec(p, schedule[..n]), schedule[n];
      ExecKeeps(p, schedule[..n]);
      RefusedGrows(q, e);
      HeaderStays(p, schedule[..n]);
      StreamGrows(p.h, q.log, After(q, e).log);
      hide Inv;
      NothingDropped(p, schedule[..n]);
      StaysOpen(q, e);
      if Enters(q, e) {
        FlowHoldsActive(q);
        DropsExactly(q, e.i);
        EnterIs(q, e);
      } else {
        OthersRefuseNone(q, e);
      }
    }
  }

  lemma EnterIs(p: Pool, e: Event)
    requires Enters(p, e)
    ensures After(p, e) == Enter(p, e.i)
  {
  }

  lemma {:induction false} HeaderStays(p: Pool, schedule: seq<Event>)
    ensures Exec(p, schedule).h == p.h
  {
    if schedule != [] {
      HeaderStays(p, schedule[..|schedule| - 1]);
      HeaderStep(Exec(p, schedule[..|schedule| - 1]), schedule[|schedule| - 1]);
    }
  }

  lemma HeaderStep(p: Pool, e: Event)
    ensures After(p, e).h == p.h
  {
    hide Frame, Body;
  }
}
