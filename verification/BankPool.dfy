/**
 The bank pool as a state machine: which bank is where, what each holds, and what the
 sink has received. One step per critical section of internal/events/writer.go.
 */
module BankPool {
  import opened Identity
  import opened Schema
  import opened Wire
  import opened Codec
  import opened Stream

  /** Banks are named by index. content[b] is what bank b holds. */
  datatype Pool = Pool(
    h: RunHeader,
    bankBytes: nat,
    banks: nat,
    active: nat,
    free: seq<nat>,
    pending: seq<nat>,
    flushing: Option<nat>,
    closed: bool,
    apart: bool,               // false once Close has queued the active bank
    content: seq<seq<byte>>,
    out: seq<byte>,
    sequence: uint64,
    waiting: seq<Record>,      // calls between drawing a sequence number and the lock
    countingWritten: nat,      // calls between the lock and their counter
    countingDropped: nat,
    written: nat,
    dropped: nat,
    calls: multiset<Record>,   // every call begun
    log: seq<Record>,          // accepted records, in lock order
    refused: seq<Record>)
  {
    function MaxFrame(): nat {
      MAX_VARINT + |EncodeFields(HeaderFields(h))| + MAX_BODY_SIZE
    }
  }

  ghost predicate NoDup(s: seq<nat>) {
    forall i, j :: 0 <= i < j < |s| ==> s[i] != s[j]
  }

  /** Every bank is in exactly one of active, free, pending and the flusher's hands. */
  ghost predicate Partition(p: Pool) {
    && |p.content| == p.banks && p.active < p.banks
    && (forall b :: b in p.free ==> b < p.banks) && (forall b :: b in p.pending ==> b < p.banks)
    && (p.flushing.Some? ==> p.flushing.value < p.banks)
    && NoDup(p.free) && NoDup(p.pending)
    && (forall b :: b in p.free ==> b !in p.pending)
    && (p.flushing.Some? ==> p.flushing.value !in p.free && p.flushing.value !in p.pending)
    && (p.apart ==> p.active !in p.free && p.active !in p.pending && p.flushing != Some(p.active))
    && |p.free| + |p.pending| + (if p.flushing.Some? then 1 else 0) + (if p.apart then 1 else 0) == p.banks
    && (!p.closed ==> p.apart)
  }

  function At(content: seq<seq<byte>>, b: nat): seq<byte> {
    if b < |content| then content[b] else []
  }

  function Contents(content: seq<seq<byte>>, ids: seq<nat>): (c: seq<seq<byte>>)
    ensures |c| == |ids|
  {
    seq(|ids|, i requires 0 <= i < |ids| => At(content, ids[i]))
  }

  /** What a list of banks holds, in order. */
  function Queued(p: Pool): seq<byte> {
    Flatten(Contents(p.content, p.pending))
  }

  function Held(p: Pool): seq<byte> {
    if p.flushing.Some? then At(p.content, p.flushing.value) else []
  }

  function Filling(p: Pool): seq<byte> {
    if p.apart then At(p.content, p.active) else []
  }

  /** The sink, then everything still on its way to it, oldest first. */
  function Flow(p: Pool): seq<byte> {
    p.out + Held(p) + Queued(p) + Filling(p)
  }

  /** Banks never overflow, free banks are empty, and the flow is the accepted frames in lock order. */
  ghost predicate Streaming(p: Pool) {
    && Partition(p)
    && (forall b :: 0 <= b < p.banks ==> |p.content[b]| <= p.bankBytes)
    && (forall b :: b in p.free ==> p.content[b] == [])
    && (p.closed && p.apart ==> p.content[p.active] == [])
    && Flow(p) == StreamOf(p.h, p.log)
  }

  /** Every call is waiting, accepted or refused, and the counters lag by the calls still counting. */
  ghost predicate Accounted(p: Pool) {
    && p.calls == multiset(p.waiting) + multiset(p.log) + multiset(p.refused)
    && |p.log| == p.written + p.countingWritten
    && |p.refused| == p.dropped + p.countingDropped
  }

  /** Every record's frame fits an empty bank. */
  ghost predicate EveryFrameFits(h: RunHeader, bankBytes: nat) {
    forall r :: |Frame(Body(h, r))| <= bankBytes
  }

  ghost predicate Inv(p: Pool) {
    && p.banks >= 2 && MAX_VARINT <= p.bankBytes && EveryFrameFits(p.h, p.bankBytes)
    && Streaming(p) && Accounted(p)
  }

  /* ---- The steps ---- */

  function Stamped(p: Pool, r: Record): Record {
    r.(sequence := (p.sequence + 1) % TWO_64)
  }

  /** Record's first line: the sequence number is drawn before the lock is taken. */
  function Begin(p: Pool, r: Record): Pool {
    p.(sequence := Stamped(p, r).sequence, waiting := p.waiting + [Stamped(p, r)],
       calls := p.calls + multiset{Stamped(p, r)})
  }

  /** rotateLocked's success. */
  function Rotate(p: Pool): Pool
    requires p.free != []
  {
    p.(active := p.free[0], free := p.free[1..], pending := p.pending + [p.active])
  }

  /** Whether the active bank has room for the largest frame. */
  predicate Roomy(p: Pool)
    requires p.active < |p.content|
  {
    p.bankBytes - |p.content[p.active]| >= p.MaxFrame()
  }

  /** Record drops exactly when closed, or too full with no free bank to rotate to. */
  predicate Accepts(p: Pool)
    requires p.active < |p.content|
  {
    !p.closed && (Roomy(p) || p.free != [])
  }

  function Without<T>(s: seq<T>, i: nat): seq<T>
    requires i < |s|
  {
    s[..i] + s[i + 1..]
  }

  /** One frame into the active bank. */
  function Fill(p: Pool, r: Record): Pool
    requires p.active < |p.content|
  {
    p.(content := p.content[p.active := p.content[p.active] + Frame(Body(p.h, r))], log := p.log + [r])
  }

  /** The i-th waiting call leaves the lock. */
  function Settled(p: Pool, i: nat, ok: bool): Pool
    requires i < |p.waiting|
  {
    var q := p.(waiting := Without(p.waiting, i));
    if ok then q.(countingWritten := q.countingWritten + 1)
    else q.(refused := q.refused + [p.waiting[i]], countingDropped := q.countingDropped + 1)
  }

  /** Record's critical section for the i-th waiting call. */
  function Enter(p: Pool, i: nat): Pool
    requires Partition(p) && i < |p.waiting|
  {
    assert p.free != [] ==> p.free[0] in p.free;
    if !Accepts(p) then Settled(p, i, false)
    else Settled(Fill(if Roomy(p) then p else Rotate(p), p.waiting[i]), i, true)
  }

  function Receive(p: Pool): Pool
    requires p.pending != []
  {
    p.(flushing := Some(p.pending[0]), pending := p.pending[1..])
  }

  /** The flusher writes the bank it holds and resets it. */
  function Drain(p: Pool): Pool
    requires p.flushing.Some? && p.flushing.value < |p.content|
  {
    p.(out := p.out + p.content[p.flushing.value], content := p.content[p.flushing.value := []])
  }

  function Return(p: Pool): Pool
    requires p.flushing.Some?
  {
    p.(free := p.free + [p.flushing.value], flushing := None)
  }

  /** Close's critical section: the active bank is queued if it holds anything, and not replaced. */
  function Close(p: Pool): Pool
    requires p.active < |p.content|
  {
    if p.content[p.active] == [] then p.(closed := true)
    else p.(closed := true, pending := p.pending + [p.active], apart := false)
  }

  /** q is p after flusher steps alone: they decide nothing about any record. */
  ghost predicate Delivered(p: Pool, q: Pool) {
    q == p.(out := q.out, content := q.content, free := q.free, pending := q.pending, flushing := q.flushing)
  }

  /* ---- What every step keeps ---- */

  lemma BeginKeeps(p: Pool, r: Record)
    requires Inv(p)
    ensures Inv(Begin(p, r))
  {
    hide StreamOf, Flow, EncodeFields, HeaderFields;
    BeginFlow(p, r);
    assert multiset(Begin(p, r).waiting) == multiset(p.waiting) + multiset{Stamped(p, r)};
  }

  lemma BeginFlow(p: Pool, r: Record)
    ensures Flow(Begin(p, r)) == Flow(p)
  {
  }

  lemma NoDupAppend(s: seq<nat>, b: nat)
    requires NoDup(s) && b !in s
    ensures NoDup(s + [b])
  {
  }

  lemma NoDupTail(s: seq<nat>)
    requires NoDup(s) && s != []
    ensures NoDup(s[1..]) && s[0] !in s[1..]
  {
  }

  lemma FlattenOne(x: seq<byte>)
    ensures Flatten([x]) == x
  {
    assert Flatten([x]) == x + Flatten([]);
  }

  /** Queueing one more bank appends its contents. */
  lemma ContentsAppend(content: seq<seq<byte>>, ids: seq<nat>, b: nat)
    ensures Flatten(Contents(content, ids + [b])) == Flatten(Contents(content, ids)) + At(content, b)
  {
    assert Contents(content, ids + [b]) == Contents(content, ids) + [At(content, b)];
    FlattenConcat(Contents(content, ids), [At(content, b)]);
    FlattenOne(At(content, b));
  }

  lemma ContentsHead(content: seq<seq<byte>>, ids: seq<nat>)
    requires ids != []
    ensures Flatten(Contents(content, ids)) == At(content, ids[0]) + Flatten(Contents(content, ids[1..]))
  {
    assert Contents(content, ids)[1..] == Contents(content, ids[1..]);
  }

  /** Writing to a bank outside a queue leaves the queue's contents alone. */
  lemma ContentsElsewhere(content: seq<seq<byte>>, ids: seq<nat>, b: nat, x: seq<byte>)
    requires b < |content| && b !in ids
    ensures Contents(content[b := x], ids) == Contents(content, ids)
  {
    forall i | 0 <= i < |ids| ensures At(content[b := x], ids[i]) == At(content, ids[i]) {
      assert ids[i] in ids;
    }
  }

  lemma RotatePartition(p: Pool)
    requires Partition(p) && !p.closed && p.free != []
    ensures Partition(Rotate(p))
  {
    NoDupTail(p.free);
    NoDupAppend(p.pending, p.active);
    assert p.free[0] in p.free;
    assert forall b :: b in p.free[1..] ==> b in p.free;
    assert forall b :: b in p.pending + [p.active] ==> b in p.pending || b == p.active;
  }

  /** Queueing the active bank behind the others and starting an empty one keeps the flow. */
  lemma QueueFlow(p: Pool, q: Pool)
    requires p.apart && q == p.(pending := p.pending + [p.active], active := q.active, free := q.free,
                                closed := q.closed, apart := q.apart)
    requires q.apart ==> At(p.content, q.active) == []
    ensures Flow(q) == Flow(p)
  {
    ContentsAppend(p.content, p.pending, p.active);
    hide Contents, Flatten, At;
    var head, last := p.out + Held(p), At(p.content, p.active);
    assert Flow(q) == head + (Queued(p) + last) + [];
  }

  lemma RotateKeeps(p: Pool)
    requires Streaming(p) && !p.closed && p.free != []
    ensures Streaming(Rotate(p))
    ensures Rotate(p).content[Rotate(p).active] == []
  {
    hide StreamOf, Flow;
    RotatePartition(p);
    assert p.free[0] in p.free;
    QueueFlow(p, Rotate(p));
  }

  /** A frame appended to the active bank is appended to the flow. */
  lemma FillFlow(p: Pool, r: Record)
    requires p.apart && p.active < |p.content| && p.active !in p.pending && p.flushing != Some(p.active)
    ensures Flow(Fill(p, r)) == Flow(p) + Frame(Body(p.h, r))
  {
    hide Body, Frame;
    var frame := Frame(Body(p.h, r));
    ContentsElsewhere(p.content, p.pending, p.active, p.content[p.active] + frame);
    hide Contents, Flatten;
    var head := p.out + Held(p) + Queued(p);
    assert Held(Fill(p, r)) == Held(p) && Queued(Fill(p, r)) == Queued(p);
    assert Flow(Fill(p, r)) == head + (p.content[p.active] + frame);
  }

  lemma FillKeeps(p: Pool, r: Record)
    requires Streaming(p) && !p.closed
    requires |p.content[p.active]| + |Frame(Body(p.h, r))| <= p.bankBytes
    ensures Streaming(Fill(p, r))
  {
    hide Body, Frame, Flow, StreamOf;
    StreamAppend(p.h, p.log, r);
    FillFlow(p, r);
  }

  lemma FrameFits(h: RunHeader, r: Record)
    requires MAX_VARINT + |EncodeFields(HeaderFields(h))| + MAX_BODY_SIZE < TWO_64
    ensures |Frame(Body(h, r))| <= MAX_VARINT + |EncodeFields(HeaderFields(h))| + MAX_BODY_SIZE
  {
    RecordFitsBodyBound(r, h.writerID);
    UvarintReadsBack(|Body(h, r)|, []);
  }

  lemma WithoutMultiset<T>(s: seq<T>, i: nat)
    requires i < |s|
    ensures multiset(s) == multiset(Without(s, i)) + multiset{s[i]}
  {
    assert s == s[..i] + [s[i]] + s[i + 1..];
  }

  /** A call leaves the waiting ones for the accepted or for the refused. */
  lemma CallMoves(was: seq<Record>, i: nat, log: seq<Record>, refused: seq<Record>)
    requires i < |was|
    ensures var (now, r) := (Without(was, i), was[i]);
            && multiset(was) + multiset(log) == multiset(now) + multiset(log + [r])
            && multiset(was) + multiset(refused) == multiset(now) + multiset(refused + [r])
  {
    WithoutMultiset(was, i);
  }

  /** What the critical section does to the bookkeeping, whatever it does to the banks. */
  lemma EnterBooks(p: Pool, i: nat)
    requires Partition(p) && i < |p.waiting|
    ensures var (e, r, ok) := (Enter(p, i), p.waiting[i], Accepts(p));
            && e.calls == p.calls && e.waiting == Without(p.waiting, i)
            && e.written == p.written && e.dropped == p.dropped
            && e.log == (if ok then p.log + [r] else p.log)
            && e.refused == (if ok then p.refused else p.refused + [r])
            && e.countingWritten == p.countingWritten + (if ok then 1 else 0)
            && e.countingDropped == p.countingDropped + (if ok then 0 else 1)
  {
    hide Body, Frame, Without;
  }

  lemma EnterAccounted(p: Pool, i: nat)
    requires Partition(p) && Accounted(p) && i < |p.waiting|
    ensures Accounted(Enter(p, i))
  {
    hide Enter, Partition, Accepts, Without;
    EnterBooks(p, i);
    CallMoves(p.waiting, i, p.log, p.refused);
  }

  lemma EnterStreams(p: Pool, i: nat)
    requires Streaming(p) && i < |p.waiting| && EveryFrameFits(p.h, p.bankBytes) && p.bankBytes < TWO_63
    ensures Streaming(Enter(p, i))
  {
    hide StreamOf, Frame, Body, Flow, EncodeFields, HeaderFields;
    var r, q := p.waiting[i], p;
    if Accepts(p) {
      if Roomy(p) {
        FrameFits(p.h, r);
      } else {
        RotateKeeps(p);
        q := Rotate(p);
      }
      assert |Frame(Body(q.h, r))| <= q.bankBytes;
      FillKeeps(q, r);
      q := Fill(q, r);
    }
    SettledKeeps(q, i, Accepts(p));
  }

  lemma StreamingPartition(p: Pool)
    requires Streaming(p)
    ensures Partition(p)
  {
  }

  lemma EnterKeeps(p: Pool, i: nat)
    requires Inv(p) && i < |p.waiting| && p.bankBytes < TWO_63
    ensures Inv(Enter(p, i))
    ensures Enter(p, i).log == if Accepts(p) then p.log + [p.waiting[i]] else p.log
  {
    hide Streaming, Accounted, Flow, StreamOf, EncodeFields, HeaderFields;
    assert Partition(p) by { StreamingPartition(p); }
    EnterAccounted(p, i);
    EnterStreams(p, i);
  }

  lemma SettledKeeps(p: Pool, i: nat, ok: bool)
    requires Streaming(p) && i < |p.waiting|
    ensures Streaming(Settled(p, i, ok))
  {
    hide StreamOf, Flow;
    SameFlow(p, Settled(p, i, ok));
  }

  lemma ReceivePartition(p: Pool)
    requires Partition(p) && p.flushing.None? && p.pending != []
    ensures Partition(Receive(p))
  {
    NoDupTail(p.pending);
    assert p.pending[0] in p.pending;
    forall b | b in p.pending[1..] ensures b in p.pending {
    }
  }

  lemma ReceiveKeeps(p: Pool)
    requires Inv(p) && p.flushing.None? && p.pending != []
    ensures Inv(Receive(p))
  {
    hide StreamOf, EncodeFields, HeaderFields;
    ReceivePartition(p);
    ContentsHead(p.content, p.pending);
    hide Contents, Flatten;
    var rest := Queued(Receive(p));
    assert Flow(p) == p.out + [] + (At(p.content, p.pending[0]) + rest) + Filling(p);
    assert Flow(Receive(p)) == p.out + At(p.content, p.pending[0]) + rest + Filling(p);
  }

  lemma DrainKeeps(p: Pool)
    requires Inv(p) && p.flushing.Some?
    ensures Inv(Drain(p))
  {
    hide StreamOf, EncodeFields, HeaderFields, Contents, Flatten, Flow, Partition, EveryFrameFits, Streaming;
    DrainStreams(p);
  }

  lemma DrainStreams(p: Pool)
    requires Streaming(p) && p.flushing.Some?
    ensures p.flushing.value < |p.content| && Streaming(Drain(p))
  {
    DrainFlows(p);
    DrainParts(p);
    PartSizes(p);
    hide StreamOf, Flow, Partition;
  }

  lemma DrainParts(p: Pool)
    requires Partition(p) && p.flushing.Some?
    ensures Partition(Drain(p))
  {
    hide NoDup;
  }

  lemma PartSizes(p: Pool)
    requires Partition(p)
    ensures |p.content| == p.banks && p.active < p.banks && forall b :: b in p.free ==> b < p.banks
    ensures p.flushing.Some? ==> p.flushing.value < p.banks && p.flushing.value !in p.free
  {
    hide NoDup;
  }

  /** The bytes of the drained bank move to the sink, in their place. */
  lemma DrainFlows(p: Pool)
    requires Partition(p) && p.flushing.Some?
    ensures Flow(Drain(p)) == Flow(p)
  {
    ContentsElsewhere(p.content, p.pending, p.flushing.value, []);
    hide Contents, Flatten, NoDup;
    assert Flow(Drain(p)) == p.out + Held(p) + [] + Queued(p) + Filling(p);
  }

  lemma ReturnKeeps(p: Pool)
    requires Inv(p) && p.flushing.Some? && p.content[p.flushing.value] == []
    ensures Inv(Return(p))
    ensures |p.free| < p.banks
  {
    hide StreamOf, EncodeFields, HeaderFields;
    NoDupAppend(p.free, p.flushing.value);
    assert Partition(Return(p));
  }

  lemma CloseKeeps(p: Pool)
    requires Inv(p) && !p.closed
    ensures Inv(Close(p))
    ensures |p.pending| < p.banks
  {
    hide StreamOf, EncodeFields, HeaderFields;
    if p.content[p.active] == [] {
      assert Partition(Close(p)) && Flow(Close(p)) == Flow(p);
    } else {
      NoDupAppend(p.pending, p.active);
      assert Partition(Close(p));
      QueueFlow(p, Close(p));
    }
  }

  /** The active bank can take r's frame, and the reservation it is encoded behind. */
  ghost predicate Takes(p: Pool, r: Record) {
    && p.active < |p.content|
    && |p.content[p.active]| + |Frame(Body(p.h, r))| <= p.bankBytes
    && |p.content[p.active]| + MAX_VARINT <= p.bankBytes
  }

  /** A waiting call's bank, after any rotation, takes its frame. */
  lemma EnterTakes(p: Pool, i: nat)
    requires Inv(p) && i < |p.waiting| && Accepts(p) && p.bankBytes < TWO_63
    ensures Takes(if Roomy(p) then p else Rotate(p), p.waiting[i])
  {
    hide Frame, Body, EncodeFields, HeaderFields, Flow, StreamOf;
    if Roomy(p) {
      FrameFits(p.h, p.waiting[i]);
    } else {
      assert p.free[0] in p.free;
    }
  }

  lemma EnterLogs(p: Pool, i: nat)
    requires Inv(p) && i < |p.waiting|
    ensures Enter(p, i).log == if Accepts(p) then p.log + [p.waiting[i]] else p.log
  {
  }

  /** The critical section draws no number and begins no call. */
  lemma EnterDraws(p: Pool, i: nat)
    requires Inv(p) && i < |p.waiting|
    ensures Enter(p, i).calls == p.calls && Enter(p, i).sequence == p.sequence
  {
    hide Body, Frame, Without, Flow, StreamOf, Contents, EncodeFields, HeaderFields;
  }

  lemma CountWrittenKeeps(p: Pool)
    requires Inv(p) && p.countingWritten > 0
    ensures Inv(p.(written := p.written + 1, countingWritten := p.countingWritten - 1))
  {
    hide Flow, StreamOf;
    SameFlow(p, p.(written := p.written + 1, countingWritten := p.countingWritten - 1));
  }

  lemma CountDroppedKeeps(p: Pool)
    requires Inv(p) && p.countingDropped > 0
    ensures Inv(p.(dropped := p.dropped + 1, countingDropped := p.countingDropped - 1))
  {
    hide Flow, StreamOf;
    SameFlow(p, p.(dropped := p.dropped + 1, countingDropped := p.countingDropped - 1));
  }

  lemma SameFlow(p: Pool, q: Pool)
    requires p.out == q.out && p.content == q.content && p.pending == q.pending && p.flushing == q.flushing
    requires p.apart == q.apart && p.active == q.active
    ensures Flow(p) == Flow(q)
  {
  }

  /** Once no call is between its steps, the two counters account for every call. */
  lemma AllCounted(p: Pool)
    requires Inv(p)
    ensures p.waiting == [] && p.countingWritten == 0 && p.countingDropped == 0 ==>
              && p.written == |p.log| && p.written + p.dropped == |p.calls|
              && p.calls == multiset(p.log) + multiset(p.refused)
    ensures p.countingDropped == 0 ==> |p.refused| == p.dropped
  {
    hide Streaming;
    assert |p.calls| == |p.waiting| + |p.log| + |p.refused|;
  }

  /** The pool of a new writer: bank 0 is active and the others are free. */
  function NewPool(h: RunHeader, bankBytes: nat, banks: nat): Pool
    requires banks >= 2
  {
    Pool(h, bankBytes, banks, 0, seq(banks - 1, i requires 0 <= i => i + 1), [], None, false, true, seq(banks, _ => []),
         [], 0, [], 0, 0, 0, 0, multiset{}, [], [])
  }

  lemma NewPoolInOrder(h: RunHeader, bankBytes: nat, banks: nat)
    requires banks >= 2
    ensures Streaming(NewPool(h, bankBytes, banks)) && Accounted(NewPool(h, bankBytes, banks))
  {
    var p := NewPool(h, bankBytes, banks);
    assert Contents(p.content, []) == [] && Frames(p.h, []) == [];
    assert p.content[0] == [];
  }

  /** No channel send can block: a bank about to be sent is not in the channel yet. */
  lemma SendsNeverBlock(p: Pool)
    requires Inv(p)
    ensures !p.closed ==> |p.pending| < p.banks
    ensures p.flushing.Some? ==> |p.free| < p.banks
  {
  }

  /** A closed pool whose flusher is idle has delivered every accepted frame. */
  lemma DrainedIsComplete(p: Pool)
    requires Inv(p) && p.closed && p.pending == [] && p.flushing.None?
    ensures p.out == StreamOf(p.h, p.log)
  {
    assert Contents(p.content, p.pending) == [];
    assert p.out + [] + [] + [] == p.out;
  }

  /* ---- Runs ---- */

  /** One scheduling choice among the callers, the flusher and Close. */
  datatype Event =
    | BeginRecord(r: Record)
    | EnterLock(i: nat)
    | CountOk
    | CountDrop
    | FlushReceive
    | FlushWrite
    | FlushReturn
    | CloseWriter

  ghost predicate Enabled(p: Pool, e: Event) {
    match e
    case BeginRecord(_) => true
    case EnterLock(i) => Partition(p) && i < |p.waiting|
    case CountOk => p.countingWritten > 0
    case CountDrop => p.countingDropped > 0
    case FlushReceive => p.flushing.None? && p.pending != []
    case FlushWrite => p.flushing.Some? && p.flushing.value < |p.content|
    case FlushReturn => p.flushing.Some? && At(p.content, p.flushing.value) == []
    case CloseWriter => !p.closed && p.active < |p.content|
  }

  ghost function Next(p: Pool, e: Event): Pool
    requires Enabled(p, e)
  {
    match e
    case BeginRecord(r) => Begin(p, r)
    case EnterLock(i) => Enter(p, i)
    case CountOk => p.(written := p.written + 1, countingWritten := p.countingWritten - 1)
    case CountDrop => p.(dropped := p.dropped + 1, countingDropped := p.countingDropped - 1)
    case FlushReceive => Receive(p)
    case FlushWrite => Drain(p)
    case FlushReturn => Return(p)
    case CloseWriter => Close(p)
  }

  /** One event of a schedule; an event whose step is not enabled is skipped. */
  ghost function After(p: Pool, e: Event): Pool {
    if Enabled(p, e) then Next(p, e) else p
  }

  /** The pool after a schedule. */
  ghost function Exec(p: Pool, schedule: seq<Event>): Pool {
    if schedule == [] then p
    else After(Exec(p, schedule[..|schedule| - 1]), schedule[|schedule| - 1])
  }

  lemma AfterKeeps(p: Pool, e: Event)
    requires Inv(p) && p.bankBytes < TWO_63
    ensures Inv(After(p, e)) && After(p, e).bankBytes == p.bankBytes
  {
    hide Inv, Begin, Receive, Drain, Return, Close, Partition;
    AfterSize(p, e);
    if Enabled(p, e) {
      match e
      case BeginRecord(r) => BeginKeeps(p, r);
      case EnterLock(i) => EnterKeeps(p, i);
      case CountOk => CountWrittenKeeps(p);
      case CountDrop => CountDroppedKeeps(p);
      case FlushReceive => ReceiveKeeps(p);
      case FlushWrite => DrainKeeps(p);
      case FlushReturn => ReturnEmpty(p);
      case CloseWriter => CloseKeeps(p);
    }
  }

  /** A waiting call can always take the lock. */
  lemma EnterIsNext(p: Pool)
    requires Inv(p)
    ensures forall i :: 0 <= i < |p.waiting| ==> Enabled(p, EnterLock(i))
  {
    hide Flow, StreamOf;
  }

  lemma ReturnEmpty(p: Pool)
    requires Inv(p) && p.flushing.Some? && At(p.content, p.flushing.value) == []
    ensures Inv(Return(p))
  {
    assert Partition(p);
    ReturnKeeps(p);
  }

  lemma AfterSize(p: Pool, e: Event)
    ensures After(p, e).bankBytes == p.bankBytes
  {
    hide Body, Frame;
  }

  lemma {:induction false} ExecKeeps(p: Pool, schedule: seq<Event>)
    requires Inv(p) && p.bankBytes < TWO_63
    ensures Inv(Exec(p, schedule)) && Exec(p, schedule).bankBytes == p.bankBytes
  {
    hide Inv, After;
    if schedule != [] {
      ExecKeeps(p, schedule[..|schedule| - 1]);
      AfterKeeps(Exec(p, schedule[..|schedule| - 1]), schedule[|schedule| - 1]);
    }
  }
}
