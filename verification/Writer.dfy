/** The double-buffered event stream writer (internal/events/writer.go). */
module Writer {
  import opened Identity
  import opened Schema
  import opened Wire
  import opened Codec
  import opened Encoder
  import opened Stream
  import opened BankPool

  /** One preallocated buffer, filled up to n. */
  class Bank {
    const buf: array<byte>
    var n: nat

    constructor (size: nat)
      ensures fresh(this) && fresh(buf) && buf.Length == size && n == 0
    {
      buf := new byte[size];
      n := 0;
    }

    ghost predicate Valid()
      reads this
    {
      n <= buf.Length
    }

    ghost function Filled(): (s: seq<byte>)
      requires Valid()
      reads this, buf
    {
      buf[..n]
    }

    /** copy(buf[to:], buf[from:from+len]) with to <= from. */
    method Slide(to: nat, from: nat, len: nat)
      requires to <= from && from + len <= buf.Length
      modifies buf
      ensures buf[..to] == old(buf[..to])
      ensures buf[to..to + len] == old(buf[from..from + len])
    {
      var i := 0;
      while i < len
        invariant 0 <= i <= len
        invariant forall k :: 0 <= k < to ==> buf[k] == old(buf[k])
        invariant forall k :: to <= k < to + i ==> buf[k] == old(buf[k - to + from])
        invariant forall k :: from + i <= k < from + len ==> buf[k] == old(buf[k])
      {
        buf[to + i] := buf[from + i];
        i := i + 1;
      }
    }

    /** appendRecord onto the header, both behind the reservation for the length prefix. */
    method EncodeBody(h: RunHeader, header: seq<byte>, r: Record) returns (size: nat)
      requires Valid() && header == EncodeFields(HeaderFields(h))
      requires n + MAX_VARINT + |header| + MAX_BODY_SIZE <= buf.Length
      modifies buf
      ensures size == |Body(h, r)| && n + MAX_VARINT + size <= buf.Length
      ensures buf[..n] == old(buf[..n]) && buf[n + MAX_VARINT..n + MAX_VARINT + size] == Body(h, r)
    {
      hide EncodeFields, HeaderFields, RecordFields;
      var start := n + MAX_VARINT;
      ghost var s0, fields := buf[..], EncodeFields(RecordFields(r, h.writerID));
      var at := AppendBytes(buf, start, header);
      at := AppendRecord(buf, at, r, h.writerID);
      SpliceTwice(s0, start, header, fields);
      size := at - start;
      SpliceParts(s0, start, header + fields, start + size, start + size);
      assert buf[..n] == buf[..start + size][..n];
      assert buf[start..start + size] == buf[..start + size][start..];
    }

    /** The length into the reservation: earlier frames and the body behind it stay as they were. */
    method PutPrefix(size: nat) returns (end: nat)
      requires Valid() && n + MAX_VARINT + size <= buf.Length < TWO_63
      modifies buf
      ensures end <= n + MAX_VARINT && buf[..end] == old(buf[..n]) + Uvarint(size)
      ensures buf[n + MAX_VARINT..n + MAX_VARINT + size] == old(buf[n + MAX_VARINT..n + MAX_VARINT + size])
    {
      hide Uvarint;
      UvarintReadsBack(size, []);
      ghost var s0 := buf[..];
      end := AppendUvarint(buf, n, size);
      SpliceParts(s0, n, Uvarint(size), n + MAX_VARINT, n + MAX_VARINT + size);
    }

    /** The true length into the reservation, and the body slid back against it. */
    method SealFrame(size: nat)
      requires Valid() && n + MAX_VARINT + size <= buf.Length < TWO_63
      modifies this, buf
      ensures Valid()
      ensures Filled() == old(buf[..n]) + Frame(old(buf[n + MAX_VARINT..n + MAX_VARINT + size]))
    {
      hide Uvarint;
      var end := PutPrefix(size);
      Slide(end, n + MAX_VARINT, size);
      n := end + size;
      assert buf[..n] == buf[..end] + buf[end..n];
    }

    /** A body that may outgrow the bank: append moves it to a larger buffer, and it is copied behind the prefix. */
    method CopyFrame(h: RunHeader, header: seq<byte>, r: Record)
      requires Valid() && header == EncodeFields(HeaderFields(h)) && n + |Frame(Body(h, r))| <= buf.Length
      modifies this, buf
      ensures Valid()
      ensures Filled() == old(Filled()) + Frame(Body(h, r))
    {
      hide EncodeFields, HeaderFields, Body;
      var larger := new Bank(MAX_VARINT + |header| + MAX_BODY_SIZE);
      var size := larger.EncodeBody(h, header, r);
      var body := larger.buf[MAX_VARINT..MAX_VARINT + size];
      assert body == Body(h, r);
      PutFrame(body);
    }

    method PutFrame(body: seq<byte>)
      requires Valid() && n + |Frame(body)| <= buf.Length
      modifies this, buf
      ensures Valid()
      ensures Filled() == old(Filled()) + Frame(body)
    {
      hide Uvarint;
      ghost var s0 := buf[..];
      var end := AppendUvarint(buf, n, |body|);
      end := AppendBytes(buf, end, body);
      SpliceTwice(s0, n, Uvarint(|body|), body);
      assert buf[..end] == s0[..n] + (Uvarint(|body|) + body);
      n := end;
    }

    /**
     The body of Record under the lock: encode behind a reserved ten-byte prefix, write
     the true length into the reservation, slide the body back against it. The bank
     gains exactly one frame and keeps every earlier one.
     */
    method AppendFrame(h: RunHeader, header: seq<byte>, r: Record)
      requires Valid() && header == EncodeFields(HeaderFields(h)) && buf.Length < TWO_63
      requires n + MAX_VARINT <= buf.Length && n + |Frame(Body(h, r))| <= buf.Length
      modifies this, buf
      ensures Valid()
      ensures Filled() == old(Filled()) + Frame(Body(h, r))
    {
      hide EncodeFields, HeaderFields, Body, Frame;
      if n + MAX_VARINT + |header| + MAX_BODY_SIZE <= buf.Length {
        var size := EncodeBody(h, header, r);
        SealFrame(size);
      } else {
        CopyFrame(h, header, r);
      }
    }
  }

  ghost function BankHeap(slots: seq<Bank>): set<object> {
    (set b: Bank | b in slots :: b as object) + (set b: Bank | b in slots :: b.buf as object)
  }

  /** banks is the list of banks the indices name. */
  ghost predicate Names(slots: seq<Bank>, banks: seq<Bank>, indices: seq<nat>) {
    |banks| == |indices| && forall i :: 0 <= i < |banks| ==> indices[i] < |slots| && banks[i] == slots[indices[i]]
  }

  /** No two banks, and no two buffers, are the same object. */
  ghost predicate Distinct(slots: seq<Bank>) {
    forall i, j :: 0 <= i < j < |slots| ==> slots[i] != slots[j] && slots[i].buf != slots[j].buf
  }

  /** Bank i holds content[i]. */
  ghost predicate Hold(slots: seq<Bank>, content: seq<seq<byte>>, bankBytes: nat)
    reads BankHeap(slots)
  {
    && |slots| == |content|
    && forall i :: 0 <= i < |slots| ==>
         slots[i].Valid() && slots[i].buf.Length == bankBytes && slots[i].Filled() == content[i]
  }

  method MakeBanks(bankBytes: nat, banks: nat) returns (made: seq<Bank>)
    ensures |made| == banks && Distinct(made)
    ensures forall i :: 0 <= i < |made| ==>
              && fresh(made[i]) && fresh(made[i].buf) && made[i].n == 0 && made[i].buf.Length == bankBytes
  {
    made := [];
    while |made| < banks
      invariant |made| <= banks && Distinct(made)
      invariant forall i :: 0 <= i < |made| ==>
                  && fresh(made[i]) && fresh(made[i].buf) && made[i].n == 0 && made[i].buf.Length == bankBytes
    {
      var b := new Bank(bankBytes);
      made := made + [b];
    }
  }

  class Writer {
    const h: RunHeader
    const header: seq<byte>
    const bankBytes: nat
    const slots: seq<Bank>

    // Guarded by the mutex.
    var active: Bank
    var closed: bool

    // The two channels, oldest bank first, and the bank the flusher holds.
    var free: seq<Bank>
    var pending: seq<Bank>
    var flushing: Bank?

    // The atomic counters.
    var sequence: uint64
    var written: nat
    var dropped: nat

    // Record calls between drawing a sequence number and taking the lock.
    var waiting: seq<Record>

    // Calls that have left the lock and not yet counted their outcome.
    var countingWritten: nat
    var countingDropped: nat

    // What the flusher has written.
    var out: seq<byte>

    // The pool this writer is a state of.
    ghost var pool: Pool

    /** The banks and buffers a step may touch. */
    ghost function Heap(): set<object> {
      BankHeap(slots)
    }

    /** The real fields are the pool's. */
    ghost predicate Fields()
      reads this
    {
      && h == pool.h && bankBytes == pool.bankBytes && |slots| == pool.banks == |pool.content|
      && pool.active < |slots| && active == slots[pool.active]
      && Names(slots, free, pool.free) && Names(slots, pending, pool.pending)
      && (pool.flushing.None? ==> flushing == null)
      && (pool.flushing.Some? ==> pool.flushing.value < |slots| && flushing == slots[pool.flushing.value])
      && closed == pool.closed && sequence == pool.sequence && written == pool.written && dropped == pool.dropped
      && waiting == pool.waiting && out == pool.out
      && countingWritten == pool.countingWritten && countingDropped == pool.countingDropped
    }

    /** And every buffer holds what the pool says it holds. */
    ghost predicate Backed()
      reads this, Heap()
    {
      Fields() && Distinct(slots) && Hold(slots, pool.content, bankBytes)
    }

    ghost predicate Valid()
      reads this, Heap()
    {
      Backed() && Inv(pool) && header == EncodeFields(HeaderFields(h)) && bankBytes < TWO_63
    }

    /**
     NewWriter. It checks the bank size against the record bound alone; that every frame fits
     an empty bank, which decides whether the writer keeps its order, is demanded here.
     */
    constructor (h: RunHeader, bankBytes: nat, banks: nat)
      requires banks >= 2 && 4 * MAX_BODY_SIZE <= bankBytes < TWO_63
      requires EveryFrameFits(h, bankBytes)
      ensures Valid() && fresh(Heap()) && pool == NewPool(h, bankBytes, banks)
      ensures pool.log == [] && out == [] && !closed && pool.calls == multiset{}
      ensures this.h == h && |free| == banks - 1 && pending == []
    {
      var made := MakeBanks(bankBytes, banks);
      this.h, this.bankBytes, slots, header := h, bankBytes, made, EncodeFields(HeaderFields(h));
      active, free, pending, flushing, closed := made[0], made[1..], [], null, false;
      sequence, written, dropped, waiting, out := 0, 0, 0, [], [];
      countingWritten, countingDropped := 0, 0;
      pool := NewPool(h, bankBytes, banks);
      hide Streaming, Accounted, EveryFrameFits;
      new;
      NewPoolInOrder(h, bankBytes, banks);
    }

    /** Record before the lock. */
    method Begin(r: Record) returns (drawn: uint64)
      requires Valid()
      modifies this
      ensures Valid() && pool == BankPool.Begin(old(pool), r)
      ensures drawn == (old(sequence) + 1) % TWO_64
    {
      hide Inv, EncodeFields, HeaderFields, Distinct;
      BeginKeeps(pool, r);
      drawn := (sequence + 1) % TWO_64;
      sequence := drawn;
      waiting := waiting + [r.(sequence := drawn)];
      pool := BankPool.Begin(pool, r);
    }

    /** rotateLocked. */
    method RotateLocked() returns (ok: bool)
      requires Backed()
      modifies `active, `free, `pending, `pool
      ensures Backed()
      ensures ok == (old(pool).free != []) == (old(free) != [])
      ensures pool == if ok then BankPool.Rotate(old(pool)) else old(pool)
      ensures ok ==> active == old(free)[0] && free == old(free)[1..] && pending == old(pending) + [old(active)]
      ensures !ok ==> active == old(active) && free == old(free) && pending == old(pending)
    {
      if free == [] {
        return false;
      }
      pending := pending + [active];
      active, free := free[0], free[1..];
      pool := BankPool.Rotate(pool);
      ok := true;
    }

    /** The drop branch, or a bank with room: rotate only when the active one is too full. */
    method MakeRoom() returns (ok: bool)
      requires Backed() && header == EncodeFields(HeaderFields(h))
      modifies `active, `free, `pending, `pool
      ensures Backed() && ok == Accepts(old(pool))
      ensures pool == if ok && !Roomy(old(pool)) then BankPool.Rotate(old(pool)) else old(pool)
      ensures !ok <==> closed || (bankBytes < old(active.n) + 10 + |header| + MAX_BODY_SIZE && old(free) == [])
      ensures ok && bankBytes < old(active.n) + 10 + |header| + MAX_BODY_SIZE ==>
                active == old(free)[0] && free == old(free)[1..] && pending == old(pending) + [old(active)]
      ensures !ok || bankBytes >= old(active.n) + 10 + |header| + MAX_BODY_SIZE ==>
                active == old(active) && free == old(free) && pending == old(pending)
    {
      hide EncodeFields, HeaderFields, Distinct, Names;
      assert active.Filled() == pool.content[pool.active];
      if closed || bankBytes - active.n < MAX_VARINT + |header| + MAX_BODY_SIZE {
        if closed {
          return false;
        }
        ok := RotateLocked();
        return ok;
      }
      ok := true;
    }

    /**
     Record's critical section for the i-th waiting call; ok is what Record returns. A record is
     dropped if and only if the writer is closed, or the active bank has less room left than the
     largest frame may take and no bank is free; the banks change hands only where that room is
     missing and a bank is free.
     */
    method Enter(i: nat) returns (ok: bool)
      requires Valid() && i < |waiting|
      modifies this, Heap()
      ensures Valid() && pool == BankPool.Enter(old(pool), i)
      ensures ok == Accepts(old(pool))
      ensures !ok <==> old(closed) || (bankBytes < old(active.n) + 10 + |header| + MAX_BODY_SIZE && old(free) == [])
      ensures ok && bankBytes < old(active.n) + 10 + |header| + MAX_BODY_SIZE ==>
                active == old(free)[0] && free == old(free)[1..] && pending == old(pending) + [old(active)]
      ensures !ok || bankBytes >= old(active.n) + 10 + |header| + MAX_BODY_SIZE ==>
                active == old(active) && free == old(free) && pending == old(pending)
    {
      hide Inv, EncodeFields, HeaderFields, Body, Frame, Distinct, Names, Hold;
      EnterKeeps(pool, i);
      if Accepts(pool) {
        EnterTakes(pool, i);
      }
      ok := MakeRoom();
      var r := waiting[i];
      if ok {
        assert active in slots;
        FillActive(r);
      }
      Settle(i, ok);
    }

    /** The call leaves the lock with its outcome. */
    method Settle(i: nat, ok: bool)
      requires Backed() && i < |waiting|
      modifies `waiting, `countingWritten, `countingDropped, `pool
      ensures Backed() && pool == Settled(old(pool), i, ok)
    {
      hide Distinct, Names;
      pool := Settled(pool, i, ok);
      waiting := waiting[..i] + waiting[i + 1..];
      if ok {
        countingWritten := countingWritten + 1;
      } else {
        countingDropped := countingDropped + 1;
      }
    }

    /** One frame into the active bank's buffer. */
    method FillActive(r: Record)
      requires Backed() && header == EncodeFields(HeaderFields(h)) && Takes(pool, r) && bankBytes < TWO_63
      modifies active, active.buf, `pool
      ensures Backed() && pool == Fill(old(pool), r)
    {
      hide EncodeFields, HeaderFields, Body, Frame;
      active.AppendFrame(h, header, r);
      pool := Fill(pool, r);
    }

    /** written.Add, after the lock is released. */
    method CountWritten()
      requires Valid() && countingWritten > 0
      modifies `written, `countingWritten, `pool
      ensures Valid()
      ensures pool == old(pool).(written := old(written) + 1, countingWritten := old(countingWritten) - 1)
    {
      hide Inv, EncodeFields, HeaderFields, Distinct;
      CountWrittenKeeps(pool);
      written, countingWritten := written + 1, countingWritten - 1;
      pool := pool.(written := written, countingWritten := countingWritten);
    }

    /** dropped.Add, after the lock is released. */
    method CountDropped()
      requires Valid() && countingDropped > 0
      modifies `dropped, `countingDropped, `pool
      ensures Valid()
      ensures pool == old(pool).(dropped := old(dropped) + 1, countingDropped := old(countingDropped) - 1)
    {
      hide Inv, EncodeFields, HeaderFields, Distinct;
      CountDroppedKeeps(pool);
      dropped, countingDropped := dropped + 1, countingDropped - 1;
      pool := pool.(dropped := dropped, countingDropped := countingDropped);
    }

    /** The flusher receives the oldest full bank. */
    method Receive()
      requires Valid() && flushing == null && pending != []
      modifies `flushing, `pending, `pool
      ensures Valid() && pool == BankPool.Receive(old(pool))
      ensures flushing == old(pending)[0] && pending == old(pending)[1..]
    {
      hide Inv, EncodeFields, HeaderFields, Distinct;
      ReceiveKeeps(pool);
      flushing, pending := pending[0], pending[1..];
      pool := BankPool.Receive(pool);
    }

    /** The flusher writes the bank it holds and resets it. */
    method Drain()
      requires Valid() && flushing != null
      modifies `out, `pool, flushing
      ensures Valid() && pool == BankPool.Drain(old(pool))
      ensures flushing.n == 0
    {
      hide Inv, EncodeFields, HeaderFields;
      DrainKeeps(pool);
      out := out + flushing.buf[..flushing.n];
      flushing.n := 0;
      pool := BankPool.Drain(pool);
    }

    lemma QueueIsPool()
      requires Fields()
      ensures pending == [] <==> pool.pending == []
    {
    }

    /** The bank the flusher holds is empty where the pool says so. */
    lemma HeldIsPool()
      requires Valid() && flushing != null
      ensures pool.flushing.Some? && (flushing.n == 0 <==> At(pool.content, pool.flushing.value) == [])
    {
      hide Inv, EncodeFields, HeaderFields, Distinct;
      assert flushing.Filled() == pool.content[pool.flushing.value];
    }

    /** The flusher hands the empty bank back. */
    method Return()
      requires Valid() && flushing != null && flushing.n == 0
      modifies `flushing, `free, `pool
      ensures Valid() && pool == BankPool.Return(old(pool))
      ensures flushing == null
    {
      hide Inv, EncodeFields, HeaderFields, Distinct;
      assert flushing.Filled() == [];
      ReturnKeeps(pool);
      free, flushing := free + [flushing], null;
      pool := BankPool.Return(pool);
    }

    /** Close's critical section, run once. */
    method Close()
      requires Valid() && !closed
      modifies `closed, `pending, `pool
      ensures Valid() && pool == BankPool.Close(old(pool))
    {
      hide Inv, EncodeFields, HeaderFields, Distinct;
      CloseKeeps(pool);
      closed := true;
      assert active.n == 0 <==> pool.content[pool.active] == [];
      if active.n > 0 {
        pending := pending + [active];
      }
      pool := BankPool.Close(pool);
    }

    /** One turn of flush's loop. */
    method FlushOne()
      requires Valid() && (pending != [] || flushing != null)
      modifies this, Heap()
      ensures Valid() && flushing == null && closed == old(closed)
      ensures pending == if old(flushing) == null then old(pending)[1..] else old(pending)
      ensures Delivered(old(pool), pool)
    {
      hide Inv, Hold, Distinct, Names;
      if flushing == null {
        Receive();
      }
      assert flushing in slots;
      Drain();
      Return();
    }

    /** The flusher's run to the end of a closed channel: the sink is then exactly the accepted frames. */
    method FlushRest()
      requires Valid() && closed
      modifies this, Heap()
      ensures Valid() && closed && pending == [] && flushing == null
      ensures out == StreamOf(h, old(pool).log)
      ensures Delivered(old(pool), pool)
    {
      hide Inv, Hold, Distinct, StreamOf, EncodeFields, HeaderFields;
      while pending != [] || flushing != null
        invariant Valid() && closed
        invariant Delivered(old(pool), pool)
        decreases |pending|, if flushing == null then 0 else 1
      {
        FlushOne();
      }
      assert pool.pending == [] && pool.flushing.None? && pool.closed;
      DrainedIsComplete(pool);
    }
  }

  /** The records a schedule calls Record with, in the order of the calls' first steps. */
  function Begun(schedule: seq<Event>): seq<Record> {
    if schedule == [] then []
    else
      var e, before := schedule[|schedule| - 1], Begun(schedule[..|schedule| - 1]);
      if e.BeginRecord? then before + [e.r] else before
  }

  /** Records numbered one after another from what was drawn before, in 64 bits. */
  function Numbered(records: seq<Record>, drawn: uint64): (n: seq<Record>)
    ensures |n| == |records|
  {
    seq(|records|, k requires 0 <= k < |records| => records[k].(sequence := (drawn + k + 1) % TWO_64))
  }

  lemma BegunNext(schedule: seq<Event>, i: nat)
    requires i < |schedule|
    ensures Begun(schedule[..i + 1])
         == if schedule[i].BeginRecord? then Begun(schedule[..i]) + [schedule[i].r] else Begun(schedule[..i])
  {
    assert schedule[..i + 1][..i] == schedule[..i];
  }

  /** What an event does to the calls begun and the numbers drawn. */
  ghost predicate Draws(e: Event, calls: multiset<Record>, drawn: uint64, next: multiset<Record>, last: uint64) {
    if e.BeginRecord? then last == (drawn + 1) % TWO_64 && next == calls + multiset{e.r.(sequence := last)}
    else last == drawn && next == calls
  }

  /** The calls since `start` are these records, numbered one after another from `drawn`. */
  ghost predicate Begins(start: multiset<Record>, drawn: uint64, begun: seq<Record>, calls: multiset<Record>,
                         last: uint64)
  {
    last == (drawn + |begun|) % TWO_64 && calls == start + multiset(Numbered(begun, drawn))
  }

  lemma NoneBegun(start: multiset<Record>, drawn: uint64)
    ensures Begins(start, drawn, Begun([]), start, drawn)
  {
    assert Numbered([], drawn) == [];
  }

  lemma BegunAre(start: multiset<Record>, drawn: uint64, begun: seq<Record>, calls: multiset<Record>, last: uint64)
    requires Begins(start, drawn, begun, calls, last)
    ensures calls == start + multiset(Numbered(begun, drawn))
  {
  }

  lemma BeginsOne(start: multiset<Record>, drawn: uint64, schedule: seq<Event>, i: nat, calls: multiset<Record>,
                  last: uint64, next: multiset<Record>, now: uint64)
    requires i < |schedule| && Begins(start, drawn, Begun(schedule[..i]), calls, last)
    requires Draws(schedule[i], calls, last, next, now)
    ensures Begins(start, drawn, Begun(schedule[..i + 1]), next, now)
  {
    hide Begun, Numbered;
    BegunNext(schedule, i);
    if schedule[i].BeginRecord? {
      var begun, r := Begun(schedule[..i]), schedule[i].r;
      NumberOne(begun, drawn, r);
      var before, one := Numbered(begun, drawn), r.(sequence := now);
      assert multiset(before + [one]) == multiset(before) + multiset{one};
    }
  }

  lemma NumberOne(records: seq<Record>, drawn: uint64, r: Record)
    ensures Numbered(records + [r], drawn)
         == Numbered(records, drawn) + [r.(sequence := (((drawn + |records|) % TWO_64) + 1) % TWO_64)]
    ensures (((drawn + |records|) % TWO_64) + 1) % TWO_64 == (drawn + |records + [r]|) % TWO_64
  {
  }

  /** The step an event schedules; an event whose step is not enabled is skipped. */
  method Step(w: Writer, e: Event, ghost accepted: seq<Record>) returns (ghost now: seq<Record>)
    requires w.Valid() && w.pool.log == accepted
    modifies w, w.Heap()
    ensures w.Valid() && w.pool.log == now
    ensures now == if e.EnterLock? && e.i < |old(w.waiting)| && Accepts(old(w.pool))
                   then accepted + [old(w.waiting)[e.i]] else accepted
    ensures Draws(e, old(w.pool.calls), old(w.sequence), w.pool.calls, w.sequence)
    ensures w.pool == After(old(w.pool), e)
  {
    hide Inv, EncodeFields, HeaderFields, Body, Frame, Distinct, Names, Hold, BankPool.Enter;
    now := accepted;
    EnterIsNext(w.pool);
    match e {
      case BeginRecord(r) =>
        var _ := w.Begin(r);
      case EnterLock(k) =>
        if k < |w.waiting| {
          ghost var r := w.waiting[k];
          EnterLogs(w.pool, k);
          EnterDraws(w.pool, k);
          var ok := w.Enter(k);
          now := if ok then accepted + [r] else accepted;
        }
      case CountOk =>
        if w.countingWritten > 0 { w.CountWritten(); }
      case CountDrop =>
        if w.countingDropped > 0 { w.CountDropped(); }
      case FlushReceive =>
        w.QueueIsPool();
        if w.flushing == null && w.pending != [] { w.Receive(); }
      case FlushWrite =>
        if w.flushing != null {
          assert w.flushing in w.slots;
          w.Drain();
        }
      case FlushReturn =>
        if w.flushing != null {
          w.HeldIsPool();
          if w.flushing.n == 0 { w.Return(); }
        }
      case CloseWriter =>
        if !w.closed { w.Close(); }
    }
  }

  /** The steps of a schedule, one after another. */
  method Play(w: Writer, schedule: seq<Event>) returns (ghost accepted: seq<Record>)
    requires w.Valid() && w.pool.log == []
    modifies w, w.Heap()
    ensures w.Valid() && w.pool.log == accepted && w.pool == Exec(old(w.pool), schedule)
    ensures w.pool.calls == old(w.pool.calls) + multiset(Numbered(Begun(schedule), old(w.sequence)))
  {
    hide Inv, EncodeFields, HeaderFields, Distinct, Names, Hold, Begins, Draws, Begun, Numbered, Accepts, After;
    accepted := [];
    ghost var drawn, start, first := w.sequence, w.pool.calls, w.pool;
    NoneBegun(start, drawn);
    assert schedule[..0] == [];
    for i := 0 to |schedule|
      invariant w.Valid() && w.pool.log == accepted
      invariant Begins(start, drawn, Begun(schedule[..i]), w.pool.calls, w.sequence)
      invariant w.pool == Exec(first, schedule[..i])
    {
      assert schedule[..i + 1][..i] == schedule[..i];
      ghost var calls, last := w.pool.calls, w.sequence;
      accepted := Step(w, schedule[i], accepted);
      BeginsOne(start, drawn, schedule, i, calls, last, w.pool.calls, w.sequence);
    }
    assert schedule[..|schedule|] == schedule;
    BegunAre(start, drawn, Begun(schedule), w.pool.calls, w.sequence);
  }

  /**
   Any interleaving: whatever the schedule, closing and draining afterwards leaves the sink
   holding exactly the frames of the records for which Record returned ok, in lock order,
   and they read back as those records. Once no call is in progress every call is accounted
   for, as written or as dropped; the calls are those the schedule made, numbered as they came.
   */
  method Run(w: Writer, schedule: seq<Event>) returns (ghost accepted: seq<Record>)
    requires w.Valid() && w.pool.log == []
    modifies w, w.Heap()
    ensures w.Valid() && w.closed
    ensures w.pool.log == accepted == Exec(old(w.pool), schedule).log && w.out == StreamOf(w.h, accepted)
    ensures |w.out| < TWO_63 ==> ReadStream(w.out) == Contents(Read(w.h, accepted), None)
    ensures w.waiting == [] && w.countingWritten == 0 && w.countingDropped == 0 ==>
              && w.written == |accepted| && w.written + w.dropped == |w.pool.calls|
              && w.pool.calls == multiset(accepted) + multiset(w.pool.refused)
    ensures w.pool.calls == old(w.pool.calls) + multiset(Numbered(Begun(schedule), old(w.sequence)))
    ensures w.waiting == [] && w.countingDropped == 0 ==> |w.pool.refused| == w.dropped
  {
    hide Inv, EncodeFields, HeaderFields, StreamOf, Read, ReadStream, Distinct, Names, Hold, Numbered, Begun;
    accepted := Play(w, schedule);
    if !w.closed {
      w.Close();
    }
    w.FlushRest();
    if |w.out| < TWO_63 {
      ReadStreamOf(w.h, accepted);
    }
    AllCounted(w.pool);
  }
}
