/** accountBytes: a counter that is part of the message it measures (internal/envelope/envelope.go). */
module ByteAccounting {
  import opened Identity
  import opened Wire

  /** The size of auxiliary_bytes (field 17, a two-byte tag) on the wire: nothing when it is zero. */
  function CounterSize(v: nat): nat {
    if v == 0 then 0 else 2 + VarintLen(v)
  }

  /**
   proto.Size of an envelope whose every other field takes `rest` bytes. Its payloads are
   among them, so `rest` is never below the logical byte count.
   */
  function MarshaledSize(rest: nat, auxiliary: nat): nat {
    rest + CounterSize(auxiliary)
  }

  /** The two counters partition the marshaled size, which includes the counter itself. */
  predicate Partitions(rest: nat, logical: nat, auxiliary: nat) {
    logical + auxiliary == MarshaledSize(rest, auxiliary)
  }

  function Digits(v: nat): nat {
    if v == 0 then 0 else VarintLen(v)
  }

  lemma {:induction false} VarintLenMonotone(a: nat, b: nat)
    requires a <= b
    ensures VarintLen(a) <= VarintLen(b)
  {
    if a >= 0x80 {
      VarintLenMonotone(a / 0x80, b / 0x80);
    }
  }

  lemma DigitsMonotone(a: nat, b: nat)
    requires a <= b
    ensures Digits(a) <= Digits(b) && CounterSize(a) <= CounterSize(b)
    ensures CounterSize(a) != CounterSize(b) ==> Digits(a) < Digits(b)
  {
    if a > 0 {
      VarintLenMonotone(a, b);
    }
  }

  lemma DigitsBound(v: nat)
    requires v < TWO_64
    ensures Digits(v) <= MAX_VARINT
  {
    UvarintReadsBack(v, []);
  }

  /**
   The loop's passes from a measurement `was` that gave `now`: re-measure until the value
   repeats. Every pass that does not repeat it needs a longer varint.
   */
  function Settle(rest: nat, logical: nat, was: nat, now: nat): (auxiliary: nat)
    requires logical <= rest < TWO_63
    requires was < TWO_64 && was <= now == MarshaledSize(rest, was) - logical
    ensures Partitions(rest, logical, auxiliary) && now <= auxiliary < TWO_64
    decreases MAX_VARINT - Digits(was)
  {
    DigitsBound(was);
    DigitsMonotone(was, now);
    assert now < TWO_64;
    var next := MarshaledSize(rest, now) - logical;
    if next == now then now
    else
      DigitsBound(now);
      Settle(rest, logical, now, next)
  }

  /** What accountBytes leaves in auxiliary_bytes. */
  function Auxiliary(rest: nat, logical: nat): (auxiliary: nat)
    requires logical <= rest < TWO_63
    ensures Partitions(rest, logical, auxiliary) && auxiliary < TWO_64
  {
    Settle(rest, logical, 0, rest - logical)
  }

  lemma {:induction false} SettleIsLeast(rest: nat, logical: nat, was: nat, now: nat, other: nat)
    requires logical <= rest < TWO_63
    requires was < TWO_64 && was <= now == MarshaledSize(rest, was) - logical
    requires was <= other && Partitions(rest, logical, other)
    ensures Settle(rest, logical, was, now) <= other
    decreases MAX_VARINT - Digits(was)
  {
    DigitsBound(was);
    DigitsMonotone(was, now);
    DigitsMonotone(was, other);
    assert now < TWO_64;
    var next := MarshaledSize(rest, now) - logical;
    if next != now {
      DigitsBound(now);
      SettleIsLeast(rest, logical, now, next, other);
    }
  }

  /** The counter is the smallest value that makes the counters partition the size. */
  lemma AuxiliaryIsLeast(rest: nat, logical: nat, other: nat)
    requires logical <= rest < TWO_63 && Partitions(rest, logical, other)
    ensures Auxiliary(rest, logical) <= other
  {
    SettleIsLeast(rest, logical, 0, rest - logical, other);
  }

  /** accountBytes' loop. */
  method AccountBytes(rest: nat, logical: nat) returns (auxiliary: nat)
    requires logical <= rest < TWO_63
    ensures Partitions(rest, logical, auxiliary)
    ensures forall other: nat :: Partitions(rest, logical, other) ==> auxiliary <= other
    ensures auxiliary == Auxiliary(rest, logical)
  {
    auxiliary := 0;
    ghost var was := -1;
    while true
      invariant was < 0 ==> was == -1 && auxiliary == 0
      invariant was >= 0 ==> was <= auxiliary == MarshaledSize(rest, was) - logical < TWO_64
      invariant was >= 0 ==> Auxiliary(rest, logical) == Settle(rest, logical, was, auxiliary)
      decreases MAX_VARINT + 1 - (if was < 0 then -1 else Digits(was))
    {
      DigitsBound(auxiliary);
      if was >= 0 {
        DigitsMonotone(was, auxiliary);
      }
      var measured := MarshaledSize(rest, auxiliary) - logical;
      if measured == auxiliary {
        break;
      }
      was, auxiliary := auxiliary, measured;
    }
    forall other: nat | Partitions(rest, logical, other) ensures auxiliary <= other {
      AuxiliaryIsLeast(rest, logical, other);
    }
  }

  /** The counter's own size is that of field 17 on the wire, and nothing when it is zero. */
  lemma CounterIsField17(v: uint64)
    ensures CounterSize(v) == if v == 0 then 0 else |Varint(17, v).Encode()|
  {
    assert |Uvarint(17 * 8 + WIRE_VARINT)| == 2;
  }
}
