/**
 Typed identifiers and factor levels (internal/identity/identity.go).

 Fixed-width Go integers are subset types of `int`; conversions between them are
 written out where the source performs them.
 */
module Identity {

  const TWO_8: int := 0x100
  const TWO_32: int := 0x1_0000_0000
  const TWO_63: int := 0x8000_0000_0000_0000
  const TWO_64: int := 0x1_0000_0000_0000_0000

  type byte = x: int | 0 <= x < TWO_8
  type uint8 = x: int | 0 <= x < TWO_8
  type uint32 = x: int | 0 <= x < TWO_32
  type uint64 = x: int | 0 <= x < TWO_64
  type int64 = x: int | -TWO_63 <= x < TWO_63

  /** uint64(x) of a signed value: two's complement. */
  function ToUint64(x: int64): uint64 {
    if x < 0 then x + TWO_64 else x
  }

  /** int64(v) of an unsigned value: two's complement. */
  function ToInt64(v: uint64): int64 {
    if v >= TWO_63 then v - TWO_64 else v
  }

  datatype Cell = D0 | F00 | F01 | F10 | F11D | F11P | F00Seq | UnknownCell
  {
    predicate AggregatesEnvelopes() {
      F10? || F11D? || F11P?
    }

    predicate VectorizesCompute() {
      F01? || F11D? || F11P?
    }
  }

  type Emitter = uint8
  const EMITTER_UNKNOWN: Emitter := 0
  const EMITTER_LOADGEN: Emitter := 1
  const EMITTER_PROXY: Emitter := 2
  const EMITTER_ADAPTER: Emitter := 3
  const EMITTER_TRITON: Emitter := 4

  datatype LogicalRequest = LogicalRequest(cohort: uint32, ordinal: uint32)

  const UID_SPAN: int := 0x10_0000
  const MAX_ORDINAL: int := UID_SPAN - 1

  /** Bitwise or on naturals, one binary digit at a time. */
  function BitOr(a: nat, b: nat): nat {
    if a == 0 then b
    else if b == 0 then a
    else 2 * BitOr(a / 2, b / 2) + (if a % 2 == 1 || b % 2 == 1 then 1 else 0)
  }

  lemma {:induction false} BitOrBounds(a: nat, b: nat, k: nat)
    requires a < Pow2(k) && b < Pow2(k)
    ensures a <= BitOr(a, b) < Pow2(k)
  {
    if a != 0 && b != 0 {
      assert k > 0;
      BitOrBounds(a / 2, b / 2, k - 1);
    }
  }

  function Pow2(k: nat): (p: nat)
    ensures p >= 1
  {
    if k == 0 then 1 else 2 * Pow2(k - 1)
  }

  lemma Pow2Of32()
    ensures Pow2(32) == TWO_32
  {
    assert Pow2(8) == 0x100;
    assert Pow2(16) == 0x1_0000;
    assert Pow2(24) == 0x100_0000;
  }

  /**
   `uint64(cohort) << 20 | uint64(ordinal)`. The ordinal's low 20 bits are copied;
   the bits above them are or-ed into the cohort, so an ordinal above MAX_ORDINAL
   damages the cohort it is packed beside.
   */
  function Uid(r: LogicalRequest): int64 {
    assert BitOr(r.cohort, r.ordinal / UID_SPAN) < TWO_32 by {
      Pow2Of32();
      BitOrBounds(r.cohort, r.ordinal / UID_SPAN, 32);
    }
    BitOr(r.cohort, r.ordinal / UID_SPAN) * UID_SPAN + r.ordinal % UID_SPAN
  }

  /** The inverse the validator applies to an attested uid. */
  function UidRequest(u: int64): LogicalRequest {
    var v := ToUint64(u);
    LogicalRequest((v / UID_SPAN) % TWO_32, v % UID_SPAN)
  }

  /** The uid encoding is invertible exactly up to MAX_ORDINAL. */
  lemma UidInvertible(r: LogicalRequest)
    ensures UidRequest(Uid(r)) == r <==> r.ordinal <= MAX_ORDINAL
  {
    var hi := BitOr(r.cohort, r.ordinal / UID_SPAN);
    assert hi < TWO_32 by {
      Pow2Of32();
      BitOrBounds(r.cohort, r.ordinal / UID_SPAN, 32);
    }
    assert Uid(r) / UID_SPAN == hi && Uid(r) % UID_SPAN == r.ordinal % UID_SPAN;
    if r.ordinal <= MAX_ORDINAL {
      assert r.ordinal / UID_SPAN == 0;
    }
  }

  /** Up to MAX_ORDINAL the uid is the cohort above twenty bits of ordinal. */
  lemma UidIsPacked(r: LogicalRequest)
    requires r.ordinal < 0x10_0000
    ensures Uid(r) == r.cohort * 0x10_0000 + r.ordinal
  {
    assert r.ordinal / UID_SPAN == 0;
  }
}
