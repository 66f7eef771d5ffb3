/** The event record and its stage vocabulary (internal/events/schema.go). */
module Schema {
  import opened Identity

  const STAGE_COUNT: int := 15
  const SCHEMA_VERSION: uint32 := 2
  const MAX_MEMBERSHIP: int := 64

  /** The 15 timestamps in the schema's own numbering. */
  type Stage = s: int | 1 <= s <= STAGE_COUNT witness 1

  const SCHED: Stage := 1
  const CLIENT_SEND: Stage := 2
  const PROXY_RECV: Stage := 3
  const COHORT_SEAL: Stage := 4
  const PROXY_SEND: Stage := 5
  const ADAPTER_RECV: Stage := 6
  const ADAPTER_DISPATCH: Stage := 7
  const QUEUE_START: Stage := 8
  const COMPUTE_START: Stage := 9
  const COMPUTE_END: Stage := 10
  const ADAPTER_RESULT: Stage := 11
  const ADAPTER_SEND: Stage := 12
  const PROXY_RESP_RECV: Stage := 13
  const PROXY_FANOUT: Stage := 14
  const CLIENT_RECV: Stage := 15

  /** A StageMask word: bit s-1 of the mask is stage s. */
  predicate MaskHas(m: nat, s: Stage) {
    if s == 1 then m % 2 == 1 else MaskHas(m / 2, s - 1)
  }

  function MaskWith(m: nat, s: Stage): nat {
    if s == 1 then (if m % 2 == 1 then m else m + 1)
    else 2 * MaskWith(m / 2, s - 1) + m % 2
  }

  /** Setting a bit adds exactly that stage to the mask. */
  lemma {:induction false} MaskWithHas(m: nat, s: Stage, t: Stage)
    ensures MaskHas(MaskWith(m, s), t) <==> t == s || MaskHas(m, t)
  {
    if s > 1 && t > 1 {
      MaskWithHas(m / 2, s - 1, t - 1);
      assert MaskWith(m, s) / 2 == MaskWith(m / 2, s - 1);
    }
  }

  lemma {:induction false} EmptyMask(s: Stage)
    ensures !MaskHas(0, s)
  {
    if s > 1 { EmptyMask(s - 1); }
  }

  lemma {:induction false} MaskWithBound(m: nat, s: Stage, k: nat)
    requires m < Pow2(k) && s <= k
    ensures MaskWith(m, s) < Pow2(k)
  {
    var half := Pow2(k - 1);
    assert Pow2(k) == 2 * half;
    if s > 1 {
      assert m / 2 < half;
      MaskWithBound(m / 2, s - 1, k - 1);
      var next := MaskWith(m / 2, s - 1);
      assert MaskWith(m, s) == 2 * next + m % 2;
    }
  }

  /** Bit s-1 of the mask, by division. */
  lemma {:induction false} MaskIsBits(m: nat, s: Stage)
    ensures MaskHas(m, s) <==> (m / Pow2(s - 1)) % 2 == 1
  {
    if s > 1 {
      MaskIsBits(m / 2, s - 1);
      HalfThen(m, Pow2(s - 2));
    }
  }

  lemma HalfThen(m: nat, p: nat)
    requires p > 0
    ensures m / (2 * p) == (m / 2) / p
  {
    var q := (m / 2) / p;
    assert m / 2 == q * p + (m / 2) % p;
    assert m == 2 * (m / 2) + m % 2;
    var r := 2 * ((m / 2) % p) + m % 2;
    assert m == q * (2 * p) + r && 0 <= r < 2 * p;
    DivisionIs(m, 2 * p, q, r);
  }

  lemma DivisionIs(m: nat, d: nat, q: nat, r: nat)
    requires d > 0 && m == q * d + r && r < d
    ensures m / d == q
  {
    var e := m / d - q;
    assert m % d == m - (m / d) * d;
    assert e * d == r - m % d;
    assert e >= 1 ==> e * d >= d;
    assert e <= -1 ==> e * d <= 0 - d;
  }

  type Status = uint8
  const STATUS_UNSPECIFIED: Status := 0
  const STATUS_OK: Status := 1
  const STATUS_ERROR: Status := 2
  const STATUS_TIMEOUT: Status := 3

  datatype Dispatch = Dispatch(dispatched: uint32, skewNanos: int64, cpuNanos: int64, cpuScope: uint8)

  const NO_DISPATCH := Dispatch(0, 0, 0, 0)

  /** TS [StageCount+1]int64: entry 0 is unused. */
  type Timestamps = t: seq<int64> | |t| == STAGE_COUNT + 1
    witness [0, 0, 0, 0, 0, 0, 0, 0, 0, 0, 0, 0, 0, 0, 0, 0]

  const NO_TIMESTAMPS: Timestamps := [0, 0, 0, 0, 0, 0, 0, 0, 0, 0, 0, 0, 0, 0, 0, 0]

  /** The first MembershipStored entries of the fixed membership array. */
  type Uids = u: seq<int64> | |u| <= MAX_MEMBERSHIP

  datatype Record = Record(
    emitter: Emitter,
    sequence: uint64,
    cohort: uint32,
    ordinal: uint32,
    envelopeID: uint64,
    executionID: uint64,
    presence: uint32,
    status: Status,
    ts: Timestamps,
    logicalBytes: uint32,
    envelopeBytes: uint32,
    batchSize: uint32,
    dispatch: Dispatch,
    hasDispatch: bool,
    membership: Uids,
    membershipCount: uint32)
  {
    function Request(): LogicalRequest {
      LogicalRequest(cohort, ordinal)
    }

    /** Record.Stage's second result. */
    predicate Has(s: Stage) {
      MaskHas(presence, s)
    }

    /** Record.SetStage: the timestamp and its presence bit move together. */
    function SetStage(s: Stage, t: int64): (r: Record)
      ensures forall u: Stage :: r.Has(u) <==> u == s || Has(u)
      ensures r.ts == ts[s := t]
    {
      assert MaskWith(presence, s) < TWO_32 by {
        Pow2Of32();
        MaskWithBound(presence, s, 32);
      }
      forall u: Stage ensures MaskHas(MaskWith(presence, s), u) <==> u == s || MaskHas(presence, u) {
        MaskWithHas(presence, s, u);
      }
      this.(ts := ts[s := t], presence := MaskWith(presence, s))
    }

    /** Record.SetMembership: at most MAX_MEMBERSHIP uids are stored, the full count is kept. */
    function SetMembership(uids: seq<int64>): Record {
      this.(membershipCount := |uids| % TWO_32,
            membership := if |uids| <= MAX_MEMBERSHIP then uids else uids[..MAX_MEMBERSHIP])
    }
  }

  const EMPTY_RECORD := Record(0, 0, 0, 0, 0, 0, 0, 0, NO_TIMESTAMPS, 0, 0, 0, NO_DISPATCH, false, [], 0)

  /** A Go string or byte slice: its length is an int. */
  type Bytes = s: seq<byte> | |s| < TWO_63

  datatype RunHeader = RunHeader(
    experiment: Bytes,
    session: Bytes,
    run: Bytes,
    cell: Bytes,
    clockDomain: Bytes,
    writerID: uint32)

  datatype Decoded = Decoded(schemaVersion: uint32, header: RunHeader, record: Record)

  const EMPTY_HEADER := RunHeader([], [], [], [], [], 0)
  const EMPTY_DECODED := Decoded(0, EMPTY_HEADER, EMPTY_RECORD)
}
