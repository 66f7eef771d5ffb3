/** The rendered Triton request id "c<cohort>/o<ordinal>" (internal/events/codec.go). */
module RequestId {
  import opened Identity
  import opened Wire

  const CHAR_0: byte := 48
  const CHAR_C: byte := 99
  const CHAR_O: byte := 111
  const CHAR_SLASH: byte := 47

  predicate IsDigit(c: byte) {
    CHAR_0 <= c < CHAR_0 + 10
  }

  /** strconv.AppendUint in base 10. */
  function Digits(n: nat): (d: seq<byte>)
    ensures |d| >= 1
  {
    if n < 10 then [CHAR_0 + n] else Digits(n / 10) + [CHAR_0 + n % 10]
  }

  /** strconv.ParseUint(s, 10, 32): empty, non-digit and out-of-range inputs are refused. */
  function ParseUint32(s: seq<byte>): Option<uint32> {
    if s == [] then None
    else if !IsDigit(s[|s| - 1]) then None
    else
      var d := s[|s| - 1] - CHAR_0;
      if |s| == 1 then Some(d)
      else match ParseUint32(s[..|s| - 1])
        case None => None
        case Some(n) => if 10 * n + d < TWO_32 then Some(10 * n + d) else None
  }

  lemma {:induction false} DigitsParse(n: uint32)
    ensures ParseUint32(Digits(n)) == Some(n)
    ensures forall i :: 0 <= i < |Digits(n)| ==> IsDigit(Digits(n)[i])
  {
    if n >= 10 {
      DigitsParse(n / 10);
      assert Digits(n)[..|Digits(n)| - 1] == Digits(n / 10);
    }
  }

  lemma {:induction false} DigitsLength(n: nat, k: nat)
    requires k >= 1 && n < Pow10(k)
    ensures |Digits(n)| <= k
  {
    if n >= 10 {
      assert Pow10(k) == 10 * Pow10(k - 1);
      DigitsLength(n / 10, k - 1);
    }
  }

  function Pow10(k: nat): nat {
    if k == 0 then 1 else 10 * Pow10(k - 1)
  }

  lemma Uint32Digits(n: uint32)
    ensures |Digits(n)| <= 10
  {
    assert Pow10(4) == 1_0000;
    assert Pow10(8) == 1_0000_0000;
    DigitsLength(n, 10);
  }

  /** AppendTritonRequestID onto an empty slice. */
  function Render(r: LogicalRequest): seq<byte> {
    [CHAR_C] + Digits(r.cohort) + [CHAR_SLASH, CHAR_O] + Digits(r.ordinal)
  }

  lemma RenderLength(r: LogicalRequest)
    ensures 5 <= |Render(r)| <= 23
  {
    Uint32Digits(r.cohort);
    Uint32Digits(r.ordinal);
  }

  /** The first index from i on where "/o" starts, at or below |s|-2. */
  function FindSeparator(s: seq<byte>, i: nat): (r: Option<nat>)
    ensures r.Some? ==> i <= r.value < |s| - 1
    decreases |s| - i
  {
    if i >= |s| - 1 then None
    else if s[i] == CHAR_SLASH && s[i + 1] == CHAR_O then Some(i)
    else FindSeparator(s, i + 1)
  }

  /** ParseTritonRequestID. */
  function Parse(s: seq<byte>): Option<LogicalRequest> {
    if |s| < 4 || s[0] != CHAR_C then None
    else match FindSeparator(s, 1)
      case None => None
      case Some(sep) =>
        match (ParseUint32(s[1..sep]), ParseUint32(s[sep + 2..]))
        case (Some(cohort), Some(ordinal)) => Some(LogicalRequest(cohort, ordinal))
        case _ => None
  }

  lemma {:induction false} SeparatorAfterDigits(s: seq<byte>, i: nat, at: nat)
    requires i <= at < |s| - 1
    requires forall j :: i <= j < at ==> IsDigit(s[j])
    requires s[at] == CHAR_SLASH && s[at + 1] == CHAR_O
    ensures FindSeparator(s, i) == Some(at)
    decreases at - i
  {
    if i < at {
      assert IsDigit(s[i]);
      SeparatorAfterDigits(s, i + 1, at);
    }
  }

  /** ParseTritonRequestID inverts AppendTritonRequestID for every pair of 32-bit ids. */
  lemma ParseInvertsRender(r: LogicalRequest)
    ensures Parse(Render(r)) == Some(r)
  {
    var s, a, b := Render(r), Digits(r.cohort), Digits(r.ordinal);
    DigitsParse(r.cohort);
    DigitsParse(r.ordinal);
    var sep := 1 + |a|;
    assert s[1..sep] == a && s[sep + 2..] == b;
    forall j | 1 <= j < sep ensures IsDigit(s[j]) {
      assert s[j] == a[j - 1];
    }
    SeparatorAfterDigits(s, 1, sep);
  }

  /* ---- The grammar ---- */

  /** A non-empty run of decimal digits; leading zeros are digits. */
  ghost predicate Numeral(s: seq<byte>) {
    s != [] && forall i :: 0 <= i < |s| ==> IsDigit(s[i])
  }

  /** The number a run of digits denotes: each digit counts for its own power of ten. */
  function Denoted(s: seq<byte>): int
    requires forall i :: 0 <= i < |s| ==> IsDigit(s[i])
  {
    if s == [] then 0 else (s[0] - CHAR_0) * Pow10(|s| - 1) + Denoted(s[1..])
  }

  lemma {:induction false} DenotedLast(s: seq<byte>)
    requires Numeral(s)
    ensures Denoted(s) == 10 * Denoted(s[..|s| - 1]) + (s[|s| - 1] - CHAR_0)
  {
    var n := |s| - 1;
    if n == 0 {
      assert s[1..] == [] && Pow10(0) == 1;
    } else {
      DenotedLast(s[1..]);
      assert s[1..][..n - 1] == s[..n][1..];
      assert (s[0] - CHAR_0) * Pow10(n) == 10 * ((s[0] - CHAR_0) * Pow10(n - 1));
    }
  }

  /** ParseUint32 accepts exactly the numerals of 32-bit numbers, as what they denote. */
  lemma {:induction false} ParseUint32Exactly(s: seq<byte>, n: uint32)
    ensures ParseUint32(s) == Some(n) <==> Numeral(s) && Denoted(s) == n
    decreases |s|
  {
    if s != [] && IsDigit(s[|s| - 1]) {
      var front, d := s[..|s| - 1], s[|s| - 1] - CHAR_0;
      if Numeral(s) {
        DenotedLast(s);
        if front != [] {
          ParseUint32Exactly(front, Denoted(s) / 10 % TWO_32);
        }
      }
      if ParseUint32(s) == Some(n) && front != [] {
        ParseUint32Exactly(front, ParseUint32(front).value);
        assert Numeral(s);
        DenotedLast(s);
      }
    }
  }

  /** s is "c", a numeral of the cohort, "/o" and a numeral of the ordinal. */
  ghost predicate Spells(s: seq<byte>, r: LogicalRequest) {
    exists a: seq<byte>, b: seq<byte> ::
      && s == [CHAR_C] + a + [CHAR_SLASH, CHAR_O] + b
      && Numeral(a) && Numeral(b) && Denoted(a) == r.cohort && Denoted(b) == r.ordinal
  }

  lemma {:induction false} SeparatorMeans(s: seq<byte>, i: nat)
    ensures FindSeparator(s, i).Some? ==>
              s[FindSeparator(s, i).value] == CHAR_SLASH && s[FindSeparator(s, i).value + 1] == CHAR_O
    decreases |s| - i
  {
    if i < |s| - 1 && !(s[i] == CHAR_SLASH && s[i + 1] == CHAR_O) {
      SeparatorMeans(s, i + 1);
    }
  }

  lemma SpelledParses(s: seq<byte>, r: LogicalRequest)
    requires Spells(s, r)
    ensures Parse(s) == Some(r)
  {
    var a: seq<byte>, b: seq<byte> :| s == [CHAR_C] + a + [CHAR_SLASH, CHAR_O] + b
      && Numeral(a) && Numeral(b) && Denoted(a) == r.cohort && Denoted(b) == r.ordinal;
    hide Spells;
    ParseUint32Exactly(a, r.cohort);
    ParseUint32Exactly(b, r.ordinal);
    hide ParseUint32, Denoted;
    SeparatorFound(s, a, b);
  }

  lemma SeparatorFound(s: seq<byte>, a: seq<byte>, b: seq<byte>)
    requires s == [CHAR_C] + a + [CHAR_SLASH, CHAR_O] + b && Numeral(a) && Numeral(b)
    ensures FindSeparator(s, 1) == Some(1 + |a|) && s[1..1 + |a|] == a && s[1 + |a| + 2..] == b && |s| >= 4
  {
    var sep := 1 + |a|;
    assert s[1..sep] == a && s[sep + 2..] == b;
    forall j | 1 <= j < sep ensures IsDigit(s[j]) {
      assert s[j] == a[j - 1];
    }
    SeparatorAfterDigits(s, 1, sep);
  }

  lemma ParsedIsSpelled(s: seq<byte>, r: LogicalRequest)
    requires Parse(s) == Some(r)
    ensures Spells(s, r)
  {
    SeparatorMeans(s, 1);
    var sep := FindSeparator(s, 1).value;
    var a, b := s[1..sep], s[sep + 2..];
    ParseUint32Exactly(a, r.cohort);
    ParseUint32Exactly(b, r.ordinal);
    assert s == [CHAR_C] + a + [CHAR_SLASH, CHAR_O] + b;
  }

  /** The scan for the separator and the two numbers around it. */
  method Scan(s: seq<byte>) returns (r: Option<LogicalRequest>)
    ensures r == Parse(s)
  {
    if |s| < 4 || s[0] != CHAR_C {
      return None;
    }
    var i := 1;
    while i < |s| - 1 && !(s[i] == CHAR_SLASH && s[i + 1] == CHAR_O)
      invariant 1 <= i <= |s| - 1
      invariant FindSeparator(s, 1) == FindSeparator(s, i)
    {
      i := i + 1;
    }
    if i >= |s| - 1 {
      return None;
    }
    var cohort := ParseUint32(s[1..i]);
    if cohort.None? {
      return None;
    }
    var ordinal := ParseUint32(s[i + 2..]);
    if ordinal.None? {
      return None;
    }
    r := Some(LogicalRequest(cohort.value, ordinal.value));
  }

  /**
   ParseTritonRequestID, with its scan for the separator. A text is accepted if and only if it
   is two numerals of 32-bit numbers around the separator, and as the numbers they denote.
   */
  method ParseRequestId(s: seq<byte>) returns (r: Option<LogicalRequest>)
    ensures r == Parse(s)
    ensures forall q :: r == Some(q) <==> Spells(s, q)
  {
    r := Scan(s);
    forall q ensures r == Some(q) <==> Spells(s, q) {
      if r == Some(q) { ParsedIsSpelled(s, q); }
      if Spells(s, q) { SpelledParses(s, q); }
    }
  }
}
