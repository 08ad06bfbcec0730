/** Wire form of sequence numbers: a uint64 written in base 36, as the
    syncer hands cursors to clients and reads them back. */
module SeqId {
  import opened Wrappers
  import opened Numeral

  /** SeqIDN2S: the lower-case base-36 numeral of a uint64. */
  function N2S(n: nat): (s: string)
    requires n <= MaxUint64
    ensures |s| >= 1 && LowerDigits(s)
    ensures s[0] == '0' <==> n == 0
  {
    FormatUintCanonical(n, 36);
    FormatUint(n, 36)
  }

  /** SeqIDS2N: ParseUint(s, 36, 64); letters of either case are digits,
      the empty string and any sign or other character are syntax errors,
      a value above 2^64 - 1 is a range error. */
  function S2N(s: string): (r: Result<nat>)
    ensures r.Ok? ==> r.value <= MaxUint64
    ensures r.Err? ==> r.code == Syntax || r.code == Range
    ensures |s| == 0 ==> r == Err(Syntax)
  {
    ParseUint(s, 36)
  }

  /** Every cursor the server hands out reads back as the same number. */
  lemma RoundTrip(n: nat)
    requires n <= MaxUint64
    ensures S2N(N2S(n)) == Ok(n)
  {
    ParseFormatUint(n, 36);
  }

  /** Distinct sequence numbers have distinct cursors. */
  lemma N2SInjective(a: nat, b: nat)
    requires a <= MaxUint64 && b <= MaxUint64
    ensures N2S(a) == N2S(b) <==> a == b
  {
    if N2S(a) == N2S(b) {
      RoundTrip(a);
      RoundTrip(b);
    }
  }

  /** A character that is not a base-36 digit anywhere in the cursor is
      rejected, whatever precedes it, unless an earlier prefix already
      overflowed. */
  lemma {:induction false} RejectsNonDigit(s: string, i: nat)
    requires i < |s| && DigitValue(s[i]).None?
    ensures S2N(s).Err?
    decreases |s|
  {
    if i < |s| - 1 {
      RejectsNonDigit(s[..|s| - 1], i);
      assert ParseDigits(s[..|s| - 1], 36, MaxUint64).Err?;
    }
  }

  /** A leading sign, the one character FormatUint never writes but a
      careless client might send, is a syntax error. */
  lemma RejectsSign(s: string)
    requires |s| > 0 && (s[0] == '-' || s[0] == '+')
    ensures S2N(s).Err?
  {
    RejectsNonDigit(s, 0);
  }

  /** Upper-case cursors are accepted and mean the same number. */
  lemma AcceptsUpperCase()
    ensures S2N("Z") == Ok(35) && S2N("z") == Ok(35)
    ensures S2N("10") == Ok(36)
  {
    assert "10"[..1] == "1";
  }

  /** Leading zeros are tolerated on input although N2S never writes them. */
  lemma AcceptsLeadingZeros()
    ensures S2N("00a") == Ok(10)
  {
    assert ParseDigits("0", 36, MaxUint64) == Ok(0) by { assert "0"[..0] == ""; }
    assert ParseDigits("00", 36, MaxUint64) == Ok(0) by { assert "00"[..1] == "0"; }
    assert "00a"[..2] == "00";
  }

  /** A numeral one digit longer than the largest uint64 allows is a range
      error, not a silently wrapped value. */
  lemma RejectsOverflow(n: nat)
    requires MaxUint64 < n && n / 36 <= MaxUint64
    ensures S2N(FormatUint(n, 36)) == Err(Range)
  {
    DivStep(n, 36);
    var s := FormatUint(n, 36);
    assert s[..|s| - 1] == FormatUint(n / 36, 36);
    ParseFormatDigits(n / 36, 36, MaxUint64);
    DigitRoundTrip(n % 36);
  }
}
