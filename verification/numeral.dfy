/** Positional numerals as Go's strconv writes and reads them:
    FormatUint/FormatInt (lower-case digits, no leading zeros, a leading
    '-' for negatives) and ParseUint/ParseInt (either letter case, no sign
    for the unsigned form, digits scanned left to right so that the first
    offending character decides between a syntax and a range error). */
module Numeral {
  import opened Wrappers

  const MaxUint64: nat := 0xFFFF_FFFF_FFFF_FFFF
  const Int64Cutoff: nat := 0x8000_0000_0000_0000   // 1 << 63

  predicate ValidBase(base: nat) { 2 <= base <= 36 }

  /** The lower-case digit Go writes for value `d`. */
  function DigitChar(d: nat): (c: char)
    requires d < 36
    ensures '0' <= c <= '9' || 'a' <= c <= 'z'
  {
    if d < 10 then '0' + d as char else 'a' + (d - 10) as char
  }

  /** The value Go reads for one digit character, in any base up to 36. */
  function DigitValue(c: char): (r: Option<nat>)
    ensures r.Some? <==> ('0' <= c <= '9' || 'a' <= c <= 'z' || 'A' <= c <= 'Z')
    ensures r.Some? ==> r.value < 36
  {
    if '0' <= c <= '9' then Some((c - '0') as nat)
    else if 'a' <= c <= 'z' then Some((c - 'a') as nat + 10)
    else if 'A' <= c <= 'Z' then Some((c - 'A') as nat + 10)
    else None
  }

  lemma DigitRoundTrip(d: nat)
    requires d < 36
    ensures DigitValue(DigitChar(d)) == Some(d)
  {}

  /** strconv.FormatUint: the shortest numeral of `n` in `base`. */
  function FormatUint(n: nat, base: nat): (s: string)
    requires ValidBase(base)
    ensures |s| >= 1
    decreases n
  {
    if n < base then [DigitChar(n)]
    else
      DivStep(n, base);
      FormatUint(n / base, base) + [DigitChar(n % base)]
  }

  predicate LowerDigits(s: string) {
    forall i :: 0 <= i < |s| ==> '0' <= s[i] <= '9' || 'a' <= s[i] <= 'z'
  }

  lemma DivStep(n: nat, base: nat)
    requires ValidBase(base) && n >= base
    ensures 1 <= n / base < n && n % base < base
    ensures (n / base) * base + n % base == n
  {}

  /** Every character of a formatted numeral is a lower-case digit, and the
      first one is '0' only for zero itself. */
  lemma {:induction false} FormatUintCanonical(n: nat, base: nat)
    requires ValidBase(base)
    ensures LowerDigits(FormatUint(n, base))
    ensures (FormatUint(n, base)[0] == '0') <==> n == 0
    decreases n
  {
    if n >= base {
      DivStep(n, base);
      FormatUintCanonical(n / base, base);
      var p := FormatUint(n / base, base);
      var s := p + [DigitChar(n % base)];
      assert FormatUint(n, base) == s;
      assert s[0] == p[0];
      assert LowerDigits(s) by {
        forall i | 0 <= i < |s|
          ensures '0' <= s[i] <= '9' || 'a' <= s[i] <= 'z'
        {
          if i < |p| { assert s[i] == p[i]; }
        }
      }
    }
  }

  /** In base ten every character is one of '0' to '9'. */
  lemma {:induction false} DecimalDigits(n: nat)
    ensures forall i :: 0 <= i < |FormatUint(n, 10)| ==> '0' <= FormatUint(n, 10)[i] <= '9'
    decreases n
  {
    if n >= 10 {
      DivStep(n, 10);
      DecimalDigits(n / 10);
      var p := FormatUint(n / 10, 10);
      var s := p + [DigitChar(n % 10)];
      assert FormatUint(n, 10) == s;
      forall i | 0 <= i < |s| ensures '0' <= s[i] <= '9' {
        if i < |p| { assert s[i] == p[i]; }
      }
    }
  }

  /** The digits of `s` read left to right (ParseUint's main loop): the first
      character that is not a digit of `base` is a syntax error, and the
      first prefix whose value exceeds `max` is a range error. */
  function ParseDigits(s: string, base: nat, max: nat): (r: Result<nat>)
    requires ValidBase(base)
    ensures r.Ok? ==> r.value <= max
    ensures r.Err? ==> r.code == Syntax || r.code == Range
    decreases |s|
  {
    if |s| == 0 then Ok(0)
    else
      match ParseDigits(s[..|s| - 1], base, max)
      case Err(e) => Err(e)
      case Ok(v) =>
        var d := DigitValue(s[|s| - 1]);
        if d.None? || d.value >= base then Err(Syntax)
        else
          var n := Shift(v, base, d.value);
          if n > max then Err(Range) else Ok(n)
  }

  /** Once a prefix fails, the whole text fails the same way: the digits
      after it are never looked at. */
  lemma {:induction false} ParseDigitsPrefixErr(s: string, base: nat, max: nat, k: nat)
    requires ValidBase(base) && k <= |s| && ParseDigits(s[..k], base, max).Err?
    ensures ParseDigits(s, base, max) == ParseDigits(s[..k], base, max)
    decreases |s|
  {
    if k < |s| {
      assert s[..|s| - 1][..k] == s[..k];
      ParseDigitsPrefixErr(s[..|s| - 1], base, max, k);
    } else {
      assert s[..k] == s;
    }
  }

  /** The value of a prefix followed by one more digit. */
  function Shift(v: nat, base: nat, d: nat): nat {
    v * base + d
  }

  /** strconv.ParseUint(s, base, 64). */
  function ParseUint(s: string, base: nat): (r: Result<nat>)
    requires ValidBase(base)
    ensures r.Ok? ==> |s| > 0 && r.value <= MaxUint64
  {
    if |s| == 0 then Err(Syntax) else ParseDigits(s, base, MaxUint64)
  }

  /** Reading back a formatted numeral yields the number. */
  lemma {:induction false} ParseFormatDigits(n: nat, base: nat, max: nat)
    requires ValidBase(base) && n <= max
    ensures ParseDigits(FormatUint(n, base), base, max) == Ok(n)
    decreases n
  {
    var s := FormatUint(n, base);
    if n < base {
      assert s[..|s| - 1] == [];
      DigitRoundTrip(n);
    } else {
      DivStep(n, base);
      var p := FormatUint(n / base, base);
      assert s[..|s| - 1] == p;
      ParseFormatDigits(n / base, base, max);
      DigitRoundTrip(n % base);
    }
  }

  lemma ParseFormatUint(n: nat, base: nat)
    requires ValidBase(base) && n <= MaxUint64
    ensures ParseUint(FormatUint(n, base), base) == Ok(n)
  {
    ParseFormatDigits(n, base, MaxUint64);
  }

  /** strconv.FormatInt(n, 10), i.e. fmt's %d. */
  function FormatInt(n: int): (s: string)
    ensures |s| >= 1
    ensures n < 0 <==> s[0] == '-'
  {
    if n < 0 then "-" + FormatUint(-n, 10)
    else FormatUintCanonical(n, 10); FormatUint(n, 10)
  }

  predicate IsInt64(n: int) { -(Int64Cutoff as int) <= n < Int64Cutoff }

  /** strconv.ParseInt(s, 10, 64): an optional sign, then ParseUint's digits;
      a magnitude outside the int64 range of that sign is a range error. */
  function ParseInt(s: string): (r: Result<int>)
    ensures r.Ok? ==> IsInt64(r.value)
    ensures r.Err? ==> r.code == Syntax || r.code == Range
  {
    if |s| == 0 then Err(Syntax)
    else
      var neg := s[0] == '-';
      var body := if s[0] == '+' || s[0] == '-' then s[1..] else s;
      match ParseUint(body, 10)
      case Err(e) => if e == Range then Err(Range) else Err(Syntax)
      case Ok(un) =>
        if !neg && un >= Int64Cutoff then Err(Range)
        else if neg && un > Int64Cutoff then Err(Range)
        else
          var v: int := if neg then 0 - (un as int) else un as int;
          Ok(v)
  }

  /** Every int64 survives a FormatInt/ParseInt round trip. */
  lemma ParseFormatInt(n: int)
    requires IsInt64(n)
    ensures ParseInt(FormatInt(n)) == Ok(n)
  {
    if n < 0 {
      ParseFormatUint(-n, 10);
      ParseIntMinus(FormatUint(-n, 10), -n);
    } else {
      FormatUintCanonical(n, 10);
      ParseFormatUint(n, 10);
      ParseIntPlain(FormatUint(n, 10), n);
    }
  }

  /** Unsigned digits below 2^63 read back as themselves. */
  lemma ParseIntPlain(s: string, un: nat)
    requires |s| > 0 && s[0] != '+' && s[0] != '-'
    requires ParseUint(s, 10) == Ok(un) && un < Int64Cutoff
    ensures ParseInt(s) == Ok(un)
  {
  }

  /** A minus sign before digits up to 2^63 reads back as their negation. */
  lemma ParseIntMinus(s: string, un: nat)
    requires ParseUint(s, 10) == Ok(un) && un <= Int64Cutoff
    ensures ParseInt("-" + s) == Ok(-(un as int))
  {
    assert ("-" + s)[1..] == s;
  }

  /** A formatted decimal never contains a line break. */
  lemma FormatIntNoNewline(n: int)
    ensures '\n' !in FormatInt(n)
  {
    var m: nat := if n < 0 then -n else n;
    FormatUintCanonical(m, 10);
    if n < 0 {
      assert FormatInt(n) == "-" + FormatUint(m, 10);
    }
  }
}
