/** How Lua 5.1 turns a number into text. The `..` operator and tostring
    format a lua_Number with LUAI_NUMFFORMAT, "%.14g": a number of at most
    fourteen digits prints as its decimal, a larger one as fourteen
    significant digits, rounded half to even, with trailing zeros dropped
    and an exponent "e+NN". The wallet scripts concatenate amounts they
    read with tonumber, so their history lines carry this text. The
    numbers here are the integers the scripts hold; rounding by the double
    itself, beyond 2^53, is not part of this model. */
module LuaText {
  import opened Wrappers
  import opened Numeral

  /** 10^14: the first number with fifteen digits. */
  const Wide: nat := 100000000000000

  function Pow10(k: nat): (r: nat)
    ensures r >= 1
  {
    if k == 0 then 1 else 10 * Pow10(k - 1)
  }

  lemma {:induction false} Pow10Grows(a: nat, b: nat)
    requires a <= b
    ensures Pow10(a) <= Pow10(b)
    decreases b
  {
    if a < b {
      Pow10Grows(a, b - 1);
    }
  }

  /** The decimal exponent of n: floor(log10 n), 0 below ten. */
  function Exp10(n: nat): nat {
    if n < 10 then 0 else 1 + Exp10(n / 10)
  }

  /** Exp10 picks the power of ten n lies in. */
  lemma {:induction false} Exp10Bounds(n: nat)
    requires n >= 1
    ensures Pow10(Exp10(n)) <= n < Pow10(Exp10(n) + 1)
    decreases n
  {
    if n >= 10 {
      var q := n / 10;
      Exp10Bounds(q);
      var p := Pow10(Exp10(q));
      assert 10 * q <= n < 10 * q + 10;
      assert Pow10(Exp10(n)) == 10 * p;
      assert Pow10(Exp10(n) + 1) == 10 * Pow10(Exp10(q) + 1);
    }
  }

  /** A number of fifteen digits or more has an exponent of at least 14. */
  lemma WideExponent(n: nat)
    requires n >= Wide
    ensures Exp10(n) >= 14
  {
    assert Pow10(14) == Wide;
    Exp10Bounds(n);
    if Exp10(n) < 14 {
      Pow10Grows(Exp10(n) + 1, 14);
    }
  }

  /** The text without its trailing '0's. */
  function TrimZeros(s: string): (r: string)
    ensures |r| <= |s| && r == s[..|r|]
    ensures |r| > 0 ==> r[|r| - 1] != '0'
    ensures forall i :: |r| <= i < |s| ==> s[i] == '0'
  {
    if |s| > 0 && s[|s| - 1] == '0' then TrimZeros(s[..|s| - 1]) else s
  }

  /** `n` without its `k` lowest decimal digits. */
  function DropDigits(n: nat, k: nat): nat
    decreases k
  {
    if k == 0 then n else DropDigits(n / 10, k - 1)
  }

  /** Whether any of the `k` lowest decimal digits of `n` is not zero. */
  predicate AnyDigit(n: nat, k: nat)
    decreases k
  {
    k > 0 && (n % 10 != 0 || AnyDigit(n / 10, k - 1))
  }

  /** `n` without its `k` lowest digits, rounded half to even: up when the
      first dropped digit is above 5, or is 5 and either a later dropped
      digit is not zero or the kept part is odd. */
  function RoundedCut(n: nat, k: nat): nat
    requires k >= 1
  {
    var q := DropDigits(n, k);
    var first := DropDigits(n, k - 1) % 10;
    var up := first > 5 || (first == 5 && (AnyDigit(n, k - 1) || q % 2 == 1));
    if up then q + 1 else q
  }

  /** The significant digits and exponent %.14g prints for a number of at
      least fifteen digits: `n` cut to its fourteen leading digits, the
      dropped part rounding half to even; a round-up that reaches 10^14
      moves to the next exponent. */
  function Significand(n: nat): (r: (nat, nat))
    requires n >= Wide
    ensures r.1 >= 14
  {
    WideExponent(n);
    var e := Exp10(n);
    var q1 := RoundedCut(n, e - 13);
    if q1 == Wide then (Wide / 10, e + 1) else (q1, e)
  }

  /** The exponent form: the first digit, the point and the remaining
      digits without trailing zeros, then "e+" and the exponent. */
  function ExpForm(m: nat, x: nat): (s: string)
    ensures |s| >= 3 && '0' <= s[0] <= '9' && (s[1] == '.' || s[1] == 'e')
    ensures 'e' in s[1..] && '\n' !in s
  {
    var ds := FormatUint(m, 10);
    var frac := TrimZeros(ds[1..]);
    DecimalDigits(m);
    DecimalDigits(x);
    var head := [ds[0]] + (if frac == "" then "" else "." + frac);
    assert '\n' !in head by {
      forall i | 1 <= i < |head| ensures head[i] != '\n' {
        if i >= 2 { assert head[i] == ds[i - 1]; }
      }
    }
    var s := head + "e+" + FormatUint(x, 10);
    assert s[1..][|head| - 1] == 'e';
    assert forall i :: 0 <= i < |s| - |head| - 2 ==> s[|head| + 2 + i] == FormatUint(x, 10)[i];
    s
  }

  /** Beyond fourteen digits the text is the exponent form. */
  function Scientific(n: nat): (s: string)
    requires n >= Wide
    ensures |s| >= 3 && '0' <= s[0] <= '9' && (s[1] == '.' || s[1] == 'e')
    ensures 'e' in s[1..] && '\n' !in s
  {
    ExpForm(Significand(n).0, Significand(n).1)
  }

  /** Whether a number prints as its plain decimal. */
  predicate Plain(x: int) {
    -(Wide as int) < x < Wide
  }

  /** tostring of a Lua number holding the integer `x`. */
  function LuaNumber(x: int): (s: string)
    ensures Plain(x) <==> s == FormatInt(x)
    ensures |s| >= 1 && (x < 0 <==> s[0] == '-')
  {
    var n: nat := if x < 0 then -x else x;
    if n < Wide then FormatInt(x)
    else
      var sc := Scientific(n);
      var s := (if x < 0 then "-" else "") + sc;
      assert 'e' in s[1..] by {
        var j :| 0 <= j < |sc[1..]| && sc[1..][j] == 'e';
        if x < 0 { assert s[1..][1 + j] == 'e'; } else { assert s[1..][j] == 'e'; }
      }
      NotDecimal(s, x);
      s
  }

  /** Text holding an 'e' after its first character is no decimal. */
  lemma NotDecimal(s: string, x: int)
    requires |s| >= 1 && 'e' in s[1..]
    ensures s != FormatInt(x)
  {
    var m: nat := if x < 0 then -x else x;
    DecimalDigits(m);
    var j :| 0 <= j < |s[1..]| && s[1..][j] == 'e';
    var t := FormatInt(x);
    if 1 + j < |t| {
      if x < 0 {
        assert t[1 + j] == FormatUint(m, 10)[j];
      } else {
        assert t[1 + j] == FormatUint(m, 10)[1 + j];
      }
      assert s[1 + j] != t[1 + j];
    }
  }

  /** The text of -x when x came from tonumber: negating zero gives the
      double -0, which prints as "-0". */
  function LuaNegated(x: int): (s: string)
    ensures x != 0 ==> s == LuaNumber(-x)
  {
    if x == 0 then "-0" else LuaNumber(-x)
  }

  /** Neither rendering ever holds a line break. */
  lemma LuaNumberNoNewline(x: int)
    ensures '\n' !in LuaNumber(x)
    ensures '\n' !in LuaNegated(x)
  {
    FormatIntNoNewline(x);
    FormatIntNoNewline(-x);
  }

  /** Below 10^14 in magnitude the text reads back as the number, -0
      included. */
  lemma LuaNumberReads(x: int)
    requires Plain(x)
    ensures ParseInt(LuaNumber(x)) == Ok(x)
    ensures ParseInt(LuaNegated(x)) == Ok(-x)
  {
    ParseFormatInt(x);
    ParseFormatInt(-x);
    if x == 0 {
      assert LuaNegated(x)[1..] == "0";
      assert ParseDigits("0", 10, MaxUint64) == Ok(0) by {
        assert "0"[..0] == [];
      }
    }
  }

  /** From 10^14 on the exponent's 'e' makes strconv.ParseInt refuse the
      text with a syntax error. */
  lemma LuaNumberUnreadable(x: int)
    requires !Plain(x)
    ensures ParseInt(LuaNumber(x)) == Err(Syntax)
  {
    var n: nat := if x < 0 then -x else x;
    var sc := Scientific(n);
    var sign := if x < 0 then "-" else "";
    assert LuaNumber(x) == sign + sc;
    SignedUnreadable(sign, sc);
  }

  /** The negated amount of a number too wide for plain printing does not
      read back either, and holds no line break. */
  lemma LuaNegatedUnreadable(x: int)
    requires !Plain(x)
    ensures ParseInt(LuaNegated(x)) == Err(Syntax) && '\n' !in LuaNegated(x)
  {
    assert x != 0 && !Plain(-x);
    LuaNumberUnreadable(-x);
    LuaNumberNoNewline(x);
  }

  /** The negated amount of a plainly printed number reads back as its
      negation, and holds no line break. */
  lemma LuaNegatedReads(x: int)
    requires Plain(x)
    ensures ParseInt(LuaNegated(x)) == Ok(-x) && '\n' !in LuaNegated(x)
  {
    LuaNumberReads(x);
    LuaNumberNoNewline(x);
  }

  /** An optional minus sign in front of an exponent form is a syntax
      error for strconv.ParseInt. */
  lemma SignedUnreadable(sign: string, t: string)
    requires sign == "" || sign == "-"
    requires |t| >= 2 && '0' <= t[0] <= '9' && (t[1] == '.' || t[1] == 'e')
    ensures ParseInt(sign + t) == Err(Syntax)
  {
    ExpFormUnreadable(t);
    var s := sign + t;
    if sign == "-" {
      assert s[0] == '-' && s[1..] == t;
    } else {
      assert s == t;
    }
  }

  /** A digit followed by '.' or 'e' is a syntax error for ParseUint. */
  lemma ExpFormUnreadable(t: string)
    requires |t| >= 2 && '0' <= t[0] <= '9' && (t[1] == '.' || t[1] == 'e')
    ensures ParseUint(t, 10) == Err(Syntax)
  {
    assert t[..2][..1] == t[..1] && t[..1][..0] == [];
    assert ParseDigits(t[..1], 10, MaxUint64).Ok?;
    ParseDigitsPrefixErr(t, 10, MaxUint64, 2);
  }
}
