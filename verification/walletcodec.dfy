/** The wallet history line format: six newline-separated fields, coins,
    history type, unix time, account, key and a free-text remark. */
module WalletCodec {
  import opened Wrappers
  import opened Numeral

  /** The index of the first line break of `s`. */
  function NewlineAt(s: string): (r: Option<nat>)
    ensures r.Some? ==> r.value < |s| && s[r.value] == '\n' && '\n' !in s[..r.value]
    ensures r.None? <==> '\n' !in s
    decreases |s|
  {
    if |s| == 0 then None
    else if s[0] == '\n' then Some(0)
    else match NewlineAt(s[1..])
      case None => None
      case Some(k) =>
        assert s[..k + 1] == [s[0]] + s[1..][..k];
        Some(k + 1)
  }

  /** strings.SplitN(s, "\n", n) for n >= 1: at most `n` parts, the last
      one keeping every remaining line break. */
  function SplitN(s: string, n: nat): (r: seq<string>)
    requires n >= 1
    ensures 1 <= |r| <= n
    decreases n
  {
    if n == 1 then [s]
    else match NewlineAt(s)
      case None => [s]
      case Some(i) => [s[..i]] + SplitN(s[i + 1..], n - 1)
  }

  /** A field without a line break followed by one splits off first. */
  lemma SplitHead(a: string, rest: string, n: nat)
    requires n >= 2 && '\n' !in a
    ensures SplitN(a + "\n" + rest, n) == [a] + SplitN(rest, n - 1)
  {
    var s := a + "\n" + rest;
    assert s[|a|] == '\n';
    assert s[..|a|] == a;
    assert s[|a| + 1..] == rest;
    assert s[|a|] in s;
    var i := NewlineAt(s).value;
    assert forall j :: 0 <= j < |a| ==> s[j] == a[j];
  }

  /** The fields a history line carries. `at` is the time in Unix seconds:
      0 stands both for Go's zero time.Time{}, which a failed decoding leaves
      in the item, and for the Unix epoch itself; the model does not tell
      the two apart. */
  datatype HistoryFields = HistoryFields(historyType: int, at: int, coins: int,
                                         account: string, key: string, remark: string)

  const NoFields := HistoryFields(0, 0, 0, "", "", "")

  /** ParseHistoryItem's results: the fields filled in so far and the error,
      if any (a caller that ignores the error sees the partial fields). */
  datatype Parsed = Parsed(fields: HistoryFields, err: Option<Code>)

  /** The two history types: wallet to wallet, and wallet to locker. */
  const HistoryTypeWW := 0
  const HistoryTypeWL := 1

  /** BuildHistoryPayload: type, time, account, key and remark; the caller
      puts the coins line in front. `now` is the clock reading. */
  function BuildHistoryPayload(historyType: int, now: int, me: string, he: string, remark: string): string {
    Join([FormatInt(historyType), FormatInt(now), me, he, remark])
  }

  /** With a single-line account and key, splitting a payload into five
      parts gives its five fields back, the remark keeping its line breaks. */
  lemma PayloadSplits(historyType: int, now: int, me: string, he: string, remark: string)
    requires '\n' !in me && '\n' !in he
    ensures SplitN(BuildHistoryPayload(historyType, now, me, he, remark), 5) ==
            [FormatInt(historyType), FormatInt(now), me, he, remark]
  {
    FormatIntNoNewline(historyType);
    FormatIntNoNewline(now);
    SplitJoin([FormatInt(historyType), FormatInt(now), me, he, remark]);
  }

  /** ParseHistoryItem: exactly six parts are needed; coins, type and time
      are decoded in that order and the first failure stops the decoding. */
  function ParseHistoryItem(s: string): (r: Parsed)
    ensures r.err.None? <==>
      (|SplitN(s, 6)| == 6 && ParseInt(SplitN(s, 6)[0]).Ok? &&
       ParseInt(SplitN(s, 6)[1]).Ok? && ParseInt(SplitN(s, 6)[2]).Ok?)
    ensures |SplitN(s, 6)| != 6 ==> r == Parsed(NoFields, Some(BadData))
    ensures r.err.None? ==> r.fields.remark == SplitN(s, 6)[5] && r.fields.account == SplitN(s, 6)[3]
    ensures r.err.Some? && r.err != Some(BadData) ==> r.err.value in {Syntax, Range}
  {
    var ps := SplitN(s, 6);
    if |ps| != 6 then Parsed(NoFields, Some(BadData))
    else match ParseInt(ps[0])
      case Err(e) => Parsed(NoFields, Some(e))
      case Ok(coins) =>
        match ParseInt(ps[1])
        case Err(e) => Parsed(NoFields.(coins := coins), Some(e))
        case Ok(t) =>
          match ParseInt(ps[2])
          case Err(e) => Parsed(NoFields.(coins := coins, historyType := t), Some(e))
          // time.Unix(at, 0); a failure above leaves `at` at 0, the zero time
          case Ok(at) => Parsed(HistoryFields(t, at, coins, ps[3], ps[4], ps[5]), None)
  }

  /** Round trip: a coins line in front of a built payload parses back to
      the same fields, whatever the remark holds (line breaks included),
      as long as the account and key are single lines. */
  lemma RoundTrip(coins: int, historyType: int, now: int, me: string, he: string, remark: string)
    requires IsInt64(coins) && IsInt64(historyType) && IsInt64(now)
    requires '\n' !in me && '\n' !in he
    ensures ParseHistoryItem(FormatInt(coins) + "\n" + BuildHistoryPayload(historyType, now, me, he, remark)) ==
            Parsed(HistoryFields(historyType, now, coins, me, he, remark), None)
  {
    FormatIntNoNewline(coins);
    ParseFormatInt(coins);
    RoundTripText(FormatInt(coins), coins, historyType, now, me, he, remark);
  }

  /** The same for any single-line coins text that reads as `coins`. */
  lemma RoundTripText(text: string, coins: int, historyType: int, now: int, me: string, he: string, remark: string)
    requires ParseInt(text) == Ok(coins) && '\n' !in text
    requires IsInt64(historyType) && IsInt64(now)
    requires '\n' !in me && '\n' !in he
    ensures ParseHistoryItem(text + "\n" + BuildHistoryPayload(historyType, now, me, he, remark)) ==
            Parsed(HistoryFields(historyType, now, coins, me, he, remark), None)
  {
    FormatIntNoNewline(historyType);
    FormatIntNoNewline(now);
    var fs := [text, FormatInt(historyType), FormatInt(now), me, he, remark];
    assert fs[1..] == [FormatInt(historyType), FormatInt(now), me, he, remark];
    assert Join(fs) == text + "\n" + BuildHistoryPayload(historyType, now, me, he, remark);
    SplitJoin(fs);
    ParseFormatInt(historyType);
    ParseFormatInt(now);
  }

  /** The fields joined with line breaks. */
  function Join(fs: seq<string>): string
    requires |fs| >= 1
    decreases |fs|
  {
    if |fs| == 1 then fs[0] else fs[0] + "\n" + Join(fs[1..])
  }

  /** Splitting a join of single-line fields (the last one may hold line
      breaks) into as many parts gives the fields back. */
  lemma {:induction false} SplitJoin(fs: seq<string>)
    requires |fs| >= 1
    requires forall i :: 0 <= i < |fs| - 1 ==> '\n' !in fs[i]
    ensures SplitN(Join(fs), |fs|) == fs
    decreases |fs|
  {
    if |fs| > 1 {
      SplitHead(fs[0], Join(fs[1..]), |fs|);
      SplitJoin(fs[1..]);
      assert fs == [fs[0]] + fs[1..];
    }
  }

  /** The number of line breaks in `s`. */
  function Newlines(s: string): nat {
    if |s| == 0 then 0 else Newlines(s[..|s| - 1]) + (if s[|s| - 1] == '\n' then 1 else 0)
  }

  lemma {:induction false} NewlinesConcat(a: string, b: string)
    ensures Newlines(a + b) == Newlines(a) + Newlines(b)
    decreases |b|
  {
    if |b| == 0 {
      assert a + b == a;
    } else {
      assert (a + b)[..|a + b| - 1] == a + b[..|b| - 1];
      NewlinesConcat(a, b[..|b| - 1]);
    }
  }

  lemma {:induction false} NoNewlines(s: string)
    requires '\n' !in s
    ensures Newlines(s) == 0
    decreases |s|
  {
    if |s| > 0 {
      assert s[..|s| - 1] <= s;
      NoNewlines(s[..|s| - 1]);
    }
  }

  /** A line splits into all `n` parts exactly when it has at least n - 1
      line breaks; so fewer than five breaks is BadData. */
  lemma {:induction false} SplitCount(s: string, n: nat)
    requires n >= 1
    ensures |SplitN(s, n)| == n <==> Newlines(s) >= n - 1
    decreases n
  {
    if n > 1 {
      match NewlineAt(s)
      case None =>
        SplitNoBreak(s, n);
        NoNewlines(s);
      case Some(i) =>
        SplitAtFirst(s, n, i);
        SplitCount(s[i + 1..], n - 1);
        NewlinesAfterFirst(s, i);
    }
  }

  lemma SplitNoBreak(s: string, n: nat)
    requires n >= 1 && NewlineAt(s).None?
    ensures |SplitN(s, n)| == 1
  {
  }

  lemma SplitAtFirst(s: string, n: nat, i: nat)
    requires n > 1 && NewlineAt(s) == Some(i)
    ensures |SplitN(s, n)| == 1 + |SplitN(s[i + 1..], n - 1)|
  {
  }

  /** The first line break counts one, and the rest lie after it. */
  lemma NewlinesAfterFirst(s: string, i: nat)
    requires NewlineAt(s) == Some(i)
    ensures Newlines(s) == 1 + Newlines(s[i + 1..])
  {
    assert s == s[..i] + ([s[i]] + s[i + 1..]);
    NewlinesConcat(s[..i], [s[i]] + s[i + 1..]);
    NewlinesConcat([s[i]], s[i + 1..]);
    NoNewlines(s[..i]);
    assert Newlines([s[i]]) == 1 by {
      assert [s[i]][..0] == [];
    }
  }

  lemma TooFewFields(s: string)
    requires Newlines(s) < 5
    ensures ParseHistoryItem(s) == Parsed(NoFields, Some(BadData))
  {
    SplitCount(s, 6);
  }
}
