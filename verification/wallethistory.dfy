/** A wallet account's history list: paging through it newest-first or
    oldest-first, and draining it into an external code storage. The list
    is a redis list the scripts push onto at the head, so index 0 is the
    newest line and the tail holds the oldest. */
module WalletHistory {
  import opened Wrappers
  import opened WalletCodec

  // ---------------------------------------------------------------- redis list index rules

  /** The elements LRANGE start stop reads, which are also the elements
      LTRIM start stop keeps: negative indices count from the tail, a start
      before the head is clamped to 0, a stop past the tail to the last
      element, and an empty or inverted range selects nothing. */
  function Window<T>(s: seq<T>, start: int, stop: int): (r: seq<T>)
    ensures |r| <= |s|
  {
    var a0 := if start < 0 then |s| + start else start;
    var b := if stop < 0 then |s| + stop else stop;
    var a := if a0 < 0 then 0 else a0;
    if a > b || a >= |s| then []
    else s[a..if b >= |s| then |s| else b + 1]
  }

  function Min(a: int, b: int): int { if a <= b then a else b }
  function Max(a: int, b: int): int { if a >= b then a else b }

  /** Counting from the head: `count` elements from position `offset`,
      cut short at the tail. */
  lemma WindowHead<T>(s: seq<T>, offset: int, count: int)
    requires offset >= 0 && count >= 1
    ensures Window(s, offset, offset + count - 1) == s[Min(offset, |s|)..Min(offset + count, |s|)]
  {
  }

  /** Counting from the tail: the `count` elements that end `offset`
      elements before the tail, cut short at the head. */
  lemma WindowTail<T>(s: seq<T>, offset: int, count: int)
    requires offset >= 0 && count >= 1
    ensures Window(s, -offset - count, -offset - 1) == s[Max(0, |s| - offset - count)..Max(0, |s| - offset)]
  {
  }

  /** LTRIM 0 (-k-1) drops exactly the last `k` elements. */
  lemma TrimTail<T>(s: seq<T>, k: int)
    requires 0 <= k <= |s|
    ensures Window(s, 0, -k - 1) == s[..|s| - k]
  {
  }

  // ---------------------------------------------------------------- reading pages

  /** What a page reports per line: coins, time and remark, taken from the
      parse whatever its error (a malformed line reads as zeros). */
  datatype HistoryItem = HistoryItem(coins: int, at: int, remark: string)

  function ItemOf(line: string): HistoryItem {
    var f := ParseHistoryItem(line).fields;
    HistoryItem(f.coins, f.at, f.remark)
  }

  function Items(lines: seq<string>): (r: seq<HistoryItem>)
    ensures |r| == |lines|
  {
    seq(|lines|, i requires 0 <= i < |lines| => ItemOf(lines[i]))
  }

  /** A count of zero means "up to 10000". */
  const DefaultCount := 10000

  function EffectiveCount(count: int): int {
    if count == 0 then DefaultCount else count
  }

  /** GetItems: positions offset .. offset+count-1 from the head, newest first. */
  function GetItems(list: seq<string>, offset: int, count: int): (r: seq<HistoryItem>)
    ensures offset >= 0 && count >= 0 ==>
      r == Items(list[Min(offset, |list|)..Min(offset + EffectiveCount(count), |list|)])
  {
    var c := EffectiveCount(count);
    assert offset >= 0 && count >= 0 ==>
      Window(list, offset, offset + c - 1) == list[Min(offset, |list|)..Min(offset + c, |list|)] by {
      if offset >= 0 && count >= 0 {
        WindowHead(list, offset, c);
      }
    }
    Items(Window(list, offset, offset + EffectiveCount(count) - 1))
  }

  /** A page of one line shows that line's item. */
  lemma GetItemsOne(line: string)
    ensures GetItems([line], 0, 0) == [ItemOf(line)]
  {
    assert [line][0..1] == [line];
  }

  /** A line in the documented layout, the coins' decimal in front of a
      built payload, reads back as its coins, time and remark. */
  lemma GetItemsReadsEntries(coins: int, historyType: int, now: int, me: string, he: string, remark: string)
    requires Numeral.IsInt64(coins) && Numeral.IsInt64(historyType) && Numeral.IsInt64(now)
    requires '\n' !in me && '\n' !in he
    ensures var line := Numeral.FormatInt(coins) + "\n" + BuildHistoryPayload(historyType, now, me, he, remark);
      GetItems([line], 0, 0) == [HistoryItem(coins, now, remark)]
  {
    RoundTrip(coins, historyType, now, me, he, remark);
  }

  /** The list reversed. */
  function Reverse<T>(s: seq<T>): (r: seq<T>)
    ensures |r| == |s|
    ensures forall i :: 0 <= i < |s| ==> r[i] == s[|s| - 1 - i]
  {
    seq(|s|, i requires 0 <= i < |s| => s[|s| - 1 - i])
  }

  /** What the source's reversal loop leaves: only the first and last
      elements change places. */
  function SwapEnds<T>(s: seq<T>): (r: seq<T>)
    ensures |r| == |s|
  {
    if |s| < 2 then s else [s[|s| - 1]] + s[1..|s| - 1] + [s[0]]
  }

  /** Whether position `j` has been exchanged an odd number of times once
      the loop index reaches `idxB`. */
  predicate Swapped(j: int, idxB: int, n: int) {
    (j < idxB) != (n - 1 - j < idxB)
  }

  /** The reversal loop as written: every index but the last swaps with its
      mirror, so each inner pair is swapped twice and ends where it began. */
  method ReverseLoopAsWritten<T>(items: seq<T>) returns (r: seq<T>)
    ensures r == SwapEnds(items)
  {
    r := items;
    var n: int := |items|;
    var idxB := 0;
    while idxB < n - 1
      invariant 0 <= idxB <= Max(0, n - 1)
      invariant |r| == n
      invariant forall j :: 0 <= j < n ==> r[j] == items[if Swapped(j, idxB, n) then n - 1 - j else j]
    {
      var k := n - 1 - idxB;
      ghost var r0 := r;
      var t := r[idxB];
      r := r[idxB := r[k]][k := t];
      forall j | 0 <= j < n
        ensures r[j] == items[if Swapped(j, idxB + 1, n) then n - 1 - j else j]
      {
        if j == k {
          assert r[j] == r0[idxB];
        } else if j == idxB {
          assert r[j] == r0[k];
        } else {
          assert r[j] == r0[j];
        }
      }
      idxB := idxB + 1;
    }
    if n >= 2 {
      var e := SwapEnds(items);
      forall j | 0 <= j < n
        ensures r[j] == e[j]
      {
        if 0 < j < n - 1 {
          assert e[j] == items[1..n - 1][j - 1];
        }
      }
    }
  }
  /** The intended reversal: the loop stops at the middle. */
  method ReverseLoop<T>(items: seq<T>) returns (r: seq<T>)
    ensures r == Reverse(items)
  {
    r := items;
    var n := |items|;
    var idxB := 0;
    while idxB < n - 1 - idxB
      invariant 0 <= idxB <= n - idxB
      invariant |r| == n
      invariant forall j :: 0 <= j < n ==> r[j] == items[Mirror(j, idxB, n)]
    {
      var k := n - 1 - idxB;
      ghost var r0 := r;
      var t := r[idxB];
      r := r[idxB := r[k]][k := t];
      forall j | 0 <= j < n
        ensures r[j] == items[Mirror(j, idxB + 1, n)]
      {
        if j == k {
          assert r[j] == r0[idxB];
        } else if j == idxB {
          assert r[j] == r0[k];
        } else {
          assert r[j] == r0[j];
        }
      }
      idxB := idxB + 1;
    }
    forall j | 0 <= j < n
      ensures r[j] == Reverse(items)[j]
    {
      assert Mirror(j, idxB, n) == n - 1 - j;
    }
  }

  /** Where position `j` reads from once the intended loop has handled the
      outer `idxB` pairs. */
  function Mirror(j: int, idxB: int, n: int): int {
    if j < idxB || n - 1 - j < idxB then n - 1 - j else j
  }

  /** Up to three elements, swapping the ends is a full reversal. */
  lemma SwapEndsShort<T>(s: seq<T>)
    requires |s| <= 3
    ensures SwapEnds(s) == Reverse(s)
  {
    var e, v := SwapEnds(s), Reverse(s);
    assert forall i :: 0 <= i < |s| ==> e[i] == v[i];
  }

  /** The window both ascending reads take, for offsets and counts Go
      callers pass. */
  lemma TailWindow(list: seq<string>, offset: int, count: int)
    ensures offset >= 0 && count >= 0 ==>
      Window(list, -offset - EffectiveCount(count), -offset - 1) ==
        list[Max(0, |list| - offset - EffectiveCount(count))..Max(0, |list| - offset)]
  {
    if offset >= 0 && count >= 0 {
      WindowTail(list, offset, EffectiveCount(count));
    }
  }

  /** GetItemsASC as written: the window that ends `offset` lines before
      the tail, with only its end lines exchanged. */
  function GetItemsASCAsWritten(list: seq<string>, offset: int, count: int): (r: seq<HistoryItem>)
    ensures offset >= 0 && count >= 0 ==>
      r == SwapEnds(Items(list[Max(0, |list| - offset - EffectiveCount(count))..Max(0, |list| - offset)]))
  {
    TailWindow(list, offset, count);
    SwapEnds(Items(Window(list, -offset - EffectiveCount(count), -offset - 1)))
  }

  /** GetItemsASC: the same window, oldest first. */
  function GetItemsASC(list: seq<string>, offset: int, count: int): (r: seq<HistoryItem>)
    ensures offset >= 0 && count >= 0 ==>
      r == Reverse(Items(list[Max(0, |list| - offset - EffectiveCount(count))..Max(0, |list| - offset)]))
  {
    TailWindow(list, offset, count);
    Reverse(Items(Window(list, -offset - EffectiveCount(count), -offset - 1)))
  }

  /** Four history lines read oldest-first: the as-written order keeps the
      two inner lines newest-first. */
  lemma AscendingOrderBroken(a: string, b: string, c: string, d: string)
    requires ItemOf(b) != ItemOf(c)
    ensures GetItemsASCAsWritten([a, b, c, d], 0, 0) != GetItemsASC([a, b, c, d], 0, 0)
  {
    var list := [a, b, c, d];
    assert list[0..4] == list;
    var its := Items(list);
    assert its[1] == ItemOf(b) && its[2] == ItemOf(c);
    InnerPairStays(its);
  }

  /** With four or more elements and distinct inner neighbours, swapping
      the ends is not a reversal. */
  lemma InnerPairStays<T>(s: seq<T>)
    requires |s| >= 4 && s[1] != s[|s| - 2]
    ensures SwapEnds(s) != Reverse(s)
  {
    assert SwapEnds(s)[1] == s[1];
    assert Reverse(s)[1] == s[|s| - 2];
  }

  // ---------------------------------------------------------------- draining to code storage

  /** Lines are read from the tail a thousand at a time. */
  const Page := 1000

  /** A storage's answers to successive Store calls: None is success; calls
      past the end of the sequence succeed. */
  type Replies = seq<Option<Code>>

  /** Storing one page from its last (oldest) line backwards: the number
      of lines stored before the first failing call, that failure, and the
      answers not yet used. */
  datatype PageRun = PageRun(k: nat, err: Option<Code>, rest: Replies)

  function StorePage(r: seq<string>, replies: Replies): (p: PageRun)
    ensures p.k <= |r|
    ensures p.err.None? <==> p.k == |r|
    ensures p.err.Some? ==> p.k < |replies| && replies[p.k] == p.err
    decreases |r|
  {
    if |r| == 0 then PageRun(0, None, replies)
    else
      var reply := if |replies| == 0 then None else replies[0];
      var rest := if |replies| == 0 then [] else replies[1..];
      if reply.Some? then PageRun(0, reply, rest)
      else
        var p := StorePage(r[..|r| - 1], rest);
        PageRun(p.k + 1, p.err, p.rest)
  }

  /** The page stops at the first refusal: every answer before it was a
      success. */
  lemma {:induction false} StorePageReplies(r: seq<string>, replies: Replies)
    ensures var p := StorePage(r, replies);
      (p.err.None? ==> forall i :: 0 <= i < Min(|r|, |replies|) ==> replies[i].None?) &&
      (p.err.Some? ==> forall i :: 0 <= i < p.k ==> replies[i].None?)
    decreases |r|
  {
    if |r| > 0 && |replies| > 0 && replies[0].None? {
      StorePageReplies(r[..|r| - 1], replies[1..]);
    }
  }

  /** The result of a drain: the list left behind, the lines the storage
      accepted in call order (each call also carries the time the line's
      parse yields), and the error returned. */
  datatype Drained = Drained(remaining: seq<string>, stored: seq<string>, err: Option<Code>)

  /** Where the redis connection fails during a drain: never, on the
      LRANGE of a given round, or on the LTRIM of a given round (rounds
      count from 0). A failed call changes nothing and answers Io. */
  datatype ListFault = ListOk | RangeFails(round: nat) | TrimFails(round: nat)

  /** Whether the fault strikes in the current round. */
  predicate Fires(fault: ListFault) {
    !fault.ListOk? && fault.round == 0
  }

  /** The same fault seen from the next round. */
  function Later(fault: ListFault): (f: ListFault)
    requires !Fires(fault)
    ensures f.ListOk? == fault.ListOk? && f.TrimFails? == fault.TrimFails?
  {
    if fault.ListOk? then ListOk else fault.(round := fault.round - 1)
  }

  /** One round's reads: the page LRANGE -1000 -1 returns, how storing it
      went, the stored lines in call order, and what LTRIM 0 (-k-1) keeps. */
  datatype Round = Round(page: seq<string>, run: PageRun, here: seq<string>, kept: seq<string>)

  /** The round over `list`: the page is the list's last thousand lines,
      the stored lines are the page's last `k` newest-last, and the trim
      keeps everything before them. */
  function RoundOf(list: seq<string>, replies: Replies): (o: Round)
    ensures o.page == list[Max(0, |list| - Page)..]
    ensures o.run == StorePage(o.page, replies) && o.run.k <= |list|
    ensures o.here == Reverse(list[|list| - o.run.k..])
    ensures o.kept == list[..|list| - o.run.k]
  {
    var r := Window(list, -Page, -1);
    var p := StorePage(r, replies);
    assert r == list[Max(0, |list| - Page)..] by {
      WindowTail(list, 0, Page);
    }
    assert r[|r| - p.k..] == list[|list| - p.k..] by {
      PageSuffix(list, p.k);
    }
    assert Window(list, 0, -(p.k as int) - 1) == list[..|list| - p.k] by {
      TrimTail(list, p.k);
    }
    Round(r, p, Reverse(r[|r| - p.k..]), Window(list, 0, -(p.k as int) - 1))
  }

  /** The error a round reports when its page met a refusal: a stop request
      is no error. */
  function Refusal(err: Option<Code>): Option<Code> {
    if err == Some(Stop) then None else err
  }

  /** The page loop: read the tail page, store it oldest first until a
      call fails, trim exactly the stored lines, and go on while nothing
      failed; a stop request ends the loop without an error. A failed
      LRANGE ends it with that error; a failed LTRIM leaves the page in the
      list and is reported unless a store call already failed. */
  function Drain(list: seq<string>, replies: Replies, fault: ListFault): (d: Drained)
    ensures d.err != Some(Stop)
    ensures fault == RangeFails(0) ==> d == Drained(list, [], Some(Io))
    decreases |list|, 0
  {
    if fault == RangeFails(0) then Drained(list, [], Some(Io))
    else
      var o := RoundOf(list, replies);
      if |o.page| == 0 then Drained(list, [], None)
      else if fault == TrimFails(0) then
        Drained(list, o.here, if o.run.err.Some? then Refusal(o.run.err) else Some(Io))
      else if o.run.err.Some? then Drained(o.kept, o.here, Refusal(o.run.err))
      else Resume(o.kept, o.run.rest, Later(fault), o.here)
  }

  /** The drain of the rest of the list after a page whose lines `here`
      were stored and trimmed. */
  function Resume(kept: seq<string>, replies: Replies, fault: ListFault, here: seq<string>): (d: Drained)
    ensures d.err != Some(Stop)
    decreases |kept|, 1
  {
    var d := Drain(kept, replies, fault);
    Drained(d.remaining, here + d.stored, d.err)
  }

  /** Trans2CodeStorage: no storage is a failure that reads nothing. */
  function Trans2CodeStorage(list: seq<string>, storage: Option<Replies>, fault: ListFault): (d: Drained)
    ensures storage.None? ==> d == Drained(list, [], Some(Failed))
    ensures d.err != Some(Stop)
    ensures storage.Some? ==> Kept(list, d)
    ensures storage.Some? && !fault.TrimFails? ==> Shaped(list, d)
  {
    match storage
    case None => Drained(list, [], Some(Failed))
    case Some(replies) =>
      DrainShape(list, replies, fault);
      Drain(list, replies, fault)
  }

  /** The last `k` lines reversed, then `m` more before them reversed, are
      the first `k + m` lines of the reversed list. */
  lemma ReverseSplit<T>(s: seq<T>, k: nat, m: nat)
    requires k + m <= |s|
    ensures Reverse(s[|s| - k..]) + Reverse(s[..|s| - k])[..m] == Reverse(s)[..k + m]
  {
    var t1 := s[|s| - k..];
    var t2 := s[..|s| - k];
    assert s == t2 + t1;
    ReverseAppend(t2, t1);
    var a := Reverse(t1);
    var r2 := Reverse(t2);
    assert |a| == k;
    assert (a + r2)[..k + m] == a + r2[..m];
  }

  /** Reversal turns a concatenation around. */
  lemma ReverseAppend<T>(x: seq<T>, y: seq<T>)
    ensures Reverse(x + y) == Reverse(y) + Reverse(x)
  {
    var l := Reverse(x + y);
    var r := Reverse(y) + Reverse(x);
    assert |l| == |r|;
    forall i | 0 <= i < |l|
      ensures l[i] == r[i]
    {
      if i < |y| {
        assert r[i] == Reverse(y)[i];
      } else {
        assert r[i] == Reverse(x)[i - |y|];
      }
    }
  }

  /** The page read from the tail: its last `k` lines are the list's last `k`. */
  lemma PageSuffix(list: seq<string>, k: nat)
    requires k <= |Window(list, -Page, -1)|
    ensures var r := Window(list, -Page, -1);
      |r| == Min(|list|, Page) && r[|r| - k..] == list[|list| - k..]
  {
    WindowTail(list, 0, Page);
    var lo := Max(0, |list| - Page);
    var r := Window(list, -Page, -1);
    assert r == list[lo..];
    assert |r| == |list| - lo;
    assert r[|r| - k..] == list[lo..][|r| - k..];
  }

  /** One page of the drain, in terms of the list itself: the last `k`
      lines are handed over newest-last and trimmed off. */
  lemma DrainPage(list: seq<string>, replies: Replies, fault: ListFault)
    requires |Window(list, -Page, -1)| > 0 && !Fires(fault)
    ensures var p := StorePage(Window(list, -Page, -1), replies);
      var d := Drain(list, replies, fault);
      p.k <= |list| &&
      (p.err.Some? ==> d.remaining == list[..|list| - p.k] && d.stored == Reverse(list[|list| - p.k..])) &&
      (p.err.None? ==>
        var d' := Drain(list[..|list| - p.k], p.rest, Later(fault));
        d.remaining == d'.remaining && d.stored == Reverse(list[|list| - p.k..]) + d'.stored)
  {
    var o := RoundOf(list, replies);
    assert Window(list, -Page, -1) == o.page by {
      WindowTail(list, 0, Page);
    }
    if o.run.err.Some? {
      RoundStops(list, replies, fault);
    } else {
      RoundGoesOn(list, replies, fault);
    }
  }

  /** A round whose page met a refusal ends the drain after trimming the
      stored lines. */
  lemma RoundStops(list: seq<string>, replies: Replies, fault: ListFault)
    requires |RoundOf(list, replies).page| > 0 && !Fires(fault)
    requires RoundOf(list, replies).run.err.Some?
    ensures var o := RoundOf(list, replies);
      Drain(list, replies, fault) == Drained(o.kept, o.here, Refusal(o.run.err))
  {
  }

  /** A round whose page stored fully goes on from the list without it. */
  lemma RoundGoesOn(list: seq<string>, replies: Replies, fault: ListFault)
    requires |RoundOf(list, replies).page| > 0 && !Fires(fault)
    requires RoundOf(list, replies).run.err.None?
    ensures var o := RoundOf(list, replies);
      var d' := Drain(o.kept, o.run.rest, Later(fault));
      Drain(list, replies, fault) == Drained(d'.remaining, o.here + d'.stored, d'.err)
  {
    var o := RoundOf(list, replies);
    assert Drain(list, replies, fault) == Resume(o.kept, o.run.rest, Later(fault), o.here);
  }

  /** The round in which the LTRIM fails: the page's stored lines stay in
      the list. */
  lemma TrimFailsUnfold(list: seq<string>, replies: Replies)
    requires |Window(list, -Page, -1)| > 0
    ensures var p := StorePage(Window(list, -Page, -1), replies);
      var d := Drain(list, replies, TrimFails(0));
      p.k <= |list| && d.remaining == list && d.stored == Reverse(list[|list| - p.k..]) &&
      d.err == (if p.err == Some(Stop) then None else if p.err.Some? then p.err else Some(Io))
  {
    var o := RoundOf(list, replies);
    assert o.page == Window(list, -Page, -1) by {
      WindowTail(list, 0, Page);
    }
    TrimFailsRound(list, replies);
    assert Drain(list, replies, TrimFails(0)) ==
      Drained(list, o.here, if o.run.err.Some? then Refusal(o.run.err) else Some(Io));
  }

  /** The failing-LTRIM round in terms of the round's reads. */
  lemma TrimFailsRound(list: seq<string>, replies: Replies)
    requires |RoundOf(list, replies).page| > 0
    ensures var o := RoundOf(list, replies);
      Drain(list, replies, TrimFails(0)) ==
        Drained(list, o.here, if o.run.err.Some? then Refusal(o.run.err) else Some(Io))
  {
  }

  /** Whatever the storage answers and wherever the connection fails, the
      storage receives the oldest lines in order, oldest first, and the
      list keeps at least every line not stored. Without a failed LTRIM,
      exactly the stored lines leave the list. */
  lemma {:induction false} DrainShape(list: seq<string>, replies: Replies, fault: ListFault)
    ensures Kept(list, Drain(list, replies, fault))
    ensures !fault.TrimFails? ==> Shaped(list, Drain(list, replies, fault))
    decreases |list|
  {
    var o := RoundOf(list, replies);
    assert Window(list, -Page, -1) == o.page by {
      WindowTail(list, 0, Page);
    }
    if fault == RangeFails(0) || |o.page| == 0 {
      ShapeOnEmpty(list, replies, fault);
    } else if fault == TrimFails(0) {
      ShapeOnTrimFailure(list, replies);
    } else {
      var p := o.run;
      if p.err.Some? {
        ShapeOnError(list, replies, fault);
      } else {
        DrainShape(o.kept, p.rest, Later(fault));
        ShapeOnSuccess(list, replies, fault);
      }
    }
  }

  lemma ShapeOnEmpty(list: seq<string>, replies: Replies, fault: ListFault)
    requires fault == RangeFails(0) || |Window(list, -Page, -1)| == 0
    ensures Kept(list, Drain(list, replies, fault)) && Shaped(list, Drain(list, replies, fault))
  {
    assert Reverse(list)[..0] == [];
  }

  lemma ShapeOnTrimFailure(list: seq<string>, replies: Replies)
    requires |Window(list, -Page, -1)| > 0
    ensures Kept(list, Drain(list, replies, TrimFails(0)))
  {
    var p := StorePage(Window(list, -Page, -1), replies);
    TrimFailsUnfold(list, replies);
    ReverseSplit(list, p.k, 0);
  }

  lemma ShapeOnError(list: seq<string>, replies: Replies, fault: ListFault)
    requires |Window(list, -Page, -1)| > 0 && !Fires(fault)
    requires StorePage(Window(list, -Page, -1), replies).err.Some?
    ensures Kept(list, Drain(list, replies, fault)) && Shaped(list, Drain(list, replies, fault))
  {
    var p := StorePage(Window(list, -Page, -1), replies);
    DrainPage(list, replies, fault);
    ShapeCombine(list, p.k, list[..|list| - p.k], []);
  }

  lemma ShapeOnSuccess(list: seq<string>, replies: Replies, fault: ListFault)
    requires |Window(list, -Page, -1)| > 0 && !Fires(fault)
    requires StorePage(Window(list, -Page, -1), replies).err.None?
    requires StorePage(Window(list, -Page, -1), replies).k <= |list|
    requires var p := StorePage(Window(list, -Page, -1), replies);
             var d' := Drain(list[..|list| - p.k], p.rest, Later(fault));
             Kept(list[..|list| - p.k], d') && (!fault.TrimFails? ==> Shaped(list[..|list| - p.k], d'))
    ensures Kept(list, Drain(list, replies, fault))
    ensures !fault.TrimFails? ==> Shaped(list, Drain(list, replies, fault))
  {
    var p := StorePage(Window(list, -Page, -1), replies);
    DrainPage(list, replies, fault);
    var d' := Drain(list[..|list| - p.k], p.rest, Later(fault));
    ShapeCombine(list, p.k, d'.remaining, d'.stored);
  }

  /** The drain's result: the oldest lines stored, oldest first, and
      exactly those gone from the list. */
  ghost predicate Shaped(list: seq<string>, d: Drained) {
    |d.stored| <= |list| &&
    d.remaining == list[..|list| - |d.stored|] &&
    d.stored == Reverse(list)[..|d.stored|]
  }

  /** The oldest lines stored, oldest first, and the list shortened by at
      most those lines. */
  ghost predicate Kept(list: seq<string>, d: Drained) {
    |d.stored| <= |list| &&
    d.stored == Reverse(list)[..|d.stored|] &&
    |list| - |d.stored| <= |d.remaining| <= |list| &&
    d.remaining == list[..|d.remaining|]
  }

  /** A page of the last `k` lines, followed by a drain of the rest that
      stored `st` and left `rem`, stores the oldest `k + |st|` lines. */
  lemma ShapeCombine(list: seq<string>, k: nat, rem: seq<string>, st: seq<string>)
    requires k <= |list| && |st| <= |list| - k
    requires |rem| <= |list| - k && rem == list[..|list| - k][..|rem|]
    requires st == Reverse(list[..|list| - k])[..|st|]
    ensures |Reverse(list[|list| - k..]) + st| <= |list|
    ensures rem == list[..|rem|]
    ensures Reverse(list[|list| - k..]) + st == Reverse(list)[..k + |st|]
  {
    ReverseSplit(list, k, |st|);
  }

  /** A storage that never refuses, over a connection that never fails,
      drains the whole list without error, oldest line first. */
  lemma {:induction false} DrainAll(list: seq<string>, replies: Replies)
    requires forall i :: 0 <= i < |replies| ==> replies[i].None?
    ensures Drain(list, replies, ListOk) == Drained([], Reverse(list), None)
    decreases |list|
  {
    var o := RoundOf(list, replies);
    if |o.page| == 0 {
      assert list == [];
    } else {
      var p := o.run;
      assert p.err.None?;
      assert forall i :: 0 <= i < |p.rest| ==> p.rest[i].None? by {
        RestOfAccepting(o.page, replies);
      }
      RoundGoesOn(list, replies, ListOk);
      DrainAll(o.kept, p.rest);
      assert list == o.kept + list[|list| - p.k..];
      ReverseAppend(o.kept, list[|list| - p.k..]);
    }
  }

  /** The answers left after a page that all succeeded still all succeed. */
  lemma {:induction false} RestOfAccepting(r: seq<string>, replies: Replies)
    requires forall i :: 0 <= i < |replies| ==> replies[i].None?
    ensures forall i :: 0 <= i < |StorePage(r, replies).rest| ==> StorePage(r, replies).rest[i].None?
    decreases |r|
  {
    if |r| > 0 {
      var rest := if |replies| == 0 then [] else replies[1..];
      RestOfAccepting(r[..|r| - 1], rest);
    }
  }

  /** A stop request ends the drain without error after storing exactly
      the lines accepted before it. */
  lemma StopIsQuiet(list: seq<string>, n: nat)
    requires n < |list| && n < Page
    ensures var replies := seq(n, i => None) + [Some(Stop)];
      var d := Drain(list, replies, ListOk);
      d.err.None? && |d.stored| == n && d.remaining == list[..|list| - n]
  {
    var replies := seq(n, i => None) + [Some(Stop)];
    var o := RoundOf(list, replies);
    assert replies[n] == Some(Stop);
    StorePageReplies(o.page, replies);
    assert o.run.k == n;
    RoundStops(list, replies, ListOk);
  }

  /** A failed LTRIM after a page the storage accepted: the error is
      reported, the page's lines were stored, and all of them are still in
      the list. */
  lemma TrimFailureKeepsPage(list: seq<string>, replies: Replies)
    requires |list| > 0
    requires forall i :: 0 <= i < |replies| ==> replies[i].None?
    ensures Drain(list, replies, TrimFails(0)) ==
      Drained(list, Reverse(list)[..Min(|list|, Page)], Some(Io))
  {
    var o := RoundOf(list, replies);
    assert o.run.k == Min(|list|, Page);
    assert Drain(list, replies, TrimFails(0)) == Drained(list, o.here, Some(Io)) by {
      TrimFailsRound(list, replies);
    }
    ReverseSplit(list, o.run.k, 0);
  }

  /** After a failed LTRIM the next drain hands the storage the same lines
      again: every line stored before the failure is stored twice. */
  lemma RetryRestores(list: seq<string>, first: Replies, second: Replies)
    requires |list| > 0
    requires forall i :: 0 <= i < |first| ==> first[i].None?
    requires forall i :: 0 <= i < |second| ==> second[i].None?
    ensures var d1 := Drain(list, first, TrimFails(0));
      var d2 := Drain(d1.remaining, second, ListOk);
      0 < |d1.stored| <= |d2.stored| && d2.stored[..|d1.stored|] == d1.stored
  {
    TrimFailureKeepsPage(list, first);
    DrainAll(list, second);
  }
}
