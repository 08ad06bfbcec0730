/** The wallet's and locker's redis scripts as transformations of a store
    of hashes and lists. A locker account is a hash from lock keys to coins
    plus one `total` field that always equals the sum of the others; a
    wallet is a hash from accounts to coins; a history is a list the
    scripts push onto at the head. */
module WalletScripts {
  import opened Wrappers
  import opened Sums
  import opened Numeral
  import opened WalletOption
  import opened Ledger
  import opened LuaText
  import WC = WalletCodec
  import WH = WalletHistory


  /** The redis keyspace the scripts touch. */
  datatype Store = Store(hashes: map<string, Hash>, lists: map<string, seq<string>>)

  /** A script's reply: an error reply, or an integer status. */
  datatype Reply = Fail(code: Code) | Status(n: int)

  datatype Run = Run(store: Store, reply: Reply)

  // ---------------------------------------------------------------- redis commands

  function HashOf(st: Store, key: string): Hash {
    if key in st.hashes then st.hashes[key] else map[]
  }

  function ListOf(st: Store, key: string): seq<string> {
    if key in st.lists then st.lists[key] else []
  }

  /** HGET: absent fields read as false (None). */
  function HGet(st: Store, key: string, field: string): Option<int> {
    if field in HashOf(st, key) then Some(HashOf(st, key)[field]) else None
  }

  function HSet(st: Store, key: string, field: string, v: int): Store {
    st.(hashes := st.hashes[key := HashOf(st, key)[field := v]])
  }

  /** HINCRBY: an absent field counts as zero. */
  function HIncrBy(st: Store, key: string, field: string, d: int): Store {
    HSet(st, key, field, Get0(HashOf(st, key), field) + d)
  }

  function HDel(st: Store, key: string, field: string): Store {
    st.(hashes := st.hashes[key := HashOf(st, key) - {field}])
  }

  function LPush(st: Store, key: string, item: string): Store {
    st.(lists := st.lists[key := [item] + ListOf(st, key)])
  }

  /** A history line: the coins as the script's `..` renders them, a line
      break, then the rest. */
  function Line(coinsText: string, rest: string): string {
    coinsText + "\n" + rest
  }

  // ---------------------------------------------------------------- locker scripts

  /** lockSetScript: an existing key with flag 0 is an "exists" error and
      nothing is written; otherwise the key is created, accumulated (flag
      bit 0) or overwritten, and the total moves by the key's change. */
  function LockSet(st: Store, account: string, idKey: string, totalKey: string, val: int, flag: nat): (r: Run)
    ensures HGet(st, account, idKey).Some? && flag == 0 ==> r == Run(st, Fail(ScriptError("exists")))
    ensures !(HGet(st, account, idKey).Some? && flag == 0) ==> r.reply == Status(1)
    ensures r.store.lists == st.lists
  {
    var ret := HGet(st, account, idKey);
    if ret.Some? && flag == 0 then Run(st, Fail(ScriptError("exists")))
    else
      var step: (Store, int) :=
        if ret.None? then (HSet(st, account, idKey, val), val)
        else if Bit(flag, 0) then (HIncrBy(st, account, idKey, val), val)
        else (HSet(st, account, idKey, val), val - ret.value);
      Run(HIncrBy(step.0, account, totalKey, step.1), Status(1))
  }

  /** The value lockSet leaves at the key: created, accumulated or overwritten. */
  function SetValue(prior: Option<int>, val: int, flag: nat): int {
    if prior.Some? && Bit(flag, 0) then prior.value + val else val
  }

  /** What a successful lockSet writes: the key holds its new value and
      the total moved by the key's change, in that account alone. */
  lemma LockSetEffect(st: Store, account: string, idKey: string, totalKey: string, val: int, flag: nat)
    requires idKey != totalKey
    ensures var r := LockSet(st, account, idKey, totalKey, val, flag);
      var h := HashOf(st, account);
      var v := SetValue(HGet(st, account, idKey), val, flag);
      r.reply == Status(1) ==> HashOf(r.store, account) == h[idKey := v][totalKey := Get0(h, totalKey) + v - Get0(h, idKey)]
    ensures forall k :: k != account ==> HashOf(LockSet(st, account, idKey, totalKey, val, flag).store, k) == HashOf(st, k)
  {
  }

  /** lockSet keeps every locker account balanced, and moves the locked
      coins by exactly the key's change. */
  lemma LockSetKeepsBalanced(st: Store, account: string, idKey: string, totalKey: string, val: int, flag: nat)
    requires idKey != totalKey && Balanced(HashOf(st, account), totalKey)
    ensures Balanced(HashOf(LockSet(st, account, idKey, totalKey, val, flag).store, account), totalKey)
    ensures LockSet(st, account, idKey, totalKey, val, flag).reply == Status(1) ==>
      Locked(HashOf(LockSet(st, account, idKey, totalKey, val, flag).store, account), totalKey) ==
      Locked(HashOf(st, account), totalKey) + SetValue(HGet(st, account, idKey), val, flag) - Get0(HashOf(st, account), idKey)
  {
    var h := HashOf(st, account);
    var r := LockSet(st, account, idKey, totalKey, val, flag);
    LockSetEffect(st, account, idKey, totalKey, val, flag);
    if r.reply == Status(1) {
      var v := SetValue(HGet(st, account, idKey), val, flag);
      SetStep(h, HashOf(r.store, account), totalKey, idKey, v);
    }
  }

  /** lockRemoveScript: a missing key replies 0 and writes nothing;
      otherwise the key's coins leave the total and the key is deleted. */
  function LockRemove(st: Store, account: string, idKey: string, totalKey: string): (r: Run)
    ensures HGet(st, account, idKey).None? ==> r == Run(st, Status(0))
    ensures HGet(st, account, idKey).Some? ==> r.reply == Status(1) && HGet(r.store, account, idKey).None?
  {
    match HGet(st, account, idKey)
    case None => Run(st, Status(0))
    case Some(coins) =>
      var s1 := HIncrBy(st, account, totalKey, -coins);
      Run(HDel(s1, account, idKey), Status(1))
  }

  /** What a successful lockRemove writes: the key is gone and the total
      dropped by its coins. */
  lemma LockRemoveEffect(st: Store, account: string, idKey: string, totalKey: string)
    requires idKey != totalKey
    ensures var h := HashOf(st, account);
      idKey in h ==> HashOf(LockRemove(st, account, idKey, totalKey).store, account) ==
                     (h - {idKey})[totalKey := Get0(h, totalKey) - h[idKey]]
  {
  }

  /** lockRemove keeps the account balanced and releases the key's coins. */
  lemma LockRemoveKeepsBalanced(st: Store, account: string, idKey: string, totalKey: string)
    requires idKey != totalKey && Balanced(HashOf(st, account), totalKey)
    ensures Balanced(HashOf(LockRemove(st, account, idKey, totalKey).store, account), totalKey)
    ensures HGet(st, account, idKey).Some? ==>
      Locked(HashOf(LockRemove(st, account, idKey, totalKey).store, account), totalKey) ==
      Locked(HashOf(st, account), totalKey) - HGet(st, account, idKey).value
  {
    var h := HashOf(st, account);
    LockRemoveEffect(st, account, idKey, totalKey);
    if idKey in h {
      DelStep(h, HashOf(LockRemove(st, account, idKey, totalKey).store, account), totalKey, idKey);
    }
  }

  /** lockTransferScript: a missing source is "notExists"; an existing
      target is "exists" unless the flag is exactly 1 (accumulate); on
      success the source key's coins move onto the target key and both
      totals follow. */
  function LockTransfer(st: Store, fromAccount: string, toAccount: string, fromIdKey: string,
                        fromTotalKey: string, toIdKey: string, toTotalKey: string, flag: nat): (r: Run)
    ensures HGet(st, fromAccount, fromIdKey).None? ==> r == Run(st, Fail(ScriptError("notExists")))
    ensures HGet(st, fromAccount, fromIdKey).Some? && HGet(st, toAccount, toIdKey).Some? && flag != 1 ==>
      r == Run(st, Fail(ScriptError("exists")))
    ensures r.reply.Status? <==>
      HGet(st, fromAccount, fromIdKey).Some? && (HGet(st, toAccount, toIdKey).None? || flag == 1)
  {
    match HGet(st, fromAccount, fromIdKey)
    case None => Run(st, Fail(ScriptError("notExists")))
    case Some(coins) =>
      var toCoins := HGet(st, toAccount, toIdKey);
      if toCoins.Some? && flag != 1 then Run(st, Fail(ScriptError("exists")))
      else
        var s1 := if toCoins.None? then HSet(st, toAccount, toIdKey, coins)
                  else HIncrBy(st, toAccount, toIdKey, coins);
        var s2 := HIncrBy(s1, toAccount, toTotalKey, coins);
        var s3 := HDel(s2, fromAccount, fromIdKey);
        Run(HIncrBy(s3, fromAccount, fromTotalKey, -coins), Status(1))
  }

  /** What a successful lockTransfer writes between two accounts: the
      target key gains the source key's coins, the source key is gone, and
      each total follows its own key. */
  lemma LockTransferEffect(st: Store, fromAccount: string, toAccount: string, fromIdKey: string,
                           fromTotalKey: string, toIdKey: string, toTotalKey: string, flag: nat)
    requires fromAccount != toAccount && fromIdKey != fromTotalKey && toIdKey != toTotalKey
    ensures var r := LockTransfer(st, fromAccount, toAccount, fromIdKey, fromTotalKey, toIdKey, toTotalKey, flag);
      var hf := HashOf(st, fromAccount);
      var ht := HashOf(st, toAccount);
      r.reply.Status? ==>
        fromIdKey in hf &&
        HashOf(r.store, toAccount) ==
          ht[toIdKey := Get0(ht, toIdKey) + hf[fromIdKey]][toTotalKey := Get0(ht, toTotalKey) + hf[fromIdKey]] &&
        HashOf(r.store, fromAccount) == (hf - {fromIdKey})[fromTotalKey := Get0(hf, fromTotalKey) - hf[fromIdKey]]
    ensures LockTransfer(st, fromAccount, toAccount, fromIdKey, fromTotalKey, toIdKey, toTotalKey, flag).reply.Fail? ==>
      LockTransfer(st, fromAccount, toAccount, fromIdKey, fromTotalKey, toIdKey, toTotalKey, flag).store == st
  {
  }

  /** Between two accounts, a transfer keeps both balanced and conserves
      the coins locked in the pair. */
  lemma LockTransferConserves(st: Store, fromAccount: string, toAccount: string, fromIdKey: string,
                              toIdKey: string, totalKey: string, flag: nat)
    requires fromAccount != toAccount && fromIdKey != totalKey && toIdKey != totalKey
    requires Balanced(HashOf(st, fromAccount), totalKey) && Balanced(HashOf(st, toAccount), totalKey)
    ensures var t := LockTransfer(st, fromAccount, toAccount, fromIdKey, totalKey, toIdKey, totalKey, flag).store;
      Balanced(HashOf(t, fromAccount), totalKey) && Balanced(HashOf(t, toAccount), totalKey) &&
      Locked(HashOf(t, fromAccount), totalKey) + Locked(HashOf(t, toAccount), totalKey) ==
      Locked(HashOf(st, fromAccount), totalKey) + Locked(HashOf(st, toAccount), totalKey)
  {
    var r := LockTransfer(st, fromAccount, toAccount, fromIdKey, totalKey, toIdKey, totalKey, flag);
    LockTransferEffect(st, fromAccount, toAccount, fromIdKey, totalKey, toIdKey, totalKey, flag);
    if r.reply.Status? {
      MoveStep(HashOf(st, fromAccount), HashOf(st, toAccount), HashOf(r.store, fromAccount),
               HashOf(r.store, toAccount), totalKey, fromIdKey, toIdKey);
    }
  }

  /** Transferring a key onto itself with the accumulate flag deletes the
      key while the total keeps counting its coins: the account is no
      longer balanced. Source and target must differ for the invariant. */
  lemma SelfTransferUnbalances()
    ensures var st := Store(map["a" := map["k" := 5, "total" := 5]], map[]);
      Balanced(HashOf(st, "a"), "total") &&
      !Balanced(HashOf(LockTransfer(st, "a", "a", "k", "total", "k", "total", 1).store, "a"), "total")
  {
    var st := Store(map["a" := map["k" := 5, "total" := 5]], map[]);
    var h := HashOf(st, "a");
    assert h - {"total"} == map["k" := 5];
    MapSumRemove(map["k" := 5], "k");
    assert map["k" := 5] - {"k"} == map[];
    var t := HashOf(LockTransfer(st, "a", "a", "k", "total", "k", "total", 1).store, "a");
    assert t == map["total" := 5];
    assert t - {"total"} == map[];
  }

  // ---------------------------------------------------------------- wallet scripts

  /** The shared balance check of the two wallet debits: a missing or short
      balance stops the script unless flag bit 2 allows going negative. */
  predicate Short(st: Store, wallet: string, account: string, coins: int, flag: nat) {
    (HGet(st, wallet, account).None? || HGet(st, wallet, account).value < coins) && !Bit(flag, 2)
  }

  /** walletTrans2LockerScript: status 1 for a short balance, status 2 for
      an existing lock key without the accumulate bit, both without a
      write; otherwise the coins leave the wallet for the lock key, the
      locker's total follows and one history line is pushed, its amount the
      Lua rendering of the negated tonumber'd coins. */
  function WalletTrans2Locker(st: Store, wallet: string, toAccount: string, history: string,
                              fromAccount: string, coins: int, toIdKey: string, toTotalKey: string,
                              flag: nat, remark: string): (r: Run)
    ensures Short(st, wallet, fromAccount, coins, flag) ==> r == Run(st, Status(1))
    ensures !Short(st, wallet, fromAccount, coins, flag) && HGet(st, toAccount, toIdKey).Some? && !Bit(flag, 0) ==>
      r == Run(st, Status(2))
    ensures r.reply == Status(0) ==> ListOf(r.store, history) == [Line(LuaNegated(coins), remark)] + ListOf(st, history)
  {
    if Short(st, wallet, fromAccount, coins, flag) then Run(st, Status(1))
    else
      var toCoins := HGet(st, toAccount, toIdKey);
      if toCoins.Some? && !Bit(flag, 0) then Run(st, Status(2))
      else
        var s1 := if toCoins.None? then HSet(st, toAccount, toIdKey, coins)
                  else HIncrBy(st, toAccount, toIdKey, coins);
        var s2 := HIncrBy(s1, toAccount, toTotalKey, coins);
        var s3 := HIncrBy(s2, wallet, fromAccount, -coins);
        Run(LPush(s3, history, Line(LuaNegated(coins), remark)), Status(0))
  }

  /** HSET on an absent field writes what HINCRBY would. */
  lemma FreshSetIsIncr(st: Store, key: string, field: string, d: int)
    requires HGet(st, key, field).None?
    ensures HSet(st, key, field, d) == HIncrBy(st, key, field, d)
  {
  }

  /** HINCRBY moves one field of one hash and leaves every other hash alone. */
  lemma IncrHash(st: Store, key: string, field: string, d: int, other: string)
    ensures HashOf(HIncrBy(st, key, field, d), key) == HashOf(st, key)[field := Get0(HashOf(st, key), field) + d]
    ensures other != key ==> HashOf(HIncrBy(st, key, field, d), other) == HashOf(st, other)
  {
  }

  /** The three HINCRBYs of walletTrans2Locker: the lock key and the total
      rise by the coins, the wallet account drops by them. */
  lemma LockerPayIn(st: Store, wallet: string, toAccount: string, fromAccount: string, coins: int,
                    toIdKey: string, toTotalKey: string)
    requires wallet != toAccount && toIdKey != toTotalKey
    ensures var s3 := HIncrBy(HIncrBy(HIncrBy(st, toAccount, toIdKey, coins), toAccount, toTotalKey, coins),
                              wallet, fromAccount, -coins);
      var ht := HashOf(st, toAccount);
      var hw := HashOf(st, wallet);
      HashOf(s3, toAccount) == ht[toIdKey := Get0(ht, toIdKey) + coins][toTotalKey := Get0(ht, toTotalKey) + coins] &&
      HashOf(s3, wallet) == hw[fromAccount := Get0(hw, fromAccount) - coins]
  {
    var s1 := HIncrBy(st, toAccount, toIdKey, coins);
    IncrHash(st, toAccount, toIdKey, coins, wallet);
    var s2 := HIncrBy(s1, toAccount, toTotalKey, coins);
    IncrHash(s1, toAccount, toTotalKey, coins, wallet);
    IncrHash(s2, wallet, fromAccount, -coins, toAccount);
  }

  /** LPUSH leaves every hash alone. */
  lemma PushKeepsHashes(st: Store, key: string, item: string, a: string, b: string)
    ensures HashOf(LPush(st, key, item), a) == HashOf(st, a) && HashOf(LPush(st, key, item), b) == HashOf(st, b)
  {
  }

  /** What a successful walletTrans2Locker writes: the wallet account
      drops by the coins, the lock key and the total rise by them. */
  lemma WalletTrans2LockerEffect(st: Store, wallet: string, toAccount: string, history: string,
                                 fromAccount: string, coins: int, toIdKey: string, toTotalKey: string,
                                 flag: nat, remark: string)
    requires wallet != toAccount && toIdKey != toTotalKey
    ensures var r := WalletTrans2Locker(st, wallet, toAccount, history, fromAccount, coins, toIdKey, toTotalKey, flag, remark);
      var ht := HashOf(st, toAccount);
      var hw := HashOf(st, wallet);
      r.reply == Status(0) ==>
        HashOf(r.store, toAccount) == ht[toIdKey := Get0(ht, toIdKey) + coins][toTotalKey := Get0(ht, toTotalKey) + coins] &&
        HashOf(r.store, wallet) == hw[fromAccount := Get0(hw, fromAccount) - coins]
    ensures var r := WalletTrans2Locker(st, wallet, toAccount, history, fromAccount, coins, toIdKey, toTotalKey, flag, remark);
      r.reply != Status(0) ==> r.store == st
  {
    if !Short(st, wallet, fromAccount, coins, flag) {
      var toCoins := HGet(st, toAccount, toIdKey);
      if !(toCoins.Some? && !Bit(flag, 0)) {
        var ht := HashOf(st, toAccount);
        var hw := HashOf(st, wallet);
        if toCoins.None? {
          FreshSetIsIncr(st, toAccount, toIdKey, coins);
        }
        var s3 := HIncrBy(HIncrBy(HIncrBy(st, toAccount, toIdKey, coins), toAccount, toTotalKey, coins),
                          wallet, fromAccount, -coins);
        LockerPayIn(st, wallet, toAccount, fromAccount, coins, toIdKey, toTotalKey);
        PushKeepsHashes(s3, history, Line(LuaNegated(coins), remark), wallet, toAccount);
      }
    }
  }

  /** What the wallet loses the locker gains, and the locker stays balanced. */
  lemma WalletTrans2LockerConserves(st: Store, wallet: string, toAccount: string, history: string,
                                    fromAccount: string, coins: int, toIdKey: string, totalKey: string,
                                    flag: nat, remark: string)
    requires wallet != toAccount && toIdKey != totalKey && Balanced(HashOf(st, toAccount), totalKey)
    ensures var t := WalletTrans2Locker(st, wallet, toAccount, history, fromAccount, coins, toIdKey, totalKey, flag, remark).store;
      Balanced(HashOf(t, toAccount), totalKey) &&
      MapSum(HashOf(t, wallet)) + Locked(HashOf(t, toAccount), totalKey) ==
      MapSum(HashOf(st, wallet)) + Locked(HashOf(st, toAccount), totalKey)
  {
    WalletTrans2LockerEffect(st, wallet, toAccount, history, fromAccount, coins, toIdKey, totalKey, flag, remark);
    PayInOutcome(st, WalletTrans2Locker(st, wallet, toAccount, history, fromAccount, coins, toIdKey, totalKey, flag, remark),
                 wallet, toAccount, fromAccount, coins, toIdKey, totalKey);
  }

  /** Any run that either leaves the store alone or pays `coins` from the
      wallet field into the lock key and the total conserves the coins. */
  lemma PayInOutcome(st: Store, r: Run, wallet: string, toAccount: string, fromAccount: string, coins: int,
                     toIdKey: string, totalKey: string)
    requires toIdKey != totalKey && Balanced(HashOf(st, toAccount), totalKey)
    requires r.reply != Status(0) ==> r.store == st
    requires var ht := HashOf(st, toAccount);
      var hw := HashOf(st, wallet);
      r.reply == Status(0) ==>
        HashOf(r.store, toAccount) == ht[toIdKey := Get0(ht, toIdKey) + coins][totalKey := Get0(ht, totalKey) + coins] &&
        HashOf(r.store, wallet) == hw[fromAccount := Get0(hw, fromAccount) - coins]
    ensures Balanced(HashOf(r.store, toAccount), totalKey) &&
      MapSum(HashOf(r.store, wallet)) + Locked(HashOf(r.store, toAccount), totalKey) ==
      MapSum(HashOf(st, wallet)) + Locked(HashOf(st, toAccount), totalKey)
  {
    if r.reply == Status(0) {
      PayInStep(HashOf(st, wallet), HashOf(st, toAccount), HashOf(r.store, wallet), HashOf(r.store, toAccount),
                totalKey, fromAccount, toIdKey, coins);
    }
  }

  /** walletTrans2WalletScript: a non-positive amount is an error reply,
      a short balance is status 1 without a write; otherwise the same
      amount leaves one account and reaches the other, and each side's
      history gets one line, the amount in Lua's rendering. */
  function WalletTrans2Wallet(st: Store, walletFrom: string, walletTo: string, historyFrom: string,
                              historyTo: string, fromAccount: string, coins: int, toAccount: string,
                              flag: nat, remarkFrom: string, remarkTo: string): (r: Run)
    ensures coins <= 0 ==> r == Run(st, Fail(ScriptError("invalid coins amount")))
    ensures coins > 0 && Short(st, walletFrom, fromAccount, coins, flag) ==> r == Run(st, Status(1))
    ensures r.reply == Status(0) <==> coins > 0 && !Short(st, walletFrom, fromAccount, coins, flag)
    ensures r.reply == Status(0) && historyFrom != historyTo ==>
      ListOf(r.store, historyFrom) == [Line(LuaNegated(coins), remarkFrom)] + ListOf(st, historyFrom) &&
      ListOf(r.store, historyTo) == [Line(LuaNumber(coins), remarkTo)] + ListOf(st, historyTo)
  {
    if coins <= 0 then Run(st, Fail(ScriptError("invalid coins amount")))
    else if Short(st, walletFrom, fromAccount, coins, flag) then Run(st, Status(1))
    else
      var s1 := HIncrBy(st, walletFrom, fromAccount, -coins);
      var s2 := HIncrBy(s1, walletTo, toAccount, coins);
      var s3 := LPush(s2, historyFrom, Line(LuaNegated(coins), remarkFrom));
      Run(LPush(s3, historyTo, Line(LuaNumber(coins), remarkTo)), Status(0))
  }

  /** Wallet-to-wallet transfers create and destroy no coins, whether the
      two wallets share one hash or not. */
  lemma WalletTrans2WalletConserves(st: Store, walletFrom: string, walletTo: string, historyFrom: string,
                                    historyTo: string, fromAccount: string, coins: int, toAccount: string,
                                    flag: nat, remarkFrom: string, remarkTo: string)
    ensures var t := WalletTrans2Wallet(st, walletFrom, walletTo, historyFrom, historyTo, fromAccount, coins,
                                        toAccount, flag, remarkFrom, remarkTo).store;
      if walletFrom == walletTo then MapSum(HashOf(t, walletFrom)) == MapSum(HashOf(st, walletFrom))
      else MapSum(HashOf(t, walletFrom)) + MapSum(HashOf(t, walletTo)) ==
           MapSum(HashOf(st, walletFrom)) + MapSum(HashOf(st, walletTo))
  {
    var r := WalletTrans2Wallet(st, walletFrom, walletTo, historyFrom, historyTo, fromAccount, coins,
                                toAccount, flag, remarkFrom, remarkTo);
    if r.reply == Status(0) {
      var s1 := HIncrBy(st, walletFrom, fromAccount, -coins);
      var hf := HashOf(st, walletFrom);
      MapSumUpdate(hf, fromAccount, Get0(hf, fromAccount) - coins);
      var h1 := HashOf(s1, walletTo);
      MapSumUpdate(h1, toAccount, Get0(h1, toAccount) + coins);
      assert HashOf(r.store, walletTo) == h1[toAccount := Get0(h1, toAccount) + coins];
      if walletFrom != walletTo {
        assert HashOf(r.store, walletFrom) == HashOf(s1, walletFrom);
        assert h1 == HashOf(st, walletTo);
      }
    }
  }

  /** lockerTrans2WalletScript: a missing lock key is status 1 without a
      write; otherwise the key's whole balance moves to the wallet account,
      the key is deleted, the total follows and one history line is pushed.
      The amount there is the HGET reply, a string, so the line carries the
      stored decimal unchanged. */
  function LockerTrans2Wallet(st: Store, fromAccount: string, wallet: string, history: string,
                              fromIdKey: string, fromTotalKey: string, walletAccount: string,
                              member: string): (r: Run)
    ensures HGet(st, fromAccount, fromIdKey).None? ==> r == Run(st, Status(1))
    ensures HGet(st, fromAccount, fromIdKey).Some? ==>
      r.reply == Status(0) && (fromIdKey != fromTotalKey ==> HGet(r.store, fromAccount, fromIdKey).None?) &&
      ListOf(r.store, history) == [Line(FormatInt(HGet(st, fromAccount, fromIdKey).value), member)] + ListOf(st, history)
  {
    match HGet(st, fromAccount, fromIdKey)
    case None => Run(st, Status(1))
    case Some(coins) =>
      var s1 := HIncrBy(st, wallet, walletAccount, coins);
      var s2 := HDel(s1, fromAccount, fromIdKey);
      var s3 := HIncrBy(s2, fromAccount, fromTotalKey, -coins);
      Run(LPush(s3, history, Line(FormatInt(coins), member)), Status(0))
  }

  /** What a successful lockerTrans2Wallet writes: the lock key is gone,
      the total dropped by its coins and the wallet account rose by them. */
  lemma LockerTrans2WalletEffect(st: Store, fromAccount: string, wallet: string, history: string,
                                 fromIdKey: string, fromTotalKey: string, walletAccount: string, member: string)
    requires wallet != fromAccount && fromIdKey != fromTotalKey
    ensures var r := LockerTrans2Wallet(st, fromAccount, wallet, history, fromIdKey, fromTotalKey, walletAccount, member);
      var hf := HashOf(st, fromAccount);
      var hw := HashOf(st, wallet);
      r.reply == Status(0) ==>
        fromIdKey in hf &&
        HashOf(r.store, fromAccount) == (hf - {fromIdKey})[fromTotalKey := Get0(hf, fromTotalKey) - hf[fromIdKey]] &&
        HashOf(r.store, wallet) == hw[walletAccount := Get0(hw, walletAccount) + hf[fromIdKey]]
  {
  }

  /** Coins leaving a lock key arrive in the wallet, and the locker stays
      balanced. */
  lemma LockerTrans2WalletConserves(st: Store, fromAccount: string, wallet: string, history: string,
                                    fromIdKey: string, totalKey: string, walletAccount: string, member: string)
    requires wallet != fromAccount && fromIdKey != totalKey && Balanced(HashOf(st, fromAccount), totalKey)
    ensures var t := LockerTrans2Wallet(st, fromAccount, wallet, history, fromIdKey, totalKey, walletAccount, member).store;
      Balanced(HashOf(t, fromAccount), totalKey) &&
      MapSum(HashOf(t, wallet)) + Locked(HashOf(t, fromAccount), totalKey) ==
      MapSum(HashOf(st, wallet)) + Locked(HashOf(st, fromAccount), totalKey)
  {
    var r := LockerTrans2Wallet(st, fromAccount, wallet, history, fromIdKey, totalKey, walletAccount, member);
    LockerTrans2WalletEffect(st, fromAccount, wallet, history, fromIdKey, totalKey, walletAccount, member);
    if r.reply == Status(0) {
      var hf, hw := HashOf(st, fromAccount), HashOf(st, wallet);
      DelStep(hf, HashOf(r.store, fromAccount), totalKey, fromIdKey);
      MapSumUpdate(hw, walletAccount, Get0(hw, walletAccount) + hf[fromIdKey]);
    }
  }

  // ---------------------------------------------------------------- the Go callers

  /** The wallet's TransToLocker as written: the option flags, then the
      script, which reads its history remark from the sixth argument. The
      caller passes the call's Unix time there and the payload seventh, so
      the line pushed is the amount and the time alone. Only an error reply
      counts as failure, so statuses 1 and 2 read as success. */
  function TransToLockerAsWritten(st: Store, wallet: string, toAccount: string, history: string,
                                  fromAccount: string, coins: int, toIdKey: string, toTotalKey: string,
                                  opts: seq<Opt>, now: int): (r: (Store, Option<Code>))
    ensures ConflictFlag(OptionNew(opts)).Err? ==> r == (st, Some(Conflict))
    ensures ConflictFlag(OptionNew(opts)).Ok? ==> r.1.None?
    ensures r.0 == st || ListOf(r.0, history) == [Line(LuaNegated(coins), FormatInt(now))] + ListOf(st, history)
  {
    match ConflictFlag(OptionNew(opts))
    case Err(e) => (st, Some(e))
    case Ok(flag) =>
      var run := WalletTrans2Locker(st, wallet, toAccount, history, fromAccount, coins, toIdKey, toTotalKey,
                                    flag, FormatInt(now));
      (run.store, match run.reply case Fail(e) => Some(e) case Status(_) => None)
  }

  /** TransToLocker as evidently intended: the history line is the amount
      followed by BuildHistoryPayload's layout, naming the locker account
      `lockerName` and the lock key, and the script's refusals are reported,
      status 1 as NoCoins and status 2 as Exists. */
  function TransToLocker(st: Store, wallet: string, toAccount: string, history: string,
                         fromAccount: string, coins: int, toIdKey: string, toTotalKey: string,
                         opts: seq<Opt>, now: int, lockerName: string, remark: string): (r: (Store, Option<Code>))
    ensures ConflictFlag(OptionNew(opts)).Err? ==> r == (st, Some(Conflict))
    ensures r.1.None? <==>
      (ConflictFlag(OptionNew(opts)).Ok? &&
       WalletTrans2Locker(st, wallet, toAccount, history, fromAccount, coins, toIdKey, toTotalKey,
                          ConflictFlag(OptionNew(opts)).value, "").reply == Status(0))
    ensures ConflictFlag(OptionNew(opts)).Ok? && Short(st, wallet, fromAccount, coins, ConflictFlag(OptionNew(opts)).value) ==>
      r == (st, Some(NoCoins))
    ensures r.1.None? ==>
      ListOf(r.0, history) ==
        [Line(LuaNegated(coins), WC.BuildHistoryPayload(WC.HistoryTypeWL, now, lockerName, toIdKey, remark))] +
        ListOf(st, history)
  {
    match ConflictFlag(OptionNew(opts))
    case Err(e) => (st, Some(e))
    case Ok(flag) =>
      var payload := WC.BuildHistoryPayload(WC.HistoryTypeWL, now, lockerName, toIdKey, remark);
      var run := WalletTrans2Locker(st, wallet, toAccount, history, fromAccount, coins, toIdKey, toTotalKey, flag, payload);
      (run.store, match run.reply
        case Fail(e) => Some(e)
        case Status(n) => if n == 0 then None else if n == 1 then Some(NoCoins) else Some(Exists))
  }

  /** A transfer from an empty wallet writes nothing, yet the as-written
      caller reports success; the corrected caller reports NoCoins. */
  lemma TransToLockerHidesRefusal()
    ensures var st := Store(map[], map[]);
      TransToLockerAsWritten(st, "wallet", "locker", "history", "me", 10, "k", "total", [], 0) == (st, None) &&
      TransToLocker(st, "wallet", "locker", "history", "me", 10, "k", "total", [], 0, "locker", "") == (st, Some(NoCoins))
  {
  }

  /** The line the as-written TransToLocker pushes has two fields where the
      history layout needs six: ParseHistoryItem refuses it as bad data, and
      a history page shows it as zero coins at time zero with no remark. */
  lemma TransToLockerLineUnreadable(coins: int, now: int)
    ensures WC.ParseHistoryItem(Line(LuaNegated(coins), FormatInt(now))) == WC.Parsed(WC.NoFields, Some(BadData))
    ensures WH.GetItems([Line(LuaNegated(coins), FormatInt(now))], 0, 0) == [WH.HistoryItem(0, 0, "")]
  {
    LuaNumberNoNewline(coins);
    FormatIntNoNewline(now);
    TwoFieldLine(LuaNegated(coins), FormatInt(now));
  }

  /** The corrected TransToLocker's line reads back as the transfer: the
      negated amount, the wallet-to-locker type, the time, the locker
      account, the lock key and the remark, for amounts Lua prints as
      plain decimals. */
  lemma TransToLockerLineReads(st: Store, wallet: string, toAccount: string, history: string,
                               fromAccount: string, coins: int, toIdKey: string, toTotalKey: string,
                               opts: seq<Opt>, now: int, lockerName: string, remark: string)
    requires Plain(coins) && IsInt64(now) && '\n' !in lockerName && '\n' !in toIdKey
    ensures var r := TransToLocker(st, wallet, toAccount, history, fromAccount, coins, toIdKey, toTotalKey,
                                   opts, now, lockerName, remark);
      r.1.None? ==>
        WC.ParseHistoryItem(ListOf(r.0, history)[0]) ==
          WC.Parsed(WC.HistoryFields(WC.HistoryTypeWL, now, -coins, lockerName, toIdKey, remark), None) &&
        WH.GetItems([ListOf(r.0, history)[0]], 0, 0) == [WH.HistoryItem(-coins, now, remark)]
  {
    var r := TransToLocker(st, wallet, toAccount, history, fromAccount, coins, toIdKey, toTotalKey,
                           opts, now, lockerName, remark);
    if r.1.None? {
      var text := LuaNegated(coins);
      var line := Line(text, WC.BuildHistoryPayload(WC.HistoryTypeWL, now, lockerName, toIdKey, remark));
      assert ListOf(r.0, history)[0] == line;
      assert ParseInt(text) == Ok(-coins) && '\n' !in text by {
        LuaNegatedReads(coins);
      }
      HeadLineReads(ListOf(r.0, history), text, -coins, now, lockerName, toIdKey, remark);
    }
  }

  /** A list headed by a readable wallet-to-locker line shows that line's
      transfer first. */
  lemma HeadLineReads(list: seq<string>, text: string, coins: int, now: int, lockerName: string,
                      toIdKey: string, remark: string)
    requires |list| > 0 && list[0] == Line(text, WC.BuildHistoryPayload(WC.HistoryTypeWL, now, lockerName, toIdKey, remark))
    requires ParseInt(text) == Ok(coins) && '\n' !in text
    requires IsInt64(now) && '\n' !in lockerName && '\n' !in toIdKey
    ensures WC.ParseHistoryItem(list[0]) ==
        WC.Parsed(WC.HistoryFields(WC.HistoryTypeWL, now, coins, lockerName, toIdKey, remark), None)
    ensures WH.GetItems([list[0]], 0, 0) == [WH.HistoryItem(coins, now, remark)]
  {
    LineReads(text, coins, now, lockerName, toIdKey, remark);
  }

  /** Any single-line amount text that reads back as a number, in front of
      a wallet-to-locker payload, reads back as that transfer. */
  lemma LineReads(text: string, coins: int, now: int, lockerName: string, toIdKey: string, remark: string)
    requires ParseInt(text) == Ok(coins) && '\n' !in text
    requires IsInt64(now) && '\n' !in lockerName && '\n' !in toIdKey
    ensures var line := Line(text, WC.BuildHistoryPayload(WC.HistoryTypeWL, now, lockerName, toIdKey, remark));
      WC.ParseHistoryItem(line) ==
        WC.Parsed(WC.HistoryFields(WC.HistoryTypeWL, now, coins, lockerName, toIdKey, remark), None) &&
      WH.GetItems([line], 0, 0) == [WH.HistoryItem(coins, now, remark)]
  {
    var line := Line(text, WC.BuildHistoryPayload(WC.HistoryTypeWL, now, lockerName, toIdKey, remark));
    WC.RoundTripText(text, coins, WC.HistoryTypeWL, now, lockerName, toIdKey, remark);
    WH.GetItemsOne(line);
  }

  /** From 10^14 coins on, Lua prints the amount with an exponent and the
      line no longer reads back, whatever the payload: ParseInt stops at the
      exponent and the page shows zero coins. */
  lemma WideAmountUnreadable(coins: int, rest: string)
    requires !Plain(coins)
    ensures WC.ParseHistoryItem(Line(LuaNegated(coins), rest)).err == Some(if WC.Newlines(rest) >= 4 then Syntax else BadData)
    ensures WH.GetItems([Line(LuaNegated(coins), rest)], 0, 0)[0].coins == 0
  {
    LuaNegatedUnreadable(coins);
    UnreadableLine(LuaNegated(coins), rest);
  }

  /** A line whose single-line amount text does not parse as a number reads
      as a syntax error when the rest holds the five payload fields, and as
      bad data otherwise; either way the page shows zero coins. */
  lemma UnreadableLine(text: string, rest: string)
    requires ParseInt(text) == Err(Syntax) && '\n' !in text
    ensures WC.ParseHistoryItem(Line(text, rest)).err == Some(if WC.Newlines(rest) >= 4 then Syntax else BadData)
    ensures WH.GetItems([Line(text, rest)], 0, 0)[0].coins == 0
  {
    WC.NoNewlines(text);
    LineFields(text, rest);
    WC.SplitCount(Line(text, rest), 6);
    WC.SplitHead(text, rest, 6);
    WH.GetItemsOne(Line(text, rest));
  }

  /** A line of two single-line parts is short of the history layout. */
  lemma TwoFieldLine(a: string, b: string)
    requires '\n' !in a && '\n' !in b
    ensures WC.ParseHistoryItem(Line(a, b)) == WC.Parsed(WC.NoFields, Some(BadData))
    ensures WH.GetItems([Line(a, b)], 0, 0) == [WH.HistoryItem(0, 0, "")]
  {
    WC.NoNewlines(a);
    WC.NoNewlines(b);
    LineFields(a, b);
    WC.TooFewFields(Line(a, b));
  }

  /** A line's breaks are its own one plus those of the rest. */
  lemma LineFields(a: string, rest: string)
    requires '\n' !in a
    ensures WC.Newlines(Line(a, rest)) == 1 + WC.Newlines(rest)
  {
    WC.NoNewlines(a);
    assert Line(a, rest) == a + ("\n" + rest);
    WC.NewlinesConcat(a, "\n" + rest);
    WC.NewlinesConcat("\n", rest);
    assert WC.Newlines("\n") == 1 by {
      assert "\n"[..0] == [];
    }
  }

  /** The locker's TransToWallet as written: the script reads its history
      member from the fourth argument, where the caller passes the call's
      Unix time; the payload, fifth, is never read. Status 1 (no such lock
      key) is not an error reply, so it reads as success. */
  function TransToWalletAsWritten(st: Store, lockerAccount: string, wallet: string, history: string,
                                  key: string, totalKey: string, walletAccount: string, now: int): (r: (Store, Option<Code>))
    ensures r.1.None?
    ensures HGet(st, lockerAccount, key).Some? ==>
      ListOf(r.0, history) == [Line(FormatInt(HGet(st, lockerAccount, key).value), FormatInt(now))] + ListOf(st, history)
    ensures HGet(st, lockerAccount, key).None? ==> r.0 == st
  {
    var run := LockerTrans2Wallet(st, lockerAccount, wallet, history, key, totalKey, walletAccount, FormatInt(now));
    (run.store, None)
  }

  /** TransToWallet as evidently intended: the line carries the history
      layout with the locker account and the lock key, and a missing lock
      key is reported as NotExists. */
  function TransToWallet(st: Store, lockerAccount: string, wallet: string, history: string,
                         key: string, totalKey: string, walletAccount: string, now: int,
                         lockerName: string, remark: string): (r: (Store, Option<Code>))
    ensures HGet(st, lockerAccount, key).None? <==> r == (st, Some(NotExists))
    ensures HGet(st, lockerAccount, key).Some? ==>
      r.1.None? &&
      ListOf(r.0, history) ==
        [Line(FormatInt(HGet(st, lockerAccount, key).value),
              WC.BuildHistoryPayload(WC.HistoryTypeWL, now, lockerName, key, remark))] + ListOf(st, history)
  {
    var payload := WC.BuildHistoryPayload(WC.HistoryTypeWL, now, lockerName, key, remark);
    var run := LockerTrans2Wallet(st, lockerAccount, wallet, history, key, totalKey, walletAccount, payload);
    (run.store, if run.reply == Status(1) then Some(NotExists) else None)
  }

  /** The as-written TransToWallet's line is refused like TransToLocker's. */
  lemma TransToWalletLineUnreadable(coins: int, now: int)
    ensures WC.ParseHistoryItem(Line(FormatInt(coins), FormatInt(now))) == WC.Parsed(WC.NoFields, Some(BadData))
    ensures WH.GetItems([Line(FormatInt(coins), FormatInt(now))], 0, 0) == [WH.HistoryItem(0, 0, "")]
  {
    FormatIntNoNewline(coins);
    FormatIntNoNewline(now);
    TwoFieldLine(FormatInt(coins), FormatInt(now));
  }

  /** The corrected TransToWallet's line reads back as the released lock:
      its coins, the type, the time, the locker account, the key and the
      remark. */
  lemma TransToWalletLineReads(st: Store, lockerAccount: string, wallet: string, history: string,
                               key: string, totalKey: string, walletAccount: string, now: int,
                               lockerName: string, remark: string)
    requires IsInt64(now) && '\n' !in lockerName && '\n' !in key
    requires HGet(st, lockerAccount, key).Some? && IsInt64(HGet(st, lockerAccount, key).value)
    ensures var r := TransToWallet(st, lockerAccount, wallet, history, key, totalKey, walletAccount, now, lockerName, remark);
      var coins := HGet(st, lockerAccount, key).value;
      WC.ParseHistoryItem(ListOf(r.0, history)[0]) ==
        WC.Parsed(WC.HistoryFields(WC.HistoryTypeWL, now, coins, lockerName, key, remark), None) &&
      WH.GetItems([ListOf(r.0, history)[0]], 0, 0) == [WH.HistoryItem(coins, now, remark)]
  {
    WC.RoundTrip(HGet(st, lockerAccount, key).value, WC.HistoryTypeWL, now, lockerName, key, remark);
  }
}
