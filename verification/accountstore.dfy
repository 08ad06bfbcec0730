/** The map-backed account store: accounts by user id, an index from
    account name to user id, and a token table. Persistence to files is
    storing the value; the clock reading and the snowflake id an operation
    would draw are parameters. A user id is a 64-bit unsigned value, a
    token's expiry is a time in nanoseconds and an account's creation time
    is in seconds. Operations that fail leave the store as it was. */
module AccountStore {
  import opened Wrappers
  import opened SyncModel

  const Hour := 3_600_000_000_000

  /** The account package's AdvanceConfig is not part of this model: a
      configuration is carried as its encoded bytes. */
  datatype AdvanceConfig = AdvanceConfig(raw: Bytes)

  datatype AccountInfo = AccountInfo(id: nat, accountName: string, hashedPassword: string, createAt: int, cfg: Option<AdvanceConfig>, data: Bytes)

  datatype TokenInfo = TokenInfo(expiredAt: int, uid: nat)

  datatype Store = Store(accounts: map<nat, AccountInfo>, names: map<string, nat>, tokens: map<string, TokenInfo>, lastClean: int)

  /** The name index is exactly {account name: id} over the stored
      accounts, and each account is stored under its own id. Two accounts
      therefore never share a name. */
  ghost predicate Inv(s: Store) {
    (forall uid :: uid in s.accounts ==>
       s.accounts[uid].id == uid && s.accounts[uid].accountName in s.names && s.names[s.accounts[uid].accountName] == uid) &&
    (forall n :: n in s.names ==> s.names[n] in s.accounts && s.accounts[s.names[n]].accountName == n)
  }

  lemma InvNamesUnique(s: Store, u1: nat, u2: nat)
    requires Inv(s) && u1 in s.accounts && u2 in s.accounts && u1 != u2
    ensures s.accounts[u1].accountName != s.accounts[u2].accountName
  {
  }

  /** init: the index is filled from the accounts in the map's iteration
      order `order`, and an account without a creation time gets `now`. */
  function Init(accounts: map<nat, AccountInfo>, order: seq<nat>, now: int): (s: Store)
    requires forall i :: 0 <= i < |order| ==> order[i] in accounts
    ensures s.accounts.Keys == accounts.Keys
    ensures forall uid :: uid in accounts ==>
              s.accounts[uid] == accounts[uid].(createAt := if accounts[uid].createAt == 0 then now else accounts[uid].createAt)
  {
    var fixed := map uid | uid in accounts :: accounts[uid].(createAt := if accounts[uid].createAt == 0 then now else accounts[uid].createAt);
    Store(fixed, IndexOf(accounts, order), map[], 0)
  }

  /** The index built by storing name-to-id for each account in turn. */
  function IndexOf(accounts: map<nat, AccountInfo>, order: seq<nat>): (r: map<string, nat>)
    requires forall i :: 0 <= i < |order| ==> order[i] in accounts
    ensures forall n :: n in r ==> exists i :: 0 <= i < |order| && accounts[order[i]].accountName == n && accounts[order[i]].id == r[n]
    ensures forall i :: 0 <= i < |order| ==> accounts[order[i]].accountName in r
    decreases |order|
  {
    if |order| == 0 then map[]
    else
      var uid := order[|order| - 1];
      IndexOf(accounts, order[..|order| - 1])[accounts[uid].accountName := accounts[uid].id]
  }

  /** Every account is visited. */
  predicate Lists(accounts: map<nat, AccountInfo>, order: seq<nat>) {
    (forall i :: 0 <= i < |order| ==> order[i] in accounts) &&
    (forall uid :: uid in accounts ==> uid in order)
  }

  /** Stored under their ids and with distinct names, the accounts give a
      store whose index is exact, whatever the visiting order. */
  lemma InitInv(accounts: map<nat, AccountInfo>, order: seq<nat>, now: int)
    requires Lists(accounts, order)
    requires forall uid :: uid in accounts ==> accounts[uid].id == uid
    requires forall u1, u2 :: u1 in accounts && u2 in accounts && u1 != u2 ==> accounts[u1].accountName != accounts[u2].accountName
    ensures Inv(Init(accounts, order, now))
  {
    var s := Init(accounts, order, now);
    forall uid | uid in s.accounts
      ensures s.accounts[uid].accountName in s.names && s.names[s.accounts[uid].accountName] == uid
    {
      var i :| 0 <= i < |order| && order[i] == uid;
      assert accounts[order[i]].accountName in s.names;
    }
  }

  /** GetIDFromAccountName: the index lookup. */
  function GetIDFromAccountName(s: Store, accountName: string): (r: Option<nat>)
    ensures Inv(s) ==> (r.Some? <==> exists uid :: uid in s.accounts && s.accounts[uid].accountName == accountName)
    ensures Inv(s) && r.Some? ==> r.value in s.accounts && s.accounts[r.value].accountName == accountName
  {
    if accountName in s.names then Some(s.names[accountName]) else None
  }

  /** AddAccountEx: a taken name or a taken id gives AlreadyExists; a zero
      id means the fresh snowflake id `snow`. */
  function AddAccountEx(s: Store, userID: nat, accountName: string, hashedPassword: string, data: Bytes, snow: nat, now: int): (r: Result<(Store, nat)>)
    ensures Inv(s) ==> (r.Err? <==> (exists u :: u in s.accounts && s.accounts[u].accountName == accountName) ||
                                     (if userID == 0 then snow else userID) in s.accounts)
    ensures r.Err? ==> r.code == AlreadyExists
    ensures r.Ok? ==> var uid := r.value.1;
            uid == (if userID == 0 then snow else userID) &&
            r.value.0 == s.(accounts := s.accounts[uid := AccountInfo(uid, accountName, hashedPassword, now, None, data)],
                            names := s.names[accountName := uid])
  {
    if GetIDFromAccountName(s, accountName).Some? then Err(AlreadyExists)
    else
      var uid := if userID == 0 then snow else userID;
      if uid in s.accounts then Err(AlreadyExists)
      else Ok((s.(accounts := s.accounts[uid := AccountInfo(uid, accountName, hashedPassword, now, None, data)],
                  names := s.names[accountName := uid]), uid))
  }

  lemma AddAccountKeepsInv(s: Store, userID: nat, accountName: string, hashedPassword: string, data: Bytes, snow: nat, now: int)
    requires Inv(s)
    ensures var r := AddAccountEx(s, userID, accountName, hashedPassword, data, snow, now);
            r.Ok? ==> Inv(r.value.0)
  {
  }

  /** AddAccount: an account with a fresh id and no data. */
  function AddAccount(s: Store, accountName: string, hashedPassword: string, snow: nat, now: int): (r: Result<(Store, nat)>)
    ensures r.Ok? ==> r.value.1 == snow && GetAccount(r.value.0, snow) == Ok((accountName, hashedPassword)) &&
                      GetAccountData(r.value.0, snow) == Ok([])
    ensures Inv(s) ==> (r.Err? <==> (exists u :: u in s.accounts && s.accounts[u].accountName == accountName) || snow in s.accounts)
  {
    AddAccountEx(s, 0, accountName, hashedPassword, [], snow, now)
  }

  /** FindAccount: the id and password stored under a name; NotFound when
      the name is not indexed or its account is missing. */
  function FindAccount(s: Store, accountName: string): (r: Result<(nat, string)>)
    ensures r.Err? ==> r.code == NotFound
    ensures Inv(s) ==> (r.Err? <==> !exists uid :: uid in s.accounts && s.accounts[uid].accountName == accountName)
    ensures r.Ok? ==> exists uid :: uid in s.accounts && s.accounts[uid].id == r.value.0 && r.value.1 == s.accounts[uid].hashedPassword
    ensures Inv(s) && r.Ok? ==> r.value.0 in s.accounts && s.accounts[r.value.0].accountName == accountName &&
                                r.value.1 == s.accounts[r.value.0].hashedPassword
  {
    match GetIDFromAccountName(s, accountName)
    case None => Err(NotFound)
    case Some(uid) =>
      if uid in s.accounts then Ok((s.accounts[uid].id, s.accounts[uid].hashedPassword)) else Err(NotFound)
  }

  /** GetAccount: the name and password of an id; NotFound for an unknown id. */
  function GetAccount(s: Store, uid: nat): (r: Result<(string, string)>)
    ensures r.Err? <==> uid !in s.accounts
    ensures r.Err? ==> r.code == NotFound
  {
    if uid in s.accounts then Ok((s.accounts[uid].accountName, s.accounts[uid].hashedPassword)) else Err(NotFound)
  }

  /** GetAccountData: the data of an id; NotFound for an unknown id. */
  function GetAccountData(s: Store, uid: nat): (r: Result<Bytes>)
    ensures r.Err? <==> uid !in s.accounts
    ensures r.Err? ==> r.code == NotFound
  {
    if uid in s.accounts then Ok(s.accounts[uid].data) else Err(NotFound)
  }

  /** HasAccount: whether any account is stored. */
  function HasAccount(s: Store): (r: bool)
    ensures r <==> exists uid :: uid in s.accounts
  {
    |s.accounts| > 0
  }

  /** Looking an account up by name and by id agree. */
  lemma FindGetAgree(s: Store, accountName: string)
    requires Inv(s)
    ensures FindAccount(s, accountName).Ok? ==>
              GetAccount(s, FindAccount(s, accountName).value.0) == Ok((accountName, FindAccount(s, accountName).value.1))
  {
  }

  /** An added account is found by its name, with its password. */
  lemma AddThenFind(s: Store, userID: nat, accountName: string, hashedPassword: string, data: Bytes, snow: nat, now: int)
    requires Inv(s)
    ensures var r := AddAccountEx(s, userID, accountName, hashedPassword, data, snow, now);
            r.Ok? ==> Inv(r.value.0) && FindAccount(r.value.0, accountName) == Ok((r.value.1, hashedPassword))
  {
    AddAccountKeepsInv(s, userID, accountName, hashedPassword, data, snow, now);
  }

  /** SetHashedPassword: NotFound for an unknown id, otherwise only that
      account's password changes. */
  function SetHashedPassword(s: Store, uid: nat, hashedPassword: string): (r: Result<Store>)
    ensures r.Err? <==> uid !in s.accounts
    ensures r.Err? ==> r.code == NotFound
    ensures r.Ok? ==> r.value.names == s.names && r.value.tokens == s.tokens && r.value.accounts.Keys == s.accounts.Keys &&
                      r.value.accounts[uid].hashedPassword == hashedPassword &&
                      r.value.accounts[uid].(hashedPassword := s.accounts[uid].hashedPassword) == s.accounts[uid] &&
                      forall u :: u in s.accounts && u != uid ==> r.value.accounts[u] == s.accounts[u]
  {
    if uid !in s.accounts then Err(NotFound)
    else Ok(s.(accounts := s.accounts[uid := s.accounts[uid].(hashedPassword := hashedPassword)]))
  }

  /** SetAdvanceConfig: NotFound for an unknown id, otherwise only that
      account's configuration changes. */
  function SetAdvanceConfig(s: Store, uid: nat, cfg: Option<AdvanceConfig>): (r: Result<Store>)
    ensures r.Err? <==> uid !in s.accounts
    ensures r.Err? ==> r.code == NotFound
    ensures r.Ok? ==> r.value.names == s.names && r.value.tokens == s.tokens && r.value.accounts.Keys == s.accounts.Keys &&
                      r.value.accounts[uid].(cfg := s.accounts[uid].cfg) == s.accounts[uid] &&
                      forall u :: u in s.accounts && u != uid ==> r.value.accounts[u] == s.accounts[u]
  {
    if uid !in s.accounts then Err(NotFound)
    else Ok(s.(accounts := s.accounts[uid := s.accounts[uid].(cfg := cfg)]))
  }

  /** GetAdvanceConfig: NotFound for an unknown id, otherwise the stored
      configuration (None for a nil one). */
  function GetAdvanceConfig(s: Store, uid: nat): (r: Result<Option<AdvanceConfig>>)
    ensures r.Err? <==> uid !in s.accounts
    ensures r.Err? ==> r.code == NotFound
  {
    if uid !in s.accounts then Err(NotFound) else Ok(s.accounts[uid].cfg)
  }

  /** What SetAdvanceConfig stores, GetAdvanceConfig returns; setting a
      password or configuration keeps the index exact. */
  lemma SetThenGetConfig(s: Store, uid: nat, cfg: Option<AdvanceConfig>, pw: string)
    requires Inv(s)
    ensures SetAdvanceConfig(s, uid, cfg).Ok? ==> GetAdvanceConfig(SetAdvanceConfig(s, uid, cfg).value, uid) == Ok(cfg)
    ensures SetAdvanceConfig(s, uid, cfg).Ok? ==> Inv(SetAdvanceConfig(s, uid, cfg).value)
    ensures SetHashedPassword(s, uid, pw).Ok? ==> Inv(SetHashedPassword(s, uid, pw).value)
  {
  }

  /** RenameAccountName: NotFound for an unknown id; the current name is a
      no-op; a name in use gives AlreadyExists; otherwise the index entry
      moves to the new name. */
  function RenameAccountName(s: Store, uid: nat, newAccountName: string): (r: Result<Store>)
    ensures uid !in s.accounts ==> r == Err(NotFound)
    ensures uid in s.accounts && s.accounts[uid].accountName == newAccountName ==> r == Ok(s)
    ensures Inv(s) && uid in s.accounts && s.accounts[uid].accountName != newAccountName ==>
              ((exists u :: u in s.accounts && s.accounts[u].accountName == newAccountName) <==> r == Err(AlreadyExists))
    ensures r.Ok? ==> r.value.tokens == s.tokens && r.value.accounts.Keys == s.accounts.Keys &&
                      r.value.accounts[uid] == s.accounts[uid].(accountName := newAccountName) &&
                      (forall u :: u in s.accounts && u != uid ==> r.value.accounts[u] == s.accounts[u])
  {
    if uid !in s.accounts then Err(NotFound)
    else
      var ai := s.accounts[uid];
      if ai.accountName == newAccountName then Ok(s)
      else if GetIDFromAccountName(s, newAccountName).Some? then Err(AlreadyExists)
      else Ok(s.(names := (s.names - {ai.accountName})[newAccountName := uid],
                 accounts := s.accounts[uid := ai.(accountName := newAccountName)]))
  }

  /** Renaming keeps the index exact: the old name is free and the new one
      leads to the account. */
  lemma RenameKeepsInv(s: Store, uid: nat, newAccountName: string)
    requires Inv(s)
    ensures var r := RenameAccountName(s, uid, newAccountName);
            r.Ok? ==> Inv(r.value) && GetIDFromAccountName(r.value, newAccountName) == Some(uid)
    ensures var r := RenameAccountName(s, uid, newAccountName);
            r.Ok? && s.accounts[uid].accountName != newAccountName ==> GetIDFromAccountName(r.value, s.accounts[uid].accountName).None?
  {
    var r := RenameAccountName(s, uid, newAccountName);
    if r.Ok? && s.accounts[uid].accountName != newAccountName {
      var t := r.value;
      var was := s.accounts[uid].accountName;
      forall u | u in t.accounts
        ensures t.accounts[u].accountName in t.names && t.names[t.accounts[u].accountName] == u
      {
        if u != uid {
          assert s.accounts[u].accountName != was;
          assert s.accounts[u].accountName != newAccountName;
        }
      }
    }
  }

  datatype User = User(userName: string, userID: nat, createAt: int)

  /** The creation-time filter; a bound that is not positive is absent. */
  predicate InRange(createAt: int, start: int, finish: int) {
    !(start > 0 && createAt < start) && !(finish > 0 && createAt > finish)
  }

  /** ListUsers, visiting the accounts in the map's iteration order. */
  method ListUsers(s: Store, order: seq<nat>, start: int, finish: int) returns (users: seq<User>)
    requires Lists(s.accounts, order)
    requires forall i, j :: 0 <= i < j < |order| ==> order[i] != order[j]
    ensures forall u :: u in users <==>
              exists uid :: uid in s.accounts && InRange(s.accounts[uid].createAt, start, finish) &&
                            u == User(s.accounts[uid].accountName, s.accounts[uid].id, s.accounts[uid].createAt)
  {
    users := [];
    var k := 0;
    while k < |order|
      invariant 0 <= k <= |order|
      invariant forall u :: u in users <==>
                  exists i :: 0 <= i < k && InRange(s.accounts[order[i]].createAt, start, finish) &&
                              u == User(s.accounts[order[i]].accountName, s.accounts[order[i]].id, s.accounts[order[i]].createAt)
    {
      var info := s.accounts[order[k]];
      if InRange(info.createAt, start, finish) {
        users := users + [User(info.accountName, info.id, info.createAt)];
      }
      k := k + 1;
    }
  }

  /** The tokens whose expiry lies before `now`. */
  function Expired(tokens: map<string, TokenInfo>, now: int): set<string> {
    set k | k in tokens && now > tokens[k].expiredAt
  }

  /** cleanExpiredTokenOnSafe: drops every expired token, counts them, and
      records `now` as the time of the last clean. */
  function CleanExpired(s: Store, now: int): (r: (Store, nat))
    ensures r.0.tokens.Keys == s.tokens.Keys - Expired(s.tokens, now)
    ensures forall k :: k in r.0.tokens ==> r.0.tokens[k] == s.tokens[k] && now <= r.0.tokens[k].expiredAt
    ensures r.1 == |Expired(s.tokens, now)|
    ensures r.0.accounts == s.accounts && r.0.names == s.names && r.0.lastClean == now
  {
    var live := Live(s.tokens, now);
    LiveCount(s.tokens, now);
    (s.(tokens := live, lastClean := now), |s.tokens| - |live|)
  }

  /** The tokens that have not expired. */
  function Live(tokens: map<string, TokenInfo>, now: int): (r: map<string, TokenInfo>)
    ensures r.Keys == tokens.Keys - Expired(tokens, now)
    ensures forall k :: k in r ==> r[k] == tokens[k] && now <= r[k].expiredAt
  {
    map k | k in tokens && now <= tokens[k].expiredAt :: tokens[k]
  }

  lemma LiveCount(tokens: map<string, TokenInfo>, now: int)
    ensures |tokens| == |Live(tokens, now)| + |Expired(tokens, now)|
  {
    var live := Live(tokens, now).Keys;
    var gone := Expired(tokens, now);
    assert tokens.Keys == live + gone;
    assert live * gone == {};
    CardSplit(tokens.Keys, live, gone);
  }

  lemma CardSplit<T>(a: set<T>, b: set<T>, c: set<T>)
    requires a == b + c && b * c == {}
    ensures |a| == |b| + |c|
  {
    assert b + c == b + (c - b);
  }

  /** A second clean at the same time finds nothing more to drop. */
  lemma CleanIdempotent(s: Store, now: int)
    ensures var r := CleanExpired(s, now);
            CleanExpired(r.0, now) == (r.0, 0)
  {
    var r := CleanExpired(s, now);
    assert Expired(r.0.tokens, now) == {};
    assert r.0.tokens == CleanExpired(r.0, now).0.tokens;
  }

  /** AddToken: a token already present gives AlreadyExists and the store
      is not cleaned; otherwise the expired tokens are dropped and the new
      one is added. */
  function AddToken(s: Store, token: string, uid: nat, expiredAt: int, now: int): (r: Result<Store>)
    ensures r.Err? <==> token in s.tokens
    ensures r.Err? ==> r.code == AlreadyExists
    ensures r.Ok? ==> r.value.tokens.Keys == s.tokens.Keys - Expired(s.tokens, now) + {token} &&
                      r.value.tokens[token] == TokenInfo(expiredAt, uid) &&
                      r.value.accounts == s.accounts && r.value.names == s.names && r.value.lastClean == now
  {
    if token in s.tokens then Err(AlreadyExists)
    else
      var c := CleanExpired(s, now).0;
      var tokens := c.tokens[token := TokenInfo(expiredAt, uid)];
      assert tokens.Keys == c.tokens.Keys + {token};
      Ok(c.(tokens := tokens))
  }

  /** DelToken: a token not present gives NotFound; otherwise the expired
      tokens are dropped and so is the token. */
  function DelToken(s: Store, token: string, now: int): (r: Result<Store>)
    ensures r.Err? <==> token !in s.tokens
    ensures r.Err? ==> r.code == NotFound
    ensures r.Ok? ==> r.value.tokens.Keys == s.tokens.Keys - Expired(s.tokens, now) - {token} &&
                      r.value.accounts == s.accounts && r.value.names == s.names && r.value.lastClean == now
  {
    if token !in s.tokens then Err(NotFound)
    else
      var c := CleanExpired(s, now).0;
      Ok(c.(tokens := c.tokens - {token}))
  }

  /** A token deleted right after it was added is gone, and every other
      token that has not expired is still there. */
  lemma AddThenDel(s: Store, token: string, uid: nat, expiredAt: int, now: int)
    ensures AddToken(s, token, uid, expiredAt, now).Ok? ==>
              var t := DelToken(AddToken(s, token, uid, expiredAt, now).value, token, now);
              t.Ok? && token !in t.value.tokens &&
              (forall k :: k in s.tokens && k != token && now <= s.tokens[k].expiredAt ==> k in t.value.tokens && t.value.tokens[k] == s.tokens[k])
  {
    var a := AddToken(s, token, uid, expiredAt, now);
    if a.Ok? {
      var t := DelToken(a.value, token, now);
      forall k | k in s.tokens && k != token && now <= s.tokens[k].expiredAt
        ensures k in t.value.tokens && t.value.tokens[k] == s.tokens[k]
      {
        assert k in a.value.tokens;
        assert k !in Expired(a.value.tokens, now);
      }
    }
  }

  /** A value of the dynamic type the token table hands back: the table
      holds token records, never bare times. */
  datatype DynValue = AnyTime(at: int) | AnyTokenInfo(info: TokenInfo)

  /** The checked type assertion to a time. */
  function AsTime(i: DynValue): (r: Option<int>)
    ensures r.Some? <==> i.AnyTime?
  {
    match i
    case AnyTime(t) => Some(t)
    case AnyTokenInfo(_) => None
  }

  /** The renewal step as written: the stored record is asserted to be a
      time, which fails, and the table is left as it was. */
  function RenewAsWritten(tokens: map<string, TokenInfo>, token: string, renewDuration: int): (r: map<string, TokenInfo>)
    ensures token !in tokens ==> r == tokens
  {
    if token !in tokens then tokens
    else match AsTime(AnyTokenInfo(tokens[token]))
      case None => tokens
      case Some(expiredAt) => tokens[token := tokens[token].(expiredAt := expiredAt + renewDuration)]
  }

  /** The renewal step as intended: the record's expiry moves on by the
      renewal duration. */
  function Renew(tokens: map<string, TokenInfo>, token: string, renewDuration: int): (r: map<string, TokenInfo>)
    ensures r.Keys == tokens.Keys
    ensures forall k :: k in tokens && k != token ==> r[k] == tokens[k]
    ensures token in tokens ==> r[token] == tokens[token].(expiredAt := tokens[token].expiredAt + renewDuration)
  {
    if token !in tokens then tokens
    else tokens[token := tokens[token].(expiredAt := tokens[token].expiredAt + renewDuration)]
  }

  /** TokenExists, with the renewal step given: whether the token is in the
      table (expired or not), then, for a positive renewal duration, the
      renewal, then, when more than an hour has passed since the last
      clean, a clean. */
  function TokenExistsWith(s: Store, token: string, renewDuration: int, now: int, renewed: bool): (r: (bool, Store))
    ensures r.0 <==> token in s.tokens
    ensures r.1.accounts == s.accounts && r.1.names == s.names
    ensures r.1.lastClean == (if now - s.lastClean > Hour then now else s.lastClean)
  {
    var exists_ := token in s.tokens;
    var tokens := if exists_ && renewDuration > 0 then
                    (if renewed then Renew(s.tokens, token, renewDuration) else RenewAsWritten(s.tokens, token, renewDuration))
                  else s.tokens;
    var s1 := s.(tokens := tokens);
    (exists_, if now - s.lastClean > Hour then CleanExpired(s1, now).0 else s1)
  }

  /** TokenExists as the source has it. */
  function TokenExists(s: Store, token: string, renewDuration: int, now: int): (r: (bool, Store))
    ensures r.0 <==> token in s.tokens
  {
    TokenExistsWith(s, token, renewDuration, now, false)
  }

  /** TokenExists with the renewal it evidently intends. */
  function TokenExistsRenewing(s: Store, token: string, renewDuration: int, now: int): (r: (bool, Store))
    ensures r.0 <==> token in s.tokens
  {
    TokenExistsWith(s, token, renewDuration, now, true)
  }

  /** As written, no call ever extends a token's expiry: a present token
      keeps its record unless the clean drops it, whatever the renewal
      duration. */
  lemma RenewNeverExtends(s: Store, token: string, renewDuration: int, now: int)
    requires token in s.tokens && renewDuration > 0
    ensures var r := TokenExists(s, token, renewDuration, now).1;
            r.tokens.Keys <= s.tokens.Keys &&
            (forall k :: k in r.tokens ==> r.tokens[k] == s.tokens[k])
    ensures s.lastClean == now ==> TokenExists(s, token, renewDuration, now).1 == s
  {
  }

  /** With the renewal, a present token's expiry moves on by the renewal
      duration, and it survives the call unless even the renewed expiry has
      passed. */
  lemma RenewExtends(s: Store, token: string, renewDuration: int, now: int)
    requires token in s.tokens && renewDuration > 0
    ensures var r := TokenExistsRenewing(s, token, renewDuration, now).1;
            (token in r.tokens <==> (now - s.lastClean > Hour ==> now <= s.tokens[token].expiredAt + renewDuration)) &&
            (token in r.tokens ==> r.tokens[token].expiredAt == s.tokens[token].expiredAt + renewDuration)
  {
  }

  /** The two differ on every present token with a positive renewal: the
      written one leaves its expiry where it was. */
  lemma RenewDiffers(s: Store, token: string, renewDuration: int)
    requires token in s.tokens && renewDuration > 0 && s.lastClean == 0
    ensures TokenExists(s, token, renewDuration, 0).1.tokens[token].expiredAt == s.tokens[token].expiredAt
    ensures TokenExistsRenewing(s, token, renewDuration, 0).1.tokens[token].expiredAt == s.tokens[token].expiredAt + renewDuration
  {
  }
}
