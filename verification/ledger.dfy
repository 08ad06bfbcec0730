/** The locker ledger invariant: an account hash keeps one total field
    equal to the sum of its other (lock key) fields. */
module Ledger {
  import opened Sums

  type Hash = map<string, int>

  /** The coins a locker account holds outside its total field. */
  ghost function Locked(h: Hash, total: string): int {
    MapSum(h - {total})
  }

  /** The `total` field of a locker account equals the sum of its other fields. */
  ghost predicate Balanced(h: Hash, total: string) {
    Get0(h, total) == Locked(h, total)
  }

  lemma TotalDropped(h: Hash, total: string, w: int)
    ensures h[total := w] - {total} == h - {total}
  {
  }

  lemma KeyWriteCommutes(h: Hash, total: string, id: string, v: int)
    requires id != total
    ensures h[id := v] - {total} == (h - {total})[id := v]
  {
  }

  lemma KeyDeleteCommutes(h: Hash, total: string, id: string)
    ensures (h - {id}) - {total} == (h - {total}) - {id}
  {
  }

  /** Writing the total field leaves the locked coins alone. */
  lemma WriteTotal(h: Hash, total: string, w: int)
    ensures Locked(h[total := w], total) == Locked(h, total)
    ensures Get0(h[total := w], total) == w
  {
    TotalDropped(h, total, w);
  }

  /** Writing a lock key moves the locked coins by the key's change. */
  lemma WriteKey(h: Hash, total: string, id: string, v: int)
    requires id != total
    ensures Locked(h[id := v], total) == Locked(h, total) + v - Get0(h, id)
  {
    KeyWriteCommutes(h, total, id, v);
    MapSumUpdate(h - {total}, id, v);
  }

  /** Deleting a lock key takes its coins out of the locked coins. */
  lemma DeleteKey(h: Hash, total: string, id: string)
    requires id != total && id in h
    ensures Locked(h - {id}, total) == Locked(h, total) - h[id]
  {
    KeyDeleteCommutes(h, total, id);
    MapSumDelete(h - {total}, id);
  }

  /** Writing a lock key and moving the total by the same change keeps an
      account balanced; `h2` is the account after both writes. */
  lemma SetStep(h: Hash, h2: Hash, total: string, id: string, v: int)
    requires id != total && Balanced(h, total)
    requires h2 == h[id := v][total := Get0(h, total) + v - Get0(h, id)]
    ensures Balanced(h2, total)
    ensures Locked(h2, total) == Locked(h, total) + v - Get0(h, id)
  {
    WriteKey(h, total, id, v);
    WriteTotal(h[id := v], total, Get0(h, total) + v - Get0(h, id));
  }

  /** Deleting a lock key and taking its coins off the total keeps an
      account balanced; `h2` is the account after both writes. */
  lemma DelStep(h: Hash, h2: Hash, total: string, id: string)
    requires id != total && id in h && Balanced(h, total)
    requires h2 == (h - {id})[total := Get0(h, total) - h[id]]
    ensures Balanced(h2, total)
    ensures Locked(h2, total) == Locked(h, total) - h[id]
  {
    DeleteKey(h, total, id);
    WriteTotal(h - {id}, total, Get0(h, total) - h[id]);
  }

  /** Moving a key's coins from one balanced account onto a key of another
      keeps both balanced and the pair's locked coins unchanged. */
  lemma MoveStep(hf: Hash, ht: Hash, tf: Hash, tt: Hash, total: string, fromId: string, toId: string)
    requires fromId != total && toId != total && fromId in hf
    requires Balanced(hf, total) && Balanced(ht, total)
    requires tf == (hf - {fromId})[total := Get0(hf, total) - hf[fromId]]
    requires tt == ht[toId := Get0(ht, toId) + hf[fromId]][total := Get0(ht, total) + hf[fromId]]
    ensures Balanced(tf, total) && Balanced(tt, total)
    ensures Locked(tf, total) + Locked(tt, total) == Locked(hf, total) + Locked(ht, total)
  {
    DelStep(hf, tf, total, fromId);
    SetStep(ht, tt, total, toId, Get0(ht, toId) + hf[fromId]);
  }

  /** Paying `coins` out of a wallet hash onto a key of a balanced locker
      account keeps the locker balanced and the coins in the two unchanged. */
  lemma PayInStep(hw: Hash, ht: Hash, tw: Hash, tt: Hash, total: string, account: string, toId: string, coins: int)
    requires toId != total && Balanced(ht, total)
    requires tw == hw[account := Get0(hw, account) - coins]
    requires tt == ht[toId := Get0(ht, toId) + coins][total := Get0(ht, total) + coins]
    ensures Balanced(tt, total)
    ensures MapSum(tw) + Locked(tt, total) == MapSum(hw) + Locked(ht, total)
  {
    var v := Get0(ht, toId) + coins;
    assert Get0(ht, total) + v - Get0(ht, toId) == Get0(ht, total) + coins;
    SetStep(ht, tt, total, toId, v);
    WalletPays(hw, tw, account, coins);
  }

  /** Taking `coins` off one wallet field takes them off the wallet's sum. */
  lemma WalletPays(hw: Hash, tw: Hash, account: string, coins: int)
    requires tw == hw[account := Get0(hw, account) - coins]
    ensures MapSum(tw) == MapSum(hw) - coins
  {
    MapSumUpdate(hw, account, Get0(hw, account) - coins);
  }
}
