/** What the journal says each wallet should hold: only COMPLETED records
    move money; a record credits its receiver and debits its sender by its
    amount. Also the total of all balances, for conservation. */
module Accounting {
  import opened Model
  import opened WalletStore
  import opened TransactionLog

  /** How much record `t` moves into wallet `w` (negative when out of it). */
  function Effect(t: Transaction, w: WalletId): (r: int)
  {
    if t.status != COMPLETED then 0
    else (if t.receiver == Some(w) then t.amount else 0) - (if t.sender == Some(w) then t.amount else 0)
  }

  /** The net amount the whole journal moves into wallet `w`. */
  function NetFlow(log: Journal, w: WalletId): (r: int)
  {
    if |log| == 0 then 0 else Effect(log[0], w) + NetFlow(log[1..], w)
  }

  /** Journaling one more record adds exactly that record's effect. */
  lemma {:induction false} NetFlowAppend(log: Journal, t: Transaction, w: WalletId)
    ensures NetFlow(log + [t], w) == NetFlow(log, w) + Effect(t, w)
  {
    if |log| == 0 {
      assert log + [t] == [t];
      assert [t][1..] == [];
    } else {
      assert (log + [t])[0] == log[0];
      assert (log + [t])[1..] == log[1..] + [t];
      NetFlowAppend(log[1..], t, w);
    }
  }

  /** A journal none of whose records involve `w` moves nothing for it. */
  lemma {:induction false} NetFlowUninvolved(log: Journal, w: WalletId)
    requires forall i :: 0 <= i < |log| ==> !Involves(log[i], w)
    ensures NetFlow(log, w) == 0
  {
    if |log| != 0 {
      assert !Involves(log[0], w);
      assert forall i :: 0 <= i < |log[1..]| ==> log[1..][i] == log[i + 1];
      NetFlowUninvolved(log[1..], w);
    }
  }

  /** The sum of the balances of the wallets stored under `keys`. */
  ghost function SumBalances(wallets: Wallets, keys: set<WalletId>): (r: int)
    requires keys <= wallets.Keys
    decreases keys
  {
    if keys == {} then 0
    else
      var k :| k in keys;
      wallets[k].balance + SumBalances(wallets, keys - {k})
  }

  /** The money held by all wallets together. */
  ghost function Total(wallets: Wallets): (r: int)
  {
    SumBalances(wallets, wallets.Keys)
  }

  /** Any stored key may be taken out of the sum first, whichever one the
      definition happens to pick. */
  lemma {:induction false} SumBalancesRemove(wallets: Wallets, keys: set<WalletId>, k: WalletId)
    requires keys <= wallets.Keys && k in keys
    ensures SumBalances(wallets, keys) == wallets[k].balance + SumBalances(wallets, keys - {k})
    decreases keys
  {
    var j :| j in keys && SumBalances(wallets, keys) == wallets[j].balance + SumBalances(wallets, keys - {j});
    if j != k {
      SumBalancesRemove(wallets, keys - {j}, k);
      SumBalancesRemove(wallets, keys - {k}, j);
      assert keys - {j} - {k} == keys - {k} - {j};
    }
  }

  /** Two maps that agree on the balances of `keys` have the same sum there. */
  lemma {:induction false} SumBalancesAgree(a: Wallets, b: Wallets, keys: set<WalletId>)
    requires keys <= a.Keys && keys <= b.Keys
    requires forall k :: k in keys ==> a[k].balance == b[k].balance
    ensures SumBalances(a, keys) == SumBalances(b, keys)
    decreases keys
  {
    if keys != {} {
      var k :| k in keys && SumBalances(a, keys) == a[k].balance + SumBalances(a, keys - {k});
      SumBalancesRemove(b, keys, k);
      SumBalancesAgree(a, b, keys - {k});
    }
  }

  /** Moving one wallet's balance by `delta` moves the total by `delta`. */
  lemma TotalAfterMove(before: Wallets, after: Wallets, id: WalletId, delta: int)
    requires BalanceMoved(before, after, id, delta)
    ensures Total(after) == Total(before) + delta
  {
    var rest := before.Keys - {id};
    SumBalancesRemove(before, before.Keys, id);
    SumBalancesRemove(after, after.Keys, id);
    SumBalancesAgree(before, after, rest);
  }
}
