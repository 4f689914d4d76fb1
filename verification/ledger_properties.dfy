/** Properties that relate several calls of the wallet service: the ledger
    invariant every operation preserves (each balance is what the COMPLETED
    journal records say it is, and never negative), conservation of money,
    the journal only ever growing at its end, the transfer check order, and
    scenarios that exercise the service: `HistoryScenario` follows the
    integration test of the history, `FundsScenario` walks a deposit, a
    rejected overdraft and a transfer. */
module LedgerProperties {
  import opened Model
  import opened WalletStore
  import opened TransactionLog
  import opened Accounting
  import opened WalletService

  /** Every wallet a record names is stored. */
  predicate RefersToStored(t: Transaction, wallets: Wallets)
  {
    && (t.sender.Some? ==> t.sender.value in wallets)
    && (t.receiver.Some? ==> t.receiver.value in wallets)
  }

  /** A journaled record moves a positive amount, names only stored
      wallets, and is in the currency of every wallet it names. */
  predicate RecordConsistent(t: Transaction, wallets: Wallets)
  {
    && t.amount > 0
    && RefersToStored(t, wallets)
    && (t.sender.Some? ==> wallets[t.sender.value].currency == t.currency)
    && (t.receiver.Some? ==> wallets[t.receiver.value].currency == t.currency)
  }

  /** Every journaled record is consistent with the stored wallets. */
  predicate JournalConsistent(s: Ledger)
  {
    forall i :: 0 <= i < |s.journal| ==> RecordConsistent(s.journal[i], s.wallets)
  }

  /** Each balance equals the net amount of the COMPLETED records. */
  ghost predicate Balanced(s: Ledger)
  {
    forall w :: w in s.wallets ==> s.wallets[w].balance == NetFlow(s.journal, w)
  }

  /** No wallet is overdrawn. */
  predicate NonNegative(wallets: Wallets)
  {
    forall w :: w in wallets ==> wallets[w].balance >= 0
  }

  /** The ledger invariant. */
  ghost predicate Valid(s: Ledger)
  {
    && NamesUnique(s.wallets)
    && IdsCoherent(s.wallets)
    && IdsAreIndices(s.journal)
    && JournalConsistent(s)
    && Balanced(s)
    && NonNegative(s.wallets)
  }

  /** The ledger a fresh database starts from. */
  lemma EmptyLedgerValid()
    ensures Valid(Ledger(map[], []))
  {
  }

  /** Journaling one more record moves each wallet's net flow by that
      record's effect, and extends its history by the record exactly when
      the record involves it. */
  lemma JournaledOneFacts(before: Journal, after: Journal, last: Transaction, w: WalletId)
    requires JournaledOne(before, after, last)
    ensures after == before + [last]
    ensures NetFlow(after, w) == NetFlow(before, w) + Effect(last, w)
    ensures FindBySenderOrReceiver(after, w)
         == FindBySenderOrReceiver(before, w) + (if Involves(last, w) then [last] else [])
  {
    assert after == after[..|before|] + [after[|before|]];
    NetFlowAppend(before, last, w);
    HistoryAppend(before, last, w);
  }

  /** A record that is not COMPLETED leaves every balance where it is. */
  lemma AppendUnsettledKeepsValid(s: Ledger, s': Ledger, last: Transaction)
    requires Valid(s)
    requires s'.wallets == s.wallets
    requires JournaledOne(s.journal, s'.journal, last)
    requires last.id == |s.journal| && last.status != COMPLETED
    requires RecordConsistent(last, s.wallets)
    ensures Valid(s')
  {
    forall w | w in s'.wallets
      ensures s'.wallets[w].balance == NetFlow(s'.journal, w)
    {
      JournaledOneFacts(s.journal, s'.journal, last, w);
    }
    assert s'.journal == s.journal + [last] by {
      JournaledOneFacts(s.journal, s'.journal, last, 0);
    }
  }

  /** Creating a wallet keeps the invariant, given a fresh id. */
  lemma CreatePreservesValid(s: Ledger, req: CreateRequest, newId: WalletId)
    requires Valid(s) && newId !in s.wallets
    ensures Valid(Create(s, req, newId).ledger)
  {
    var o := Create(s, req, newId);
    if o.result.Ok? {
      forall i | 0 <= i < |s.journal|
        ensures !Involves(s.journal[i], newId)
      {
        assert RefersToStored(s.journal[i], s.wallets);
      }
      NetFlowUninvolved(s.journal, newId);
      forall i | 0 <= i < |o.ledger.journal|
        ensures RecordConsistent(o.ledger.journal[i], o.ledger.wallets)
      {
        assert RecordConsistent(s.journal[i], s.wallets);
      }
    }
  }

  /** A COMPLETED record that moves each balance by exactly its effect, and
      leaves every name and currency alone, keeps the invariant as long as no
      balance goes negative. */
  lemma AppendSettledKeepsValid(s: Ledger, s': Ledger, last: Transaction)
    requires Valid(s)
    requires JournaledOne(s.journal, s'.journal, last)
    requires last.id == |s.journal| && RecordConsistent(last, s.wallets)
    requires s'.wallets.Keys == s.wallets.Keys
    requires forall w :: w in s.wallets ==>
               s'.wallets[w] == s.wallets[w].(balance := s.wallets[w].balance + Effect(last, w))
    requires NonNegative(s'.wallets)
    ensures Valid(s')
  {
    forall w | w in s'.wallets
      ensures s'.wallets[w].balance == NetFlow(s'.journal, w)
    {
      JournaledOneFacts(s.journal, s'.journal, last, w);
    }
    assert s'.journal == s.journal + [last] by {
      JournaledOneFacts(s.journal, s'.journal, last, 0);
    }
  }

  /** A deposit keeps the invariant: on success the wallet's balance and its
      net flow both grow by the amount. */
  lemma DepositPreservesValid(s: Ledger, req: DepositRequest, fault: bool)
    requires Valid(s) && req.amount > 0
    ensures Valid(Deposit(s, req, fault).ledger)
  {
    var o := Deposit(s, req, fault);
    if o.ledger != s {
      var last := o.ledger.journal[|s.journal|];
      if o.result.Ok? {
        AppendSettledKeepsValid(s, o.ledger, last);
      } else {
        AppendUnsettledKeepsValid(s, o.ledger, last);
      }
    }
  }

  /** A withdrawal keeps the invariant, including on the path that leaves a
      PENDING record behind; the strict funds check keeps balances >= 0. */
  lemma WithdrawPreservesValid(s: Ledger, req: WithdrawRequest, fault: bool)
    requires Valid(s) && req.amount > 0
    ensures Valid(Withdraw(s, req, fault).ledger)
  {
    var o := Withdraw(s, req, fault);
    if o.ledger != s {
      var last := o.ledger.journal[|s.journal|];
      if o.result.Ok? {
        AppendSettledKeepsValid(s, o.ledger, last);
      } else {
        AppendUnsettledKeepsValid(s, o.ledger, last);
      }
    }
  }

  /** A transfer keeps the invariant: the receiver's balance and net flow
      grow by the amount, the sender's shrink by it. */
  lemma TransferPreservesValid(s: Ledger, req: TransferRequest, fault: bool)
    requires Valid(s) && req.amount > 0
    ensures Valid(Transfer(s, req, fault).ledger)
  {
    var o := Transfer(s, req, fault);
    if o.ledger != s {
      var last := o.ledger.journal[|s.journal|];
      if o.result.Ok? {
        assert IsTransferRecord(last, req, |s.journal|, COMPLETED);
        assert req.senderWalletId != req.receiverWalletId;
        AppendSettledKeepsValid(s, o.ledger, last);
      } else {
        AppendUnsettledKeepsValid(s, o.ledger, last);
      }
    }
  }

  /** A transfer never creates or destroys money: the total over all wallets
      is the same after it, whatever it returns. */
  lemma TransferConservesTotal(s: Ledger, req: TransferRequest, fault: bool)
    requires req.amount > 0
    ensures Total(Transfer(s, req, fault).ledger.wallets) == Total(s.wallets)
  {
    var o := Transfer(s, req, fault);
    if o.result.Ok? {
      var r, snd := req.receiverWalletId, req.senderWalletId;
      var mid := s.wallets[r := s.wallets[r].(balance := s.wallets[r].balance + req.amount)];
      assert BalanceMoved(s.wallets, mid, r, req.amount);
      assert BalanceMoved(mid, o.ledger.wallets, snd, -req.amount);
      TotalAfterMove(s.wallets, mid, r, req.amount);
      TotalAfterMove(mid, o.ledger.wallets, snd, -req.amount);
    }
  }

  /** A deposit adds exactly its amount to the money held, or nothing. */
  lemma DepositTotal(s: Ledger, req: DepositRequest, fault: bool)
    requires req.amount > 0
    ensures var o := Deposit(s, req, fault);
            Total(o.ledger.wallets) == Total(s.wallets) + (if o.result.Ok? then req.amount else 0)
  {
    var o := Deposit(s, req, fault);
    if o.result.Ok? {
      TotalAfterMove(s.wallets, o.ledger.wallets, req.walletId, req.amount);
    }
  }

  /** A withdrawal removes exactly its amount from the money held, or nothing. */
  lemma WithdrawTotal(s: Ledger, req: WithdrawRequest, fault: bool)
    requires req.amount > 0
    ensures var o := Withdraw(s, req, fault);
            Total(o.ledger.wallets) == Total(s.wallets) - (if o.result.Ok? then req.amount else 0)
  {
    var o := Withdraw(s, req, fault);
    if o.result.Ok? {
      TotalAfterMove(s.wallets, o.ledger.wallets, req.walletId, -req.amount);
    }
  }

  /** The journal only grows at its end: no operation rewrites, reorders or
      drops a record already journaled, so a record's status never moves
      once its own operation has returned. */
  predicate JournalExtends(before: Journal, after: Journal)
  {
    && |before| <= |after| <= |before| + 1
    && after[..|before|] == before
  }

  lemma OperationsOnlyAppend(s: Ledger, c: CreateRequest, newId: WalletId, d: DepositRequest,
                             wr: WithdrawRequest, t: TransferRequest, fault: bool)
    requires newId !in s.wallets && d.amount > 0 && wr.amount > 0 && t.amount > 0
    ensures JournalExtends(s.journal, Create(s, c, newId).ledger.journal)
    ensures JournalExtends(s.journal, Deposit(s, d, fault).ledger.journal)
    ensures JournalExtends(s.journal, Withdraw(s, wr, fault).ledger.journal)
    ensures JournalExtends(s.journal, Transfer(s, t, fault).ledger.journal)
  {
  }

  /** Same-wallet rejection happens before any lookup: its outcome does not
      depend on what the ledger holds. */
  lemma SameWalletIgnoresLedger(s1: Ledger, s2: Ledger, req: TransferRequest, f1: bool, f2: bool)
    requires req.amount > 0 && req.senderWalletId == req.receiverWalletId
    ensures Transfer(s1, req, f1).result == Transfer(s2, req, f2).result
    ensures Transfer(s1, req, f1).ledger == s1
  {
  }

  /** Nothing is journaled until every lookup and currency check passes. */
  lemma TransferChecksPrecedeJournal(s: Ledger, req: TransferRequest, fault: bool)
    requires req.amount > 0 && !TransferChecksPass(s, req)
    ensures Transfer(s, req, fault).ledger == s
    ensures Transfer(s, req, fault).result.Err?
  {
  }

  /** Applying the same fault-free deposit `n` times. */
  function DepositRepeatedly(s: Ledger, req: DepositRequest, n: nat): (r: Ledger)
    requires req.amount > 0
  {
    if n == 0 then s else Deposit(DepositRepeatedly(s, req, n - 1), req, false).ledger
  }

  /** `n` deposits of the same amount add up to `n` times the amount, and
      journal `n` records, whatever the wallet's starting balance. */
  lemma {:induction false} RepeatedDeposits(s: Ledger, req: DepositRequest, n: nat)
    requires req.amount > 0
    requires req.walletId in s.wallets && s.wallets[req.walletId].currency == req.currency
    ensures var s' := DepositRepeatedly(s, req, n);
            && req.walletId in s'.wallets
            && s'.wallets[req.walletId].balance == s.wallets[req.walletId].balance + n * req.amount
            && s'.wallets[req.walletId].currency == req.currency
            && |s'.journal| == |s.journal| + n
  {
    if n > 0 {
      RepeatedDeposits(s, req, n - 1);
    }
  }

  /** A deposit followed by a withdrawal of the same amount leaves every
      balance as it was, and journals two COMPLETED records. */
  lemma DepositThenWithdrawRestores(s: Ledger, id: WalletId, amount: int, acct: string, bank: string)
    requires amount > 0 && id in s.wallets && s.wallets[id].balance >= 0
    ensures var c := s.wallets[id].currency;
            var d := Deposit(s, DepositRequest(id, c, acct, bank, amount), false);
            var w := Withdraw(d.ledger, WithdrawRequest(id, c, acct, bank, amount), false);
            && d.result.Ok? && w.result.Ok?
            && w.ledger.wallets == s.wallets
            && |w.ledger.journal| == |s.journal| + 2
  {
    var c := s.wallets[id].currency;
    var d := Deposit(s, DepositRequest(id, c, acct, bank, amount), false);
    var w := Withdraw(d.ledger, WithdrawRequest(id, c, acct, bank, amount), false);
    assert w.ledger.wallets[id] == s.wallets[id];
  }

  /** A created wallet can be fetched back by its id, unchanged. */
  lemma CreateThenGet(s: Ledger, req: CreateRequest, newId: WalletId)
    requires newId !in s.wallets && !ExistsByName(s.wallets, req.name)
    ensures var o := Create(s, req, newId);
            o.result.Ok? && Get(o.ledger, newId) == Ok(o.result.value)
            && o.result.value.balance == 0 && o.result.value.name == req.name
  {
  }

  /** The service test's history walk: after a deposit, a withdrawal and an
      outgoing transfer on wallet 1, its history holds three records. */
  lemma HistoryScenario()
    ensures var s0 := Ledger(map[1 := Wallet(1, "Wallet1", EUR, 0), 2 := Wallet(2, "Wallet2", EUR, 0)], []);
            var s1 := Deposit(s0, DepositRequest(1, EUR, "1234567890", "1234", 100), false).ledger;
            var s2 := Withdraw(s1, WithdrawRequest(1, EUR, "1234567890", "1234", 50), false).ledger;
            var s3 := Transfer(s2, TransferRequest(1, 2, EUR, 30), false).ledger;
            && |GetTransactionHistory(s3, 1)| == 3
            && s3.wallets[1].balance == 20 && s3.wallets[2].balance == 30
  {
    var s0 := Ledger(map[1 := Wallet(1, "Wallet1", EUR, 0), 2 := Wallet(2, "Wallet2", EUR, 0)], []);
    var o1 := Deposit(s0, DepositRequest(1, EUR, "1234567890", "1234", 100), false);
    var o2 := Withdraw(o1.ledger, WithdrawRequest(1, EUR, "1234567890", "1234", 50), false);
    var o3 := Transfer(o2.ledger, TransferRequest(1, 2, EUR, 30), false);
    JournaledOneFacts(s0.journal, o1.ledger.journal, o1.result.value, 1);
    JournaledOneFacts(o1.ledger.journal, o2.ledger.journal, o2.result.value, 1);
    JournaledOneFacts(o2.ledger.journal, o3.ledger.journal, o3.result.value, 1);
  }

  /** Deposit 100 into an empty EUR wallet, fail to withdraw 150 (the balance
      stays 100 and a PENDING record remains), create a second EUR wallet and
      transfer 50 to it: both end at 50. */
  lemma FundsScenario()
    ensures var s0 := Ledger(map[7 := Wallet(7, "W", EUR, 0)], []);
            var d := Deposit(s0, DepositRequest(7, EUR, "1234567890", "1234", 100), false);
            var w := Withdraw(d.ledger, WithdrawRequest(7, EUR, "1234567890", "1234", 150), false);
            var c := Create(w.ledger, CreateRequest("X", EUR), 8);
            var t := Transfer(c.ledger, TransferRequest(7, 8, EUR, 50), false);
            && d.result.Ok? && d.result.value.status == COMPLETED && d.ledger.wallets[7].balance == 100
            && w.result == Err(WithdrawNotEnoughFunds(150, 100))
            && w.ledger.wallets[7].balance == 100 && w.ledger.journal[1].status == PENDING
            && c.result.Ok?
            && t.result.Ok? && t.result.value.status == COMPLETED
            && t.ledger.wallets[7].balance == 50 && t.ledger.wallets[8].balance == 50
  {
    var s0 := Ledger(map[7 := Wallet(7, "W", EUR, 0)], []);
    var d := Deposit(s0, DepositRequest(7, EUR, "1234567890", "1234", 100), false);
    var w := Withdraw(d.ledger, WithdrawRequest(7, EUR, "1234567890", "1234", 150), false);
    assert !ExistsByName(w.ledger.wallets, "X") by {
      assert w.ledger.wallets.Keys == {7};
      assert w.ledger.wallets[7].name == "W";
    }
  }
}
