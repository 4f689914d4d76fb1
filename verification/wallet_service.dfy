/** The wallet service: creation with a unique-name check, lookup by id,
    deposit, withdraw and transfer, and the per-wallet transaction history.

    Each state-changing operation takes the ledger and returns an Outcome:
    the ledger as the call leaves it, and either the returned value or the
    error it raises. The `fault` parameter stands for the persistence layer
    throwing inside the guarded balance update; the record is then marked
    FAILED and no balance changes.

    Ordering hazard, kept as the code has it: withdraw and transfer journal
    the PENDING record BEFORE checking funds, so a rejected withdrawal or
    transfer leaves its record in the journal, still PENDING. */
module WalletService {
  import opened Model
  import opened WalletStore
  import opened TransactionLog

  /** `t` is the record a deposit of `req` journals as record `id`. */
  predicate IsDepositRecord(t: Transaction, req: DepositRequest, id: TransactionId, status: TransactionStatus)
  {
    && t.id == id && t.kind == DEPOSIT && t.status == status
    && t.sender == None && t.receiver == Some(req.walletId)
    && t.currency == req.currency && t.amount == req.amount
    && t.accountNumber == Some(req.accountNumber) && t.bankCode == Some(req.bankCode)
  }

  /** `t` is the record a withdrawal of `req` journals as record `id`. */
  predicate IsWithdrawRecord(t: Transaction, req: WithdrawRequest, id: TransactionId, status: TransactionStatus)
  {
    && t.id == id && t.kind == WITHDRAWAL && t.status == status
    && t.sender == Some(req.walletId) && t.receiver == None
    && t.currency == req.currency && t.amount == req.amount
    && t.accountNumber == Some(req.accountNumber) && t.bankCode == Some(req.bankCode)
  }

  /** `t` is the record a transfer of `req` journals as record `id`. */
  predicate IsTransferRecord(t: Transaction, req: TransferRequest, id: TransactionId, status: TransactionStatus)
  {
    && t.id == id && t.kind == TRANSFER && t.status == status
    && t.sender == Some(req.senderWalletId) && t.receiver == Some(req.receiverWalletId)
    && t.currency == req.currency && t.amount == req.amount
    && t.accountNumber == None && t.bankCode == None
  }

  /** `after` is `before` with exactly one more record, which is `last`. */
  predicate JournaledOne(before: Journal, after: Journal, last: Transaction)
  {
    && |after| == |before| + 1
    && after[..|before|] == before
    && after[|before|] == last
  }

  /** Creates a wallet named `req.name` with a zero balance, unless some
      wallet already has that name. `newId` stands for the generated id. */
  function Create(s: Ledger, req: CreateRequest, newId: WalletId): (o: Outcome<Wallet>)
    requires newId !in s.wallets
    ensures o.result.Err? <==> ExistsByName(s.wallets, req.name)
    ensures o.result.Err? ==> o == Outcome(s, Err(NameAlreadyExists(req.name)))
    ensures o.result.Ok? ==>
              && o.result.value == Wallet(newId, req.name, req.currency, 0)
              && o.ledger.wallets.Keys == s.wallets.Keys + {newId}
              && o.ledger.wallets[newId] == o.result.value
              && (forall k :: k in s.wallets ==> o.ledger.wallets[k] == s.wallets[k])
              && o.ledger.journal == s.journal
  {
    if ExistsByName(s.wallets, req.name) then
      Outcome(s, Err(NameAlreadyExists(req.name)))
    else
      var wallet := Wallet(newId, req.name, req.currency, 0);
      Outcome(Ledger(Save(s.wallets, newId, wallet), s.journal), Ok(wallet))
  }

  /** The stored wallet with this id, or WalletNotFound. */
  function Get(s: Ledger, walletId: WalletId): (r: Result<Wallet>)
    ensures r.Ok? <==> walletId in s.wallets
    ensures r.Ok? ==> r.value == s.wallets[walletId]
    ensures r.Err? ==> r.error == WalletNotFound(walletId)
  {
    match FindById(s.wallets, walletId)
    case Some(w) => Ok(w)
    case None => Err(WalletNotFound(walletId))
  }

  /** Deposits `req.amount` into wallet `req.walletId`. */
  function Deposit(s: Ledger, req: DepositRequest, fault: bool): (o: Outcome<Transaction>)
    requires req.amount > 0
    ensures o.result.Ok? <==>
              req.walletId in s.wallets && s.wallets[req.walletId].currency == req.currency && !fault
    ensures req.walletId !in s.wallets ==> o == Outcome(s, Err(WalletNotFound(req.walletId)))
    ensures req.walletId in s.wallets && s.wallets[req.walletId].currency != req.currency ==>
              o == Outcome(s, Err(DepositCurrencyMismatch(req.currency, s.wallets[req.walletId].currency)))
    ensures o.result.Ok? ==>
              && BalanceMoved(s.wallets, o.ledger.wallets, req.walletId, req.amount)
              && JournaledOne(s.journal, o.ledger.journal, o.result.value)
              && IsDepositRecord(o.result.value, req, |s.journal|, COMPLETED)
    ensures req.walletId in s.wallets && s.wallets[req.walletId].currency == req.currency && fault ==>
              && o.result == Err(DepositFailed(req.walletId))
              && o.ledger.wallets == s.wallets
              && |o.ledger.journal| == |s.journal| + 1
              && JournaledOne(s.journal, o.ledger.journal, o.ledger.journal[|s.journal|])
              && IsDepositRecord(o.ledger.journal[|s.journal|], req, |s.journal|, FAILED)
  {
    match FindById(s.wallets, req.walletId)
    case None => Outcome(s, Err(WalletNotFound(req.walletId)))
    case Some(wallet) =>
      if wallet.currency != req.currency then
        Outcome(s, Err(DepositCurrencyMismatch(req.currency, wallet.currency)))
      else
        var draft := Transaction(0, None, Some(req.walletId), req.currency,
                                 Some(req.accountNumber), Some(req.bankCode), req.amount, DEPOSIT, PENDING);
        var (journal, txId) := Append(s.journal, draft);
        if fault then
          Outcome(Ledger(s.wallets, UpdateStatus(journal, txId, FAILED)), Err(DepositFailed(req.walletId)))
        else
          var wallets := Save(s.wallets, req.walletId, wallet.(balance := wallet.balance + req.amount));
          var journal' := UpdateStatus(journal, txId, COMPLETED);
          Outcome(Ledger(wallets, journal'), Ok(journal'[txId]))
  }

  /** Withdraws `req.amount` from wallet `req.walletId`. The funds check is
      strict: exactly the balance may be withdrawn. */
  function Withdraw(s: Ledger, req: WithdrawRequest, fault: bool): (o: Outcome<Transaction>)
    requires req.amount > 0
    ensures o.result.Ok? <==>
              && req.walletId in s.wallets && s.wallets[req.walletId].currency == req.currency
              && req.amount <= s.wallets[req.walletId].balance && !fault
    ensures req.walletId !in s.wallets ==> o == Outcome(s, Err(WalletNotFound(req.walletId)))
    ensures req.walletId in s.wallets && s.wallets[req.walletId].currency != req.currency ==>
              o == Outcome(s, Err(WithdrawCurrencyMismatch(req.currency, s.wallets[req.walletId].currency)))
    ensures req.walletId in s.wallets && s.wallets[req.walletId].currency == req.currency
            && req.amount > s.wallets[req.walletId].balance ==>
              && o.result == Err(WithdrawNotEnoughFunds(req.amount, s.wallets[req.walletId].balance))
              && o.ledger.wallets == s.wallets
              && |o.ledger.journal| == |s.journal| + 1
              && JournaledOne(s.journal, o.ledger.journal, o.ledger.journal[|s.journal|])
              && IsWithdrawRecord(o.ledger.journal[|s.journal|], req, |s.journal|, PENDING)
    ensures o.result.Ok? ==>
              && BalanceMoved(s.wallets, o.ledger.wallets, req.walletId, -req.amount)
              && (s.wallets[req.walletId].balance >= 0 ==> o.ledger.wallets[req.walletId].balance >= 0)
              && JournaledOne(s.journal, o.ledger.journal, o.result.value)
              && IsWithdrawRecord(o.result.value, req, |s.journal|, COMPLETED)
    ensures req.walletId in s.wallets && s.wallets[req.walletId].currency == req.currency
            && req.amount <= s.wallets[req.walletId].balance && fault ==>
              && o.result == Err(WithdrawFailed(req.walletId))
              && o.ledger.wallets == s.wallets
              && |o.ledger.journal| == |s.journal| + 1
              && JournaledOne(s.journal, o.ledger.journal, o.ledger.journal[|s.journal|])
              && IsWithdrawRecord(o.ledger.journal[|s.journal|], req, |s.journal|, FAILED)
  {
    match FindById(s.wallets, req.walletId)
    case None => Outcome(s, Err(WalletNotFound(req.walletId)))
    case Some(wallet) =>
      if wallet.currency != req.currency then
        Outcome(s, Err(WithdrawCurrencyMismatch(req.currency, wallet.currency)))
      else
        var draft := Transaction(0, Some(req.walletId), None, req.currency,
                                 Some(req.accountNumber), Some(req.bankCode), req.amount, WITHDRAWAL, PENDING);
        var (journal, txId) := Append(s.journal, draft);
        // The PENDING record is already journaled when the funds check fails.
        if req.amount > wallet.balance then
          Outcome(Ledger(s.wallets, journal), Err(WithdrawNotEnoughFunds(req.amount, wallet.balance)))
        else if fault then
          Outcome(Ledger(s.wallets, UpdateStatus(journal, txId, FAILED)), Err(WithdrawFailed(req.walletId)))
        else
          var wallets := Save(s.wallets, req.walletId, wallet.(balance := wallet.balance - req.amount));
          var journal' := UpdateStatus(journal, txId, COMPLETED);
          Outcome(Ledger(wallets, journal'), Ok(journal'[txId]))
  }

  /** Every lookup and currency check of a transfer passes. */
  predicate TransferChecksPass(s: Ledger, req: TransferRequest)
  {
    && req.senderWalletId != req.receiverWalletId
    && req.receiverWalletId in s.wallets && req.senderWalletId in s.wallets
    && s.wallets[req.receiverWalletId].currency == req.currency
    && s.wallets[req.senderWalletId].currency == req.currency
  }

  /** Moves `req.amount` from the sender wallet to the receiver wallet. The
      checks run in a fixed order: same wallet (before any lookup), receiver
      lookup, sender lookup, receiver currency, sender currency, then the
      PENDING record is journaled, then the sender's funds are checked. */
  function Transfer(s: Ledger, req: TransferRequest, fault: bool): (o: Outcome<Transaction>)
    requires req.amount > 0
    ensures o.result.Ok? <==>
              TransferChecksPass(s, req) && req.amount <= s.wallets[req.senderWalletId].balance && !fault
    ensures req.senderWalletId == req.receiverWalletId ==>
              o == Outcome(s, Err(TransferSameWallet(req.receiverWalletId)))
    ensures req.senderWalletId != req.receiverWalletId && req.receiverWalletId !in s.wallets ==>
              o == Outcome(s, Err(WalletNotFound(req.receiverWalletId)))
    ensures req.senderWalletId != req.receiverWalletId && req.receiverWalletId in s.wallets
            && req.senderWalletId !in s.wallets ==>
              o == Outcome(s, Err(WalletNotFound(req.senderWalletId)))
    ensures req.senderWalletId != req.receiverWalletId
            && req.receiverWalletId in s.wallets && req.senderWalletId in s.wallets
            && s.wallets[req.receiverWalletId].currency != req.currency ==>
              o == Outcome(s, Err(TransferCurrencyMismatch(req.currency, s.wallets[req.receiverWalletId].currency)))
    ensures req.senderWalletId != req.receiverWalletId
            && req.receiverWalletId in s.wallets && req.senderWalletId in s.wallets
            && s.wallets[req.receiverWalletId].currency == req.currency
            && s.wallets[req.senderWalletId].currency != req.currency ==>
              o == Outcome(s, Err(TransferCurrencyMismatch(req.currency, s.wallets[req.senderWalletId].currency)))
    ensures TransferChecksPass(s, req) && req.amount > s.wallets[req.senderWalletId].balance ==>
              && o.result == Err(TransferNotEnoughFunds(req.amount, s.wallets[req.senderWalletId].balance))
              && o.ledger.wallets == s.wallets
              && |o.ledger.journal| == |s.journal| + 1
              && JournaledOne(s.journal, o.ledger.journal, o.ledger.journal[|s.journal|])
              && IsTransferRecord(o.ledger.journal[|s.journal|], req, |s.journal|, PENDING)
    ensures o.result.Ok? ==>
              var (before, after) := (s.wallets, o.ledger.wallets);
              && after.Keys == before.Keys
              && after[req.receiverWalletId] == before[req.receiverWalletId].(balance := before[req.receiverWalletId].balance + req.amount)
              && after[req.senderWalletId] == before[req.senderWalletId].(balance := before[req.senderWalletId].balance - req.amount)
              && after[req.receiverWalletId].balance + after[req.senderWalletId].balance
                 == before[req.receiverWalletId].balance + before[req.senderWalletId].balance
              && (forall k :: k in before && k != req.senderWalletId && k != req.receiverWalletId ==> after[k] == before[k])
              && JournaledOne(s.journal, o.ledger.journal, o.result.value)
              && IsTransferRecord(o.result.value, req, |s.journal|, COMPLETED)
    ensures TransferChecksPass(s, req) && req.amount <= s.wallets[req.senderWalletId].balance && fault ==>
              && o.result == Err(TransferFailed(req.senderWalletId, req.receiverWalletId))
              && o.ledger.wallets == s.wallets
              && |o.ledger.journal| == |s.journal| + 1
              && JournaledOne(s.journal, o.ledger.journal, o.ledger.journal[|s.journal|])
              && IsTransferRecord(o.ledger.journal[|s.journal|], req, |s.journal|, FAILED)
  {
    if req.receiverWalletId == req.senderWalletId then
      Outcome(s, Err(TransferSameWallet(req.receiverWalletId)))
    else
      match FindById(s.wallets, req.receiverWalletId)
      case None => Outcome(s, Err(WalletNotFound(req.receiverWalletId)))
      case Some(receiver) =>
        match FindById(s.wallets, req.senderWalletId)
        case None => Outcome(s, Err(WalletNotFound(req.senderWalletId)))
        case Some(sender) =>
          if receiver.currency != req.currency then
            Outcome(s, Err(TransferCurrencyMismatch(req.currency, receiver.currency)))
          else if sender.currency != req.currency then
            Outcome(s, Err(TransferCurrencyMismatch(req.currency, sender.currency)))
          else
            var draft := Transaction(0, Some(req.senderWalletId), Some(req.receiverWalletId), req.currency,
                                     None, None, req.amount, TRANSFER, PENDING);
            var (journal, txId) := Append(s.journal, draft);
            // The PENDING record is already journaled when the funds check fails.
            if req.amount > sender.balance then
              Outcome(Ledger(s.wallets, journal), Err(TransferNotEnoughFunds(req.amount, sender.balance)))
            else if fault then
              Outcome(Ledger(s.wallets, UpdateStatus(journal, txId, FAILED)),
                      Err(TransferFailed(req.senderWalletId, req.receiverWalletId)))
            else
              var credited := Save(s.wallets, req.receiverWalletId, receiver.(balance := receiver.balance + req.amount));
              var wallets := Save(credited, req.senderWalletId, sender.(balance := sender.balance - req.amount));
              var journal' := UpdateStatus(journal, txId, COMPLETED);
              Outcome(Ledger(wallets, journal'), Ok(journal'[txId]))
  }

  /** Every journaled record in which the wallet is sender or receiver. */
  function GetTransactionHistory(s: Ledger, walletId: WalletId): (r: seq<Transaction>)
    ensures forall t :: t in r <==> t in s.journal && Involves(t, walletId)
  {
    FindBySenderOrReceiver(s.journal, walletId)
  }
}
