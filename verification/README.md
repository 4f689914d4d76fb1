# Wallet ledger engine — a Dafny model

This project models the ledger core of the client-wallet backend, which is
`WalletService` together with the two repositories it drives. The service
creates wallets under unique names and looks them up by id. It applies
deposits, withdrawals and transfers, each journaled as a `Transaction`
record that moves from PENDING to COMPLETED or to FAILED. It answers a
wallet's transaction history.

The two repositories are replaced by one immutable `Ledger` value. It holds
a map from wallet id to `Wallet` and the journal, a sequence of
`Transaction` records in the order they were first saved. Every operation is
a pure function. It takes the ledger and returns an `Outcome`: the ledger as
the call leaves it, plus either the returned value or the error it raises.
There is one `WalletError` variant per exception class. The ledger is
returned on failure too, because some failures still leave a record in the
journal.

Files:
- `model.dfy` (`Model`): the `Currency`, `TransactionType` and
  `TransactionStatus` enumerations; the `Wallet` and `Transaction` records;
  the request records; the error variants; `Ledger` and `Outcome`.
- `wallet_store.dfy` (`WalletStore`): find by id, the name probe, saving one
  wallet, and the frame predicates used in the contracts.
- `transaction_log.dfy` (`TransactionLog`): appending a record, re-saving a
  record with a new status, and the sender-or-receiver query.
- `accounting.dfy` (`Accounting`): what the journal says each wallet holds.
  `NetFlow` is the sum of the COMPLETED records' credits minus their debits.
  `Total` is the sum of all balances.
- `wallet_service.dfy` (`WalletService`): `Create`, `Get`, `Deposit`,
  `Withdraw`, `Transfer`, `GetTransactionHistory`.
- `ledger_properties.dfy` (`LedgerProperties`): the ledger invariant and its
  preservation by every operation, conservation of money, the order of the
  transfer checks, and two scenarios: `HistoryScenario` follows the
  integration test of the history, and `FundsScenario` walks a deposit, a
  rejected overdraft and a transfer.

Modelling choices:
- Amounts and balances are exact integers in minor units, standing for
  `BigDecimal`. Every money operation requires `amount > 0`, which the
  request records' `@Positive` constraint guarantees.
- Wallet ids are natural numbers. `Create` takes the new id as a parameter
  and requires it to be unused, standing for UUID generation. A
  transaction's id is its position in the journal, so it is fresh by
  construction.
- A `fault: bool` parameter stands for the persistence layer throwing inside
  the `try` block of deposit, withdraw or transfer. The model marks the
  record FAILED and raises the matching `…Failed` error, and no balance
  changes: the balance write and the final status are treated as one
  failure-atomic group.
- **Pending record on insufficient funds, kept literally.** Withdraw and
  transfer save the PENDING record before they check funds
  (service/WalletService.java:152-156 and 212-216). When that check fails,
  the model returns `WithdrawNotEnoughFunds` / `TransferNotEnoughFunds`, no
  balance changes, and the journal keeps the record, still PENDING.
  The ledger invariant still holds on that path (`AppendUnsettledKeepsValid`),
  because a PENDING record moves no money.
- The ledger invariant `LedgerProperties.Valid` says:
  - wallet names are unique;
  - every wallet is stored under its own id;
  - every record's id is its position in the journal;
  - every record moves a positive amount, refers only to stored wallets,
    and is in the currency of each wallet it names;
  - every balance equals the wallet's net flow over COMPLETED records;
  - no balance is negative.

  The empty ledger satisfies it, and every operation preserves it.

## Model

| member | source | states |
|---|---|---|
| WalletService.Create | backend/src/main/java/com/clientwallet/service/WalletService.java:47-58 | It fails with NameAlreadyExists exactly when some wallet has the requested name, and then the ledger is unchanged. Otherwise it adds exactly one wallet, under the new id, with the requested name and currency and a zero balance. Every other wallet and the journal are unchanged. |
| WalletService.Get | backend/src/main/java/com/clientwallet/service/WalletService.java:70-72 | It returns the stored wallet exactly when the id is present, and WalletNotFound for that id otherwise. It returns no new ledger, so it cannot change state. |
| WalletService.Deposit | backend/src/main/java/com/clientwallet/service/WalletService.java:90-119 | A missing wallet gives WalletNotFound and a currency mismatch gives DepositCurrencyMismatch(requested, wallet's), both with the ledger unchanged. On success only the target balance moves, by exactly the amount, and one DEPOSIT record is appended: receiver = wallet, no sender, the request's currency, amount and bank fields, status COMPLETED. On a storage fault no balance moves and the record ends FAILED. |
| WalletService.Withdraw | backend/src/main/java/com/clientwallet/service/WalletService.java:137-170 | A missing wallet gives WalletNotFound and a currency mismatch gives WithdrawCurrencyMismatch, both with the ledger unchanged. If amount > balance it gives WithdrawNotEnoughFunds(amount, balance), no balance moves, and a WITHDRAWAL record stays in the journal as PENDING. It succeeds exactly when amount <= balance and there is no fault. Then the balance drops by the amount (staying >= 0 if it was), and the record ends COMPLETED. |
| WalletService.Transfer | backend/src/main/java/com/clientwallet/service/WalletService.java:189-233 | Checks run in this order: same wallet, receiver lookup, sender lookup, receiver currency, sender currency; each failure leaves the ledger unchanged. Then a PENDING record is journaled and the sender's funds are checked (strict). On success the receiver gains the amount, the sender loses it, their sum is unchanged, no other wallet changes, and one TRANSFER record naming both wallets ends COMPLETED. |
| WalletService.GetTransactionHistory | backend/src/main/java/com/clientwallet/service/WalletService.java:241-243 | A record is in the history exactly when it is in the journal and the wallet is its sender or receiver. |
| WalletStore.FindById | backend/src/main/java/com/clientwallet/service/WalletService.java:91 | The lookup finds a wallet exactly when the id is stored, and then it is the stored wallet. |
| WalletStore.ExistsByName | backend/src/main/java/com/clientwallet/repository/WalletRepository.java:27 | The name probe is true exactly when the name is among the names of the stored wallets. |
| WalletStore.Save | backend/src/main/java/com/clientwallet/service/WalletService.java:108-109 | Saving a wallet under its id stores it there; every other stored wallet keeps its entry. |
| TransactionLog.Append | backend/src/main/java/com/clientwallet/service/WalletService.java:104-105 | Saving a new record puts it at the end under the next id and leaves every earlier record as it was. |
| TransactionLog.UpdateStatus | backend/src/main/java/com/clientwallet/service/WalletService.java:111-112 | Re-saving a record with a new status changes that status and nothing else in the journal. |
| TransactionLog.FindBySenderOrReceiver | backend/src/main/java/com/clientwallet/repository/TransactionRepository.java:29 | The query returns exactly the records whose sender or receiver is the wallet, and no more records than the journal holds. |
| TransactionLog.HistoryAppend | backend/src/main/java/com/clientwallet/repository/TransactionRepository.java:29 | Journaling one more record adds it to the end of a wallet's history exactly when it involves that wallet. |
| TransactionLog.HistoryUpdateStatus | backend/src/main/java/com/clientwallet/repository/TransactionRepository.java:29 | After a record's status is re-saved, a wallet's history is the old history with only that record's status replaced: the same records before and after it, the record present exactly when it was before. So the size is unchanged. |
| TransactionLog.HistoryConcat | backend/src/main/java/com/clientwallet/repository/TransactionRepository.java:29 | The history of two journals laid end to end is the two histories laid end to end. |
| LedgerProperties.CreatePreservesValid | backend/src/main/java/com/clientwallet/service/WalletService.java:47-58 | Creation keeps names unique, keeps every record consistent with the wallets it names, and keeps every balance equal to its journal net flow. The new wallet's zero balance matches its empty history. |
| LedgerProperties.DepositPreservesValid | backend/src/main/java/com/clientwallet/service/WalletService.java:91-118 | After any deposit outcome, every record still has a positive amount in the currency of the wallets it names, every balance still equals the net flow of the COMPLETED records naming that wallet, and none is negative. |
| LedgerProperties.WithdrawPreservesValid | backend/src/main/java/com/clientwallet/service/WalletService.java:138-169 | The same invariant survives every withdraw outcome, including the PENDING leftover. The strict amount > balance rejection keeps every balance non-negative. |
| LedgerProperties.TransferPreservesValid | backend/src/main/java/com/clientwallet/service/WalletService.java:194-232 | The same invariant survives every transfer outcome: the receiver's credit and the sender's debit match the COMPLETED record's effect. |
| LedgerProperties.AppendUnsettledKeepsValid | backend/src/main/java/com/clientwallet/service/WalletService.java:152-156 | A journaled record left PENDING (or marked FAILED) while no balance moves keeps the ledger invariant. |
| LedgerProperties.TransferConservesTotal | backend/src/main/java/com/clientwallet/service/WalletService.java:218-226 | Whatever a transfer returns, the sum of all balances is the same afterwards. |
| LedgerProperties.DepositTotal | backend/src/main/java/com/clientwallet/service/WalletService.java:107-112 | A deposit raises the sum of all balances by its amount when it succeeds, and by nothing otherwise. |
| LedgerProperties.WithdrawTotal | backend/src/main/java/com/clientwallet/service/WalletService.java:154-163 | A withdrawal lowers the sum of all balances by its amount when it succeeds, and by nothing otherwise. |
| LedgerProperties.OperationsOnlyAppend | backend/src/main/java/com/clientwallet/service/WalletService.java:89-233 | No operation rewrites, drops or reorders an existing journal record. Each adds at most one record at the end. |
| LedgerProperties.SameWalletIgnoresLedger | backend/src/main/java/com/clientwallet/service/WalletService.java:190-192 | A transfer from a wallet to itself is rejected with TransferSameWallet whatever the ledger holds, so no lookup is needed, and the ledger is not changed. |
| LedgerProperties.TransferChecksPrecedeJournal | backend/src/main/java/com/clientwallet/service/WalletService.java:190-212 | While any identity, lookup or currency check fails, a transfer returns an error and journals nothing. |
| LedgerProperties.RepeatedDeposits | backend/src/main/java/com/clientwallet/service/WalletService.java:107-112 | Applying the same deposit n times in sequence raises the balance by exactly n times the amount and journals n records. |
| LedgerProperties.DepositThenWithdrawRestores | backend/src/main/java/com/clientwallet/service/WalletService.java:107-163 | On a wallet with a non-negative balance, depositing and then withdrawing the same amount both succeed and restore every balance. The journal grows by two records. |
| LedgerProperties.CreateThenGet | backend/src/main/java/com/clientwallet/service/WalletService.java:47-72 | A wallet created under a free name can be fetched by its id unchanged, with a zero balance. |
| LedgerProperties.HistoryScenario | backend/src/test/java/com/clientwallet/service/WalletServiceIntegrationTest.java:179-211 | After a deposit of 100, a withdrawal of 50 and an outgoing transfer of 30 on wallet 1, its history holds 3 records, wallet 1 holds 20 and wallet 2 holds 30. |
| LedgerProperties.FundsScenario | backend/src/main/java/com/clientwallet/service/WalletService.java:137-233 | Deposit 100 into a new EUR wallet, then withdraw 150: the withdrawal fails with not-enough-funds, the balance stays 100, and a PENDING record remains. Creating a second EUR wallet and transferring 50 to it leaves both at 50, COMPLETED. |
| Accounting.NetFlowAppend | backend/src/main/java/com/clientwallet/service/WalletService.java:108-111 | A journaled record changes a wallet's journal net flow by that record's effect: its amount when COMPLETED and naming the wallet as receiver, minus it as sender. |
| Accounting.TotalAfterMove | backend/src/main/java/com/clientwallet/service/WalletService.java:219-223 | Moving one wallet's balance by delta, with nothing else changed, moves the sum of all balances by delta. |

## Left out

- `list()`: the controller calls it, but the service file does not define
  it. Beyond "return all wallets" there is nothing to model, so it is not
  part of this model.
- `existsById`: only the request-layer wallet-id validator uses it, and that
  validator is outside the core.
- The REST controller, the exception-to-HTTP-status mapping and the
  exception message texts: these are transport plumbing.
- Bean-validation constraints on the request records: name length 3–50,
  digit patterns on the bank fields, and the currency validator. The one
  that matters to the ledger, a positive amount, is a precondition. The
  others are not modelled.
- Rollback under `jakarta.transaction.Transactional`, concurrency and
  locking. Operations run one at a time on an immutable value. The
  service's exceptions extend `RuntimeException`, and under that annotation
  a runtime exception rolls the transaction back. So the PENDING record
  left by a failed funds check would be discarded, and so would the FAILED
  record written on a storage fault. The model keeps the records the code
  writes instead. `RepeatedDeposits` is the sequential counterpart of "n
  concurrent deposits converge to n times the amount".
- Timestamps (`createdAt`/`updatedAt`) and the JPA lifecycle hooks: no
  clock is modelled. UUID generation is replaced by a fresh-id parameter.
- TransactionLog.FindBySenderOrReceiver: the source query has no ORDER BY,
  so the order of its result is unspecified. The model returns journal
  order, and TransactionLog.HistoryAppend, TransactionLog.HistoryConcat and
  TransactionLog.HistoryUpdateStatus describe that chosen order, not one the
  source guarantees. Membership (WalletService.GetTransactionHistory) does
  not depend on the order.
- WalletService.Deposit: where inside the `try` block the persistence
  failure is thrown is not modelled. A fault is taken to write no balance
  before the record is marked FAILED. The same applies to
  WalletService.Withdraw and WalletService.Transfer.
- WalletService.Transfer: with only two currencies, a receiver mismatch and
  a sender mismatch produce the same error value. The receiver-first
  tie-break is modelled, but an error value cannot reveal it.
- The frontend and the generated Javadoc index: they are not part of the
  ledger.
