/** The entities of the wallet ledger: the enumerations, the Wallet and
    Transaction records, the request records the service receives, the
    error taxonomy (one variant per exception class) and the immutable
    ledger state that stands in for the two repositories. */
module Model {

  /** The supported currencies. */
  datatype Currency = CZK | EUR

  /** What kind of money movement a transaction journals. */
  datatype TransactionType = DEPOSIT | WITHDRAWAL | TRANSFER

  /** Where a journaled transaction is in its life cycle. */
  datatype TransactionStatus = PENDING | COMPLETED | FAILED

  datatype Option<+T> = None | Some(value: T)

  /** Wallet identifiers stand in for the generated UUIDs. */
  type WalletId = nat

  /** A transaction's identifier is its position in the journal. */
  type TransactionId = nat

  /** A wallet; amounts and balances are exact, in minor units. */
  datatype Wallet = Wallet(id: WalletId, name: string, currency: Currency, balance: int)

  /** One journaled money movement. The wallets are held by id only: a
      deposit names a receiver, a withdrawal a sender, a transfer both.
      The bank fields are only filled in for deposits and withdrawals. */
  datatype Transaction = Transaction(
    id: TransactionId,
    sender: Option<WalletId>,
    receiver: Option<WalletId>,
    currency: Currency,
    accountNumber: Option<string>,
    bankCode: Option<string>,
    amount: int,
    kind: TransactionType,
    status: TransactionStatus)

  datatype CreateRequest = CreateRequest(name: string, currency: Currency)

  datatype DepositRequest = DepositRequest(
    walletId: WalletId, currency: Currency, accountNumber: string, bankCode: string, amount: int)

  datatype WithdrawRequest = WithdrawRequest(
    walletId: WalletId, currency: Currency, accountNumber: string, bankCode: string, amount: int)

  datatype TransferRequest = TransferRequest(
    senderWalletId: WalletId, receiverWalletId: WalletId, currency: Currency, amount: int)

  /** The business failures the service signals, one per exception class.
      The currency-mismatch variants carry the requested currency first and
      the wallet's currency second; the not-enough-funds variants carry the
      requested amount and the balance it exceeded. */
  datatype WalletError =
    | NameAlreadyExists(name: string)
    | WalletNotFound(walletId: WalletId)
    | DepositCurrencyMismatch(requested: Currency, walletCurrency: Currency)
    | DepositFailed(walletId: WalletId)
    | WithdrawCurrencyMismatch(requested: Currency, walletCurrency: Currency)
    | WithdrawNotEnoughFunds(requestedAmount: int, balance: int)
    | WithdrawFailed(walletId: WalletId)
    | TransferSameWallet(walletId: WalletId)
    | TransferCurrencyMismatch(requested: Currency, walletCurrency: Currency)
    | TransferNotEnoughFunds(requestedAmount: int, balance: int)
    | TransferFailed(senderId: WalletId, receiverId: WalletId)

  datatype Result<+T> = Ok(value: T) | Err(error: WalletError)

  /** The persisted state: every wallet by id, and the transaction journal
      in the order the records were first saved. */
  datatype Ledger = Ledger(wallets: map<WalletId, Wallet>, journal: seq<Transaction>)

  /** What an operation leaves behind: the ledger after the call, whether it
      returned normally or raised, and what it returned or raised. */
  datatype Outcome<+T> = Outcome(ledger: Ledger, result: Result<T>)
}
