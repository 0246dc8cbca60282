# Aston ledger — a Dafny model

This project models the ledger core of the Aston banking service: the
`accounts` table (account number → account with name, PIN and balance), the
append-only `transactions` log, and the two services that work on them.
`AccountServiceImpl` creates accounts, looks them up, and performs deposits,
withdrawals and transfers. `TransactionServiceImpl` lists the whole log or the
records one account sent.

Every `@Transactional` service method is one pure function from a `Ledger`
to a `Result`: either a new ledger (and, for account creation, the new
account) or the exception the method throws. A thrown exception therefore
leaves the caller's ledger exactly as it was, which is the all-or-nothing
behaviour of the transaction boundary. The queries take a ledger and return
no new one, so they are read-only by construction.

Modelling choices:

- Balances and amounts are `int`. The source uses `BigDecimal` only through
  `add`, `subtract` and `compareTo`, so an integer count of minor units is
  exact.
- `UUID.randomUUID()` and `LocalTime.now()` are parameters (`uuid`, `now`).
- The transaction store keeps a counter `nextId`. Appending a record built by
  the five-argument constructor (identifier unassigned) gives it the next
  identifier, so identifiers increase along the log.
- Saving an account that was loaded by `findById(k)` writes row `k`.
- A transfer from an account to itself debits and then credits the same row.
  Its balance ends where it started and one TRANSFER record is still logged.
  In the source both lookups return the same managed entity, so this is what
  the code does.
- Error kinds follow the exceptions the code throws: `NotFound`, `WrongPin`,
  `NotEnoughFunds`. Account creation throws `WrongPinException` for a bad PIN
  length or an absent name. The by-account query throws `NotFoundException`
  when nothing matches.
- No operation checks the sign of an amount. A negative deposit can overdraw
  an account. A negative transfer, authorised only by the source's PIN, takes
  money out of the destination. The model keeps this behaviour.
  `NegativeDepositOverdraws` and `NegativeTransferDebitsDestination` state
  it, and the non-negativity guarantees of `Deposit` and `Transfer` are stated
  only for amounts ≥ 0. `Withdraw` keeps balances non-negative for every
  amount.

Files: `wrappers.dfy` (Option, Result), `accounts.dfy` (Account),
`transactions.dfy` (Transaction, Operation, Time), `errors.dfy` (the
exceptions), `ledger.dfy` (the two stores, the invariant, the total of all
balances, and `Empty`, the initial state with no accounts and no records,
which satisfies the invariant that every operation keeps), `account_service.dfy`,
`transaction_service.dfy`, `ledger_properties.dfy` (properties that relate
several operations).

## Model

| member | source | states |
|---|---|---|
| Accounts.NewAccount | src/main/java/com/example/aston/model/Account.java:32-37 | a new account carries the generated number, the given name and PIN unchanged, and a zero balance |
| Transactions.NewTransaction | src/main/java/com/example/aston/model/Transaction.java:32-39 | a new record stores source, destination, time, amount and kind verbatim and has no identifier yet |
| Ledger.Put | src/main/java/com/example/aston/service/AccountServiceImpl.java:33 | saving an account writes exactly its row: the row then holds that account, the set of rows gains at most that key, every other row and the log are unchanged |
| Ledger.Append | src/main/java/com/example/aston/model/Transaction.java:19-21 | saving a new record leaves the accounts and every earlier record alone, adds exactly one record with a newly generated identifier, and keeps identifiers assigned and strictly increasing along the log |
| AccountService.CreateAccount | src/main/java/com/example/aston/service/AccountServiceImpl.java:26-35 | fails with WrongPin exactly when the name is absent or the PIN length is not 4 (an empty name is accepted); on success returns and stores a zero-balance account with the given name and PIN under the generated number, leaves the log alone, changes no other account, adds exactly one account when the number is fresh, and keeps the ledger invariant |
| AccountService.GetAccounts | src/main/java/com/example/aston/service/AccountServiceImpl.java:37-40 | every stored account is listed, and on a well-formed ledger an account is listed exactly when it is the one stored under its own number |
| AccountService.GetAccountByAccountNumber | src/main/java/com/example/aston/service/AccountServiceImpl.java:42-45 | an account is found exactly when the number is stored; the one found is the account stored under that number, and, on a well-formed ledger, it carries the number asked for |
| AccountService.Deposit | src/main/java/com/example/aston/service/AccountServiceImpl.java:47-62 | fails with NotFound exactly for an unknown account; otherwise only that balance changes, to old balance + amount, with name and PIN kept, and exactly one DEPOSIT record from and to the account with that amount is appended; keeps the invariant, and keeps balances non-negative for a non-negative amount |
| AccountService.Withdraw | src/main/java/com/example/aston/service/AccountServiceImpl.java:91-114 | NotFound exactly for an unknown account, else NotEnoughFunds exactly when balance < amount, else WrongPin exactly when the PIN differs; on success only that balance changes, to balance − amount ≥ 0, and exactly one WITHDRAW record from and to the account is appended; keeps the invariant and non-negativity |
| AccountService.Transfer | src/main/java/com/example/aston/service/AccountServiceImpl.java:64-89 | NotFound exactly when either account is missing, else WrongPin exactly when the source PIN differs, else NotEnoughFunds exactly when the source balance < amount; on success between distinct accounts the source loses and the destination gains the amount, their sum is unchanged and no other account changes; a self-transfer changes no balance; exactly one TRANSFER record (from, to, amount) is appended |
| TransactionService.BySource | src/main/java/com/example/aston/repo/TransactionRepository.java:12 | the result holds exactly the logged records whose source is the account; records that only name it as destination are excluded |
| TransactionService.BySourceConcat | src/main/java/com/example/aston/repo/TransactionRepository.java:12 | the filter distributes over concatenation, so matching records keep their log order |
| TransactionService.GetTransactionsByAccountNumber | src/main/java/com/example/aston/service/TransactionServiceImpl.java:24-31 | fails with NotFound exactly when no logged record has the account as source; otherwise the repository's filtered list is returned unmodified, and it is non-empty and holds exactly those records |
| TransactionService.GetTransactions | src/main/java/com/example/aston/service/TransactionServiceImpl.java:19-22 | the whole log, as stored; on a ledger whose identifiers are well formed, the listed records carry strictly increasing identifiers |
| LedgerProperties.QueriesAgree | src/main/java/com/example/aston/service/TransactionServiceImpl.java:19-31 | every record of the whole log is listed by the query for its source account, and every record that query lists is in the whole log |
| LedgerProperties.CreateAccountKeepsTotal | src/main/java/com/example/aston/service/AccountServiceImpl.java:32-34 | opening an account under a fresh number leaves the sum of all balances unchanged |
| LedgerProperties.DepositRaisesTotal | src/main/java/com/example/aston/service/AccountServiceImpl.java:56-61 | a successful deposit raises the sum of all balances by exactly the amount |
| LedgerProperties.WithdrawLowersTotal | src/main/java/com/example/aston/service/AccountServiceImpl.java:106-113 | a successful withdrawal lowers the sum of all balances by exactly the amount |
| LedgerProperties.TransferConservesTotal | src/main/java/com/example/aston/service/AccountServiceImpl.java:80-88 | a successful transfer, including one from an account to itself, leaves the sum of all balances unchanged |
| LedgerProperties.WithdrawThenDepositRestores | src/main/java/com/example/aston/service/AccountServiceImpl.java:47-114 | depositing the amount just withdrawn always succeeds and restores every account, with two records added to the log |
| LedgerProperties.TransferBackRestores | src/main/java/com/example/aston/service/AccountServiceImpl.java:64-89 | sending the amount back with the destination's PIN succeeds and restores every account, when the destination was not overdrawn |
| LedgerProperties.LoggedRecordIsListed | src/main/java/com/example/aston/service/TransactionServiceImpl.java:24-31 | after a write that logged one record, the query for that record's source succeeds and returns the earlier matches followed by the new record |
| LedgerProperties.DepositIsListed | src/main/java/com/example/aston/service/AccountServiceImpl.java:56-61 | right after a deposit, the account's query succeeds and its last entry is that DEPOSIT record |
| LedgerProperties.WithdrawIsListed | src/main/java/com/example/aston/service/AccountServiceImpl.java:106-113 | right after a withdrawal, the account's query succeeds and its last entry is that WITHDRAW record |
| LedgerProperties.TransferIsListed | src/main/java/com/example/aston/service/AccountServiceImpl.java:83-88 | right after a transfer, the source's query succeeds and its last entry is that TRANSFER record |
| LedgerProperties.DebitPrecedenceDiffers | src/main/java/com/example/aston/service/AccountServiceImpl.java:73-78 | with a wrong PIN and too little money, withdraw reports NotEnoughFunds while transfer from the same account reports WrongPin |
| LedgerProperties.NegativeDepositOverdraws | src/main/java/com/example/aston/service/AccountServiceImpl.java:56-59 | with no sign check, for every account and every negative amount whose magnitude exceeds its balance, the deposit succeeds and leaves the account overdrawn |
| LedgerProperties.NegativeTransferDebitsDestination | src/main/java/com/example/aston/service/AccountServiceImpl.java:73-81 | with no sign check, for every pair of distinct accounts and every negative amount, a transfer on the source's PIN alone succeeds on a non-overdrawn source, raises the source and lowers the destination by −amount, overdrawing the destination when it held less |
| LedgerProperties.DepositScenario | src/test/java/com/example/aston/AccountServiceTest.java:88-102 | 1000.00 deposited into 222.22 (in hundredths) leaves 1222.22, adds one record, and the account's query lists that DEPOSIT last |
| LedgerProperties.TransferScenario | src/test/java/com/example/aston/AccountServiceTest.java:145-175 | 10 sent with PIN "7777" from an account at 10 to one at 0 leaves them at 0 and 10, adds one record, and the source's query lists that TRANSFER last |
| LedgerProperties.RefusalScenarios | src/test/java/com/example/aston/AccountServiceTest.java:177-263 | from an account at 10 with PIN "7777": withdrawing 25 gives NotEnoughFunds, withdrawing 10 with PIN "111" gives WrongPin, transferring 20 gives NotEnoughFunds |

## Left out

- The HTTP controllers, the logging aspect and the startup data seeding. The
  seeding writes DEPOSIT/WITHDRAW records whose source and destination
  differ, so "DEPOSIT and WITHDRAW records go from an account to itself" is a
  postcondition of the operations, not an invariant of the log.
- Isolation and concurrency of the transaction boundaries, JPA persistence and
  the repository interfaces. The stores are a map and a sequence, and each
  operation is one atomic step.
- Result order of the repositories. Neither `findAll` nor the derived query
  `findTransactionsByAccountNumberFrom` names an order, so SQL promises none;
  the model takes both to return records in log order. `BySource`,
  `BySourceConcat`, `LoggedRecordIsListed`, the `*IsListed` lemmas and the
  scenario lemmas rely on that order when they say a record comes last. The
  order of `getAccounts` is not modelled: it returns a set.
- `null` arguments other than the account name. A `null` PIN throws a
  `NullPointerException` in `createAccount`; in withdraw and transfer it
  compares unequal to the stored PIN and gives `WrongPin`, which any
  differing string models. A `null` amount throws a `NullPointerException`
  where it is first used.
- Bean Validation of `@NotBlank` fields at persist time (account name and
  PIN, the two account numbers of a record). The service accepts an empty
  name, and so does the model; the invariant `Ledger.Valid` covers only the
  keying of accounts, the 4-character PIN and the record identifiers.
- `String.length()` counts UTF-16 code units; the model counts characters, so
  PINs with characters outside the Basic Multilingual Plane are counted
  differently.
- `BigDecimal` scale and `equals`: amounts are integers.
- AccountService.CreateAccount: when the generated number already exists (a
  UUID collision) the save overwrites the account under that number, as the
  code would; "one account more" and "the account under that number was not
  there before" are stated only for a fresh number. Every other account is
  unchanged in both cases.
