/** The mutating side of the ledger: account creation, lookups, deposit,
    withdrawal and transfer. Each transactional service method is one atomic
    step from a ledger to a new ledger or to the exception it throws; a
    thrown exception leaves the caller's ledger as it was. The generated
    account number and the current time of day are parameters. */
module AccountService {
  import opened Wrappers
  import opened Accounts
  import opened Transactions
  import opened Ledger
  import opened Errors

  /** Account `k` is present before and after, and only its balance changed,
      to `balance`. */
  ghost predicate BalanceSet(l: Ledger, l': Ledger, k: AccountNumber, balance: int)
  {
    k in l.accounts && k in l'.accounts && l'.accounts[k] == l.accounts[k].(balance := balance)
  }

  /** The same accounts exist, and every account outside `touched` is as it
      was. */
  ghost predicate OthersUnchanged(l: Ledger, l': Ledger, touched: set<AccountNumber>)
  {
    && l'.accounts.Keys == l.accounts.Keys
    && forall j :: j in l.accounts && j !in touched ==> l'.accounts[j] == l.accounts[j]
  }

  /** The log grew by exactly one record, `t` with a freshly assigned
      identifier, and nothing logged before changed. */
  ghost predicate LoggedOnce(l: Ledger, l': Ledger, t: Transaction)
  {
    && |l'.log| == |l.log| + 1
    && l'.log[..|l.log|] == l.log
    && l'.log[|l.log|] == t.(id := Some(l.nextId))
  }

  /** `createAccount`: an absent name or a PIN whose length is not 4 is
      refused with `WrongPin` (an empty name is accepted); otherwise a new
      account with a zero balance is stored under the generated number
      `uuid` and returned. */
  function CreateAccount(l: Ledger, name: Option<string>, pinCode: string, uuid: AccountNumber): (r: Result<(Ledger, Account), Error>)
    ensures r.Failure? <==> name.None? || |pinCode| != PinLength
    ensures r.Failure? ==> r.error == WrongPin
    ensures r.Success? ==>
      var (l', a) := r.value;
      && a.accountNumber == uuid && a.name == name.value && a.pinCode == pinCode && a.balance == 0
      && l'.accounts.Keys == l.accounts.Keys + {uuid}
      && l'.accounts[uuid] == a
      && l'.log == l.log && l'.nextId == l.nextId
    ensures r.Success? ==>
      forall k :: k in l.accounts && k != uuid ==> r.value.0.accounts[k] == l.accounts[k]
    ensures r.Success? && uuid !in l.accounts ==>
      var l' := r.value.0;
      && |l'.accounts| == |l.accounts| + 1
      && (forall k :: k in l.accounts ==> l'.accounts[k] == l.accounts[k])
    ensures r.Success? && Valid(l) ==> Valid(r.value.0)
    ensures r.Success? && NonNegative(l) ==> NonNegative(r.value.0)
  {
    if name.None? || |pinCode| != PinLength then
      Failure(WrongPin)
    else
      var a := NewAccount(uuid, name.value, pinCode);
      Success((Put(l, uuid, a), a))
  }

  /** `getAccounts`: every stored account, and nothing else. */
  function GetAccounts(l: Ledger): (r: set<Account>)
    ensures Valid(l) ==> forall a :: a in r <==> a.accountNumber in l.accounts && l.accounts[a.accountNumber] == a
    ensures forall k :: k in l.accounts ==> l.accounts[k] in r
  {
    l.accounts.Values
  }

  /** `getAccountByAccountNumber`: the account stored under `k`, if any. */
  function GetAccountByAccountNumber(l: Ledger, k: AccountNumber): (r: Option<Account>)
    ensures r.Some? <==> k in l.accounts
    ensures r.Some? ==> r.value in GetAccounts(l) && r.value == l.accounts[k]
    ensures r.Some? && Valid(l) ==> r.value.accountNumber == k
  {
    if k in l.accounts then Some(l.accounts[k]) else None
  }

  /** `deposit`: an unknown account is `NotFound`; otherwise the balance
      grows by `amount` (whatever its sign) and one DEPOSIT record from and to
      the account is logged. */
  function Deposit(l: Ledger, accountNumber: AccountNumber, amount: int, now: Time): (r: Result<Ledger, Error>)
    ensures r.Failure? <==> accountNumber !in l.accounts
    ensures r.Failure? ==> r.error == NotFound
    ensures r.Success? ==>
      && BalanceSet(l, r.value, accountNumber, l.accounts[accountNumber].balance + amount)
      && OthersUnchanged(l, r.value, {accountNumber})
      && LoggedOnce(l, r.value, NewTransaction(accountNumber, accountNumber, now, amount, DEPOSIT))
    ensures r.Success? && Valid(l) ==> Valid(r.value)
    ensures r.Success? && NonNegative(l) && amount >= 0 ==> NonNegative(r.value)
  {
    if accountNumber !in l.accounts then
      Failure(NotFound)
    else
      var account := l.accounts[accountNumber];
      var t := NewTransaction(accountNumber, accountNumber, now, amount, DEPOSIT);
      Success(Append(Put(l, accountNumber, account.(balance := account.balance + amount)), t))
  }

  /** `withdraw`: checks, in this order, that the account exists
      (`NotFound`), that its balance covers `amount` (`NotEnoughFunds`) and
      only then the PIN (`WrongPin`); on success the balance drops by
      `amount`, staying non-negative, and one WITHDRAW record is logged. */
  function Withdraw(l: Ledger, accountNumber: AccountNumber, amount: int, pinCode: string, now: Time): (r: Result<Ledger, Error>)
    ensures r == Failure(NotFound) <==> accountNumber !in l.accounts
    ensures r == Failure(NotEnoughFunds) <==>
      accountNumber in l.accounts && l.accounts[accountNumber].balance < amount
    ensures r == Failure(WrongPin) <==>
      && accountNumber in l.accounts
      && l.accounts[accountNumber].balance >= amount
      && l.accounts[accountNumber].pinCode != pinCode
    ensures r.Success? ==>
      && l.accounts[accountNumber].pinCode == pinCode
      && BalanceSet(l, r.value, accountNumber, l.accounts[accountNumber].balance - amount)
      && r.value.accounts[accountNumber].balance >= 0
      && OthersUnchanged(l, r.value, {accountNumber})
      && LoggedOnce(l, r.value, NewTransaction(accountNumber, accountNumber, now, amount, WITHDRAW))
    ensures r.Success? && Valid(l) ==> Valid(r.value)
    ensures r.Success? && NonNegative(l) ==> NonNegative(r.value)
  {
    if accountNumber !in l.accounts then
      Failure(NotFound)
    else if l.accounts[accountNumber].balance < amount then
      Failure(NotEnoughFunds)
    else if l.accounts[accountNumber].pinCode != pinCode then
      Failure(WrongPin)
    else
      var account := l.accounts[accountNumber];
      var t := NewTransaction(accountNumber, accountNumber, now, amount, WITHDRAW);
      Success(Append(Put(l, accountNumber, account.(balance := account.balance - amount)), t))
  }

  /** `transfer`: checks, in this order, that both accounts exist
      (`NotFound`), the source PIN (`WrongPin`) and only then the source's
      funds (`NotEnoughFunds`). On success the source is debited, then the
      destination, as it now stands, is credited by the same amount, and one
      TRANSFER record is logged. A transfer from an account to itself thus
      leaves its balance as it was but is still logged. */
  function Transfer(l: Ledger, from: AccountNumber, to: AccountNumber, amount: int, pinCode: string, now: Time): (r: Result<Ledger, Error>)
    ensures r == Failure(NotFound) <==> from !in l.accounts || to !in l.accounts
    ensures r == Failure(WrongPin) <==>
      from in l.accounts && to in l.accounts && l.accounts[from].pinCode != pinCode
    ensures r == Failure(NotEnoughFunds) <==>
      && from in l.accounts && to in l.accounts
      && l.accounts[from].pinCode == pinCode
      && l.accounts[from].balance < amount
    ensures r.Success? && from != to ==>
      && BalanceSet(l, r.value, from, l.accounts[from].balance - amount)
      && BalanceSet(l, r.value, to, l.accounts[to].balance + amount)
      && r.value.accounts[from].balance + r.value.accounts[to].balance
         == l.accounts[from].balance + l.accounts[to].balance
      && OthersUnchanged(l, r.value, {from, to})
    ensures r.Success? && from == to ==> r.value.accounts == l.accounts
    ensures r.Success? ==>
      && l.accounts[from].balance >= amount
      && LoggedOnce(l, r.value, NewTransaction(from, to, now, amount, TRANSFER))
    ensures r.Success? && Valid(l) ==> Valid(r.value)
    ensures r.Success? && NonNegative(l) && amount >= 0 ==> NonNegative(r.value)
  {
    if from !in l.accounts || to !in l.accounts then
      Failure(NotFound)
    else if l.accounts[from].pinCode != pinCode then
      Failure(WrongPin)
    else if l.accounts[from].balance < amount then
      Failure(NotEnoughFunds)
    else
      var source := l.accounts[from];
      var debited := Put(l, from, source.(balance := source.balance - amount));
      var destination := debited.accounts[to];
      var credited := Put(debited, to, destination.(balance := destination.balance + amount));
      Success(Append(credited, NewTransaction(from, to, now, amount, TRANSFER)))
  }
}
