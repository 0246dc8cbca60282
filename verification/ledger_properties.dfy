/** Properties that relate several operations of the ledger: how each one
    moves the total of all balances, which operations undo each other, what
    the read side sees after a write, and what the unchecked sign of an
    amount allows. */
module LedgerProperties {
  import opened Wrappers
  import opened Accounts
  import opened Transactions
  import opened Ledger
  import opened Errors
  import opened AccountService
  import opened TransactionService

  /** Opening an account under a fresh number adds no money. */
  lemma CreateAccountKeepsTotal(l: Ledger, name: Option<string>, pinCode: string, uuid: AccountNumber)
    requires uuid !in l.accounts
    requires CreateAccount(l, name, pinCode, uuid).Success?
    ensures Total(CreateAccount(l, name, pinCode, uuid).value.0.accounts) == Total(l.accounts)
  {
    TotalInsert(l.accounts, uuid, NewAccount(uuid, name.value, pinCode));
  }

  /** A deposit adds exactly its amount to the money in the ledger. */
  lemma DepositRaisesTotal(l: Ledger, k: AccountNumber, amount: int, now: Time)
    requires Deposit(l, k, amount, now).Success?
    ensures Total(Deposit(l, k, amount, now).value.accounts) == Total(l.accounts) + amount
  {
    var account := l.accounts[k];
    TotalUpdate(l.accounts, k, account.(balance := account.balance + amount));
  }

  /** A withdrawal removes exactly its amount from the money in the ledger. */
  lemma WithdrawLowersTotal(l: Ledger, k: AccountNumber, amount: int, pinCode: string, now: Time)
    requires Withdraw(l, k, amount, pinCode, now).Success?
    ensures Total(Withdraw(l, k, amount, pinCode, now).value.accounts) == Total(l.accounts) - amount
  {
    var account := l.accounts[k];
    TotalUpdate(l.accounts, k, account.(balance := account.balance - amount));
  }

  /** A transfer moves money between accounts without creating or
      destroying any, also when source and destination coincide. */
  lemma TransferConservesTotal(l: Ledger, from: AccountNumber, to: AccountNumber, amount: int, pinCode: string, now: Time)
    requires Transfer(l, from, to, amount, pinCode, now).Success?
    ensures Total(Transfer(l, from, to, amount, pinCode, now).value.accounts) == Total(l.accounts)
  {
    var source := l.accounts[from];
    var debited := l.accounts[from := source.(balance := source.balance - amount)];
    TotalUpdate(l.accounts, from, source.(balance := source.balance - amount));
    var destination := debited[to];
    TotalUpdate(debited, to, destination.(balance := destination.balance + amount));
  }

  /** Depositing what was just withdrawn restores every account; the log
      keeps both records. */
  lemma WithdrawThenDepositRestores(l: Ledger, k: AccountNumber, amount: int, pinCode: string, t1: Time, t2: Time)
    requires Withdraw(l, k, amount, pinCode, t1).Success?
    ensures
      var l1 := Withdraw(l, k, amount, pinCode, t1).value;
      && Deposit(l1, k, amount, t2).Success?
      && Deposit(l1, k, amount, t2).value.accounts == l.accounts
      && |Deposit(l1, k, amount, t2).value.log| == |l.log| + 2
  {
  }

  /** Sending the same amount back, with the destination's PIN, restores
      every account, provided the destination was not overdrawn before. */
  lemma TransferBackRestores(l: Ledger, from: AccountNumber, to: AccountNumber, amount: int, pinCode: string, t1: Time, t2: Time)
    requires Transfer(l, from, to, amount, pinCode, t1).Success?
    requires to in l.accounts && l.accounts[to].balance >= 0
    ensures
      var l1 := Transfer(l, from, to, amount, pinCode, t1).value;
      var back := Transfer(l1, to, from, amount, l.accounts[to].pinCode, t2);
      && back.Success?
      && back.value.accounts == l.accounts
      && |back.value.log| == |l.log| + 2
  {
    var l1 := Transfer(l, from, to, amount, pinCode, t1).value;
    var back := Transfer(l1, to, from, amount, l.accounts[to].pinCode, t2);
    if from == to {
      assert l1.accounts == l.accounts;
      assert back.value.accounts == l1.accounts;
    } else {
      assert l1.accounts[to].pinCode == l.accounts[to].pinCode;
      assert l1.accounts[to].balance >= amount;
      var l2 := back.value;
      assert l2.accounts.Keys == l.accounts.Keys;
      assert l2.accounts[from] == l.accounts[from];
      assert l2.accounts[to] == l.accounts[to];
      assert forall j :: j in l.accounts ==> l2.accounts[j] == l.accounts[j];
    }
  }

  /** After a write that logged `t`, the query by `t`'s source account
      succeeds and ends with the new record. */
  lemma LoggedRecordIsListed(l: Ledger, l': Ledger, t: Transaction)
    requires LoggedOnce(l, l', t)
    ensures
      var listed := GetTransactionsByAccountNumber(l', t.accountNumberFrom);
      && listed.Success?
      && listed.value == BySource(l.log, t.accountNumberFrom) + [l'.log[|l.log|]]
  {
    var last := l'.log[|l.log|];
    assert l'.log == l.log + [last];
    BySourceConcat(l.log, [last], t.accountNumberFrom);
    assert BySource([last], t.accountNumberFrom) == [last];
  }

  /** The deposit just made is the last record the account's query lists. */
  lemma DepositIsListed(l: Ledger, k: AccountNumber, amount: int, now: Time)
    requires Deposit(l, k, amount, now).Success?
    ensures
      var l' := Deposit(l, k, amount, now).value;
      var listed := GetTransactionsByAccountNumber(l', k);
      && listed.Success?
      && listed.value[|listed.value| - 1] == Transaction(Some(l.nextId), k, k, now, amount, DEPOSIT)
  {
    LoggedRecordIsListed(l, Deposit(l, k, amount, now).value, NewTransaction(k, k, now, amount, DEPOSIT));
  }

  /** The withdrawal just made is the last record the account's query
      lists. */
  lemma WithdrawIsListed(l: Ledger, k: AccountNumber, amount: int, pinCode: string, now: Time)
    requires Withdraw(l, k, amount, pinCode, now).Success?
    ensures
      var l' := Withdraw(l, k, amount, pinCode, now).value;
      var listed := GetTransactionsByAccountNumber(l', k);
      && listed.Success?
      && listed.value[|listed.value| - 1] == Transaction(Some(l.nextId), k, k, now, amount, WITHDRAW)
  {
    LoggedRecordIsListed(l, Withdraw(l, k, amount, pinCode, now).value, NewTransaction(k, k, now, amount, WITHDRAW));
  }

  /** The transfer just made is the last record the source's query lists. */
  lemma TransferIsListed(l: Ledger, from: AccountNumber, to: AccountNumber, amount: int, pinCode: string, now: Time)
    requires Transfer(l, from, to, amount, pinCode, now).Success?
    ensures
      var l' := Transfer(l, from, to, amount, pinCode, now).value;
      var listed := GetTransactionsByAccountNumber(l', from);
      && listed.Success?
      && listed.value[|listed.value| - 1] == Transaction(Some(l.nextId), from, to, now, amount, TRANSFER)
  {
    LoggedRecordIsListed(l, Transfer(l, from, to, amount, pinCode, now).value, NewTransaction(from, to, now, amount, TRANSFER));
  }

  /** The two queries agree: every logged record is listed for its source
      account, and every listed record is in the whole log. */
  lemma QueriesAgree(l: Ledger, t: Transaction, accountNumber: AccountNumber)
    ensures t in GetTransactions(l) ==>
      && GetTransactionsByAccountNumber(l, t.accountNumberFrom).Success?
      && t in GetTransactionsByAccountNumber(l, t.accountNumberFrom).value
    ensures (GetTransactionsByAccountNumber(l, accountNumber).Success? &&
             t in GetTransactionsByAccountNumber(l, accountNumber).value) ==> t in GetTransactions(l)
  {
  }

  /** The error precedence differs between the two debits: with a wrong PIN
      and too little money, a withdrawal reports `NotEnoughFunds` while a
      transfer from the same account reports `WrongPin`. */
  lemma DebitPrecedenceDiffers(l: Ledger, k: AccountNumber, to: AccountNumber, amount: int, pinCode: string, now: Time)
    requires k in l.accounts && to in l.accounts
    requires l.accounts[k].balance < amount && l.accounts[k].pinCode != pinCode
    ensures Withdraw(l, k, amount, pinCode, now) == Failure(NotEnoughFunds)
    ensures Transfer(l, k, to, amount, pinCode, now) == Failure(WrongPin)
  {
  }

  /** The sign of a deposit is never checked: a negative deposit larger
      than the balance always succeeds and overdraws the account, which a
      withdrawal never does. */
  lemma NegativeDepositOverdraws(l: Ledger, k: AccountNumber, amount: int, now: Time)
    requires k in l.accounts
    requires amount < 0 && l.accounts[k].balance + amount < 0
    ensures Deposit(l, k, amount, now).Success?
    ensures Deposit(l, k, amount, now).value.accounts[k].balance < 0
  {
  }

  /** The sign of a transfer is never checked: a negative transfer between
      two accounts, authorised only by the source's PIN, always succeeds on a
      non-overdrawn source and lowers the destination by `-amount`,
      overdrawing it whenever it held less than that. */
  lemma NegativeTransferDebitsDestination(l: Ledger, from: AccountNumber, to: AccountNumber, amount: int, now: Time)
    requires from in l.accounts && to in l.accounts && from != to
    requires amount < 0 && l.accounts[from].balance >= 0
    ensures
      var r := Transfer(l, from, to, amount, l.accounts[from].pinCode, now);
      && r.Success?
      && r.value.accounts[to].balance == l.accounts[to].balance - (-amount)
      && r.value.accounts[from].balance == l.accounts[from].balance + (-amount)
      && (l.accounts[to].balance < -amount ==> r.value.accounts[to].balance < 0)
  {
  }

  /** Depositing 1000.00 into an account holding 222.22 (amounts in
      hundredths) leaves 1222.22, and the account's query lists the DEPOSIT
      record last. */
  lemma DepositScenario(l: Ledger, k: AccountNumber, now: Time)
    requires k in l.accounts && l.accounts[k].balance == 22222
    ensures
      var r := Deposit(l, k, 100000, now);
      && r.Success?
      && r.value.accounts[k].balance == 122222
      && |r.value.log| == |l.log| + 1
      && var listed := GetTransactionsByAccountNumber(r.value, k);
      && listed.Success?
      && listed.value[|listed.value| - 1] == Transaction(Some(l.nextId), k, k, now, 100000, DEPOSIT)
  {
    DepositIsListed(l, k, 100000, now);
  }

  /** Transferring 10 with the source's PIN "7777" from an account holding
      10 to one holding 0 leaves them at 0 and 10, and the source's query
      lists the one TRANSFER record last. */
  lemma TransferScenario(l: Ledger, from: AccountNumber, to: AccountNumber, now: Time)
    requires from != to
    requires from in l.accounts && l.accounts[from].balance == 10 && l.accounts[from].pinCode == "7777"
    requires to in l.accounts && l.accounts[to].balance == 0
    ensures
      var r := Transfer(l, from, to, 10, "7777", now);
      && r.Success?
      && r.value.accounts[from].balance == 0
      && r.value.accounts[to].balance == 10
      && |r.value.log| == |l.log| + 1
      && var listed := GetTransactionsByAccountNumber(r.value, from);
      && listed.Success?
      && listed.value[|listed.value| - 1] == Transaction(Some(l.nextId), from, to, now, 10, TRANSFER)
  {
    TransferIsListed(l, from, to, 10, "7777", now);
  }

  /** From an account holding 10 with PIN "7777": withdrawing 25 with the
      right PIN is refused for funds, withdrawing 10 with PIN "111" is
      refused for the PIN, and transferring 20 with the right PIN is refused
      for funds. */
  lemma RefusalScenarios(l: Ledger, k: AccountNumber, to: AccountNumber, now: Time)
    requires k in l.accounts && l.accounts[k].balance == 10 && l.accounts[k].pinCode == "7777"
    requires to in l.accounts
    ensures Withdraw(l, k, 25, "7777", now) == Failure(NotEnoughFunds)
    ensures Withdraw(l, k, 10, "111", now) == Failure(WrongPin)
    ensures Transfer(l, k, to, 20, "7777", now) == Failure(NotEnoughFunds)
  {
  }
}
