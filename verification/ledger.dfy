/** The two stores the services work on: the `accounts` table, keyed by
    account number, and the append-only `transactions` table, whose store
    hands out identifiers in increasing order. */
module Ledger {
  import opened Wrappers
  import opened Accounts
  import opened Transactions

  /** The state of both tables. `nextId` is the next identifier the
      transaction store will generate. */
  datatype Ledger = Ledger(accounts: map<AccountNumber, Account>, log: seq<Transaction>, nextId: nat)

  /** Every account sits under its own account number and has a PIN of the
      declared column length. */
  ghost predicate AccountsWellFormed(accounts: map<AccountNumber, Account>)
  {
    forall k :: k in accounts ==> accounts[k].accountNumber == k && |accounts[k].pinCode| == PinLength
  }

  /** Every logged record carries an identifier the store has already handed
      out, and identifiers increase along the log. */
  ghost predicate IdsWellFormed(l: Ledger)
  {
    && (forall i :: 0 <= i < |l.log| ==> l.log[i].id.Some? && l.log[i].id.value < l.nextId)
    && (forall i, j :: 0 <= i < j < |l.log| && l.log[i].id.Some? && l.log[j].id.Some? ==>
          l.log[i].id.value < l.log[j].id.value)
  }

  /** The invariant every service operation keeps. */
  ghost predicate Valid(l: Ledger)
  {
    AccountsWellFormed(l.accounts) && IdsWellFormed(l)
  }

  /** No account is overdrawn. */
  ghost predicate NonNegative(l: Ledger)
  {
    forall k :: k in l.accounts ==> l.accounts[k].balance >= 0
  }

  /** The empty ledger. */
  function Empty(): (l: Ledger)
    ensures Valid(l) && NonNegative(l)
    ensures |l.accounts| == 0 && |l.log| == 0
  {
    Ledger(map[], [], 0)
  }

  /** `accountRepository.save`: an upsert of one row. */
  function Put(l: Ledger, k: AccountNumber, a: Account): (r: Ledger)
    ensures r.log == l.log && r.nextId == l.nextId
    ensures r.accounts.Keys == l.accounts.Keys + {k}
    ensures k in r.accounts && r.accounts[k] == a
    ensures forall j :: j in l.accounts && j != k ==> r.accounts[j] == l.accounts[j]
  {
    l.(accounts := l.accounts[k := a])
  }

  /** `transactionRepository.save` of a new record: the store assigns the
      next identifier and appends; nothing already logged changes. */
  function Append(l: Ledger, t: Transaction): (r: Ledger)
    ensures r.accounts == l.accounts
    ensures |r.log| == |l.log| + 1 && r.log[..|l.log|] == l.log
    ensures r.log[|l.log|] == t.(id := Some(l.nextId))
    ensures r.nextId > l.nextId
    ensures IdsWellFormed(l) ==> IdsWellFormed(r)
  {
    Ledger(l.accounts, l.log + [t.(id := Some(l.nextId))], l.nextId + 1)
  }

  /** The sum of the balances of the accounts under `keys`. */
  ghost function SumOver(accounts: map<AccountNumber, Account>, keys: set<AccountNumber>): int
    requires keys <= accounts.Keys
    decreases keys
  {
    if keys == {} then 0
    else
      var k :| k in keys;
      accounts[k].balance + SumOver(accounts, keys - {k})
  }

  /** The sum of all balances. */
  ghost function Total(accounts: map<AccountNumber, Account>): int
  {
    SumOver(accounts, accounts.Keys)
  }

  /** Any account may be split off a sum, not only the one `SumOver` happens
      to pick. */
  lemma {:induction false} SumOverRemove(accounts: map<AccountNumber, Account>, keys: set<AccountNumber>, k: AccountNumber)
    requires keys <= accounts.Keys && k in keys
    ensures SumOver(accounts, keys) == accounts[k].balance + SumOver(accounts, keys - {k})
    decreases keys
  {
    var j :| j in keys && SumOver(accounts, keys) == accounts[j].balance + SumOver(accounts, keys - {j});
    if j != k {
      var both := keys - {j} - {k};
      assert keys - {k} - {j} == both;
      SumOverRemove(accounts, keys - {j}, k);
      SumOverRemove(accounts, keys - {k}, j);
    }
  }

  /** A sum only looks at the balances under the keys it ranges over. */
  lemma {:induction false} SumOverAgree(a: map<AccountNumber, Account>, b: map<AccountNumber, Account>, keys: set<AccountNumber>)
    requires keys <= a.Keys && keys <= b.Keys
    requires forall k :: k in keys ==> a[k].balance == b[k].balance
    ensures SumOver(a, keys) == SumOver(b, keys)
    decreases keys
  {
    if keys != {} {
      var k :| k in keys;
      SumOverRemove(a, keys, k);
      SumOverRemove(b, keys, k);
      SumOverAgree(a, b, keys - {k});
    }
  }

  /** Replacing one existing account changes the total by exactly the change
      in that account's balance. */
  lemma TotalUpdate(accounts: map<AccountNumber, Account>, k: AccountNumber, a: Account)
    requires k in accounts
    ensures Total(accounts[k := a]) == Total(accounts) - accounts[k].balance + a.balance
  {
    var updated := accounts[k := a];
    assert updated.Keys == accounts.Keys;
    SumOverRemove(accounts, accounts.Keys, k);
    SumOverRemove(updated, updated.Keys, k);
    SumOverAgree(accounts, updated, accounts.Keys - {k});
  }

  /** Adding a new account adds its balance to the total. */
  lemma TotalInsert(accounts: map<AccountNumber, Account>, k: AccountNumber, a: Account)
    requires k !in accounts
    ensures Total(accounts[k := a]) == Total(accounts) + a.balance
  {
    var updated := accounts[k := a];
    assert updated.Keys - {k} == accounts.Keys;
    SumOverRemove(updated, updated.Keys, k);
    SumOverAgree(accounts, updated, accounts.Keys);
  }
}
