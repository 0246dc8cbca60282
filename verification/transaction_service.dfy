/** The read side of the ledger: the whole transaction log, and the records
    an account sent. Both are queries: they take a ledger and return no new
    one, so the ledger is the same before and after. */
module TransactionService {
  import opened Wrappers
  import opened Accounts
  import opened Transactions
  import opened Ledger
  import opened Errors

  /** The derived repository query `findTransactionsByAccountNumberFrom`:
      the records whose source account is `accountNumber`, taken to come back
      in log order (the query itself names no order).
      Records that only name it as the destination are not included. */
  function BySource(log: seq<Transaction>, accountNumber: AccountNumber): (r: seq<Transaction>)
    ensures |r| <= |log|
    ensures forall t :: t in r <==> t in log && t.accountNumberFrom == accountNumber
  {
    if |log| == 0 then []
    else if log[0].accountNumberFrom == accountNumber then [log[0]] + BySource(log[1..], accountNumber)
    else BySource(log[1..], accountNumber)
  }

  /** Filtering a concatenated log filters each part and keeps them in
      order. */
  lemma {:induction false} BySourceConcat(a: seq<Transaction>, b: seq<Transaction>, accountNumber: AccountNumber)
    ensures BySource(a + b, accountNumber) == BySource(a, accountNumber) + BySource(b, accountNumber)
  {
    if |a| == 0 {
      assert a + b == b;
    } else {
      assert (a + b)[1..] == a[1..] + b;
      BySourceConcat(a[1..], b, accountNumber);
    }
  }

  /** `getTransactions`: the whole log, as stored. */
  function GetTransactions(l: Ledger): (r: seq<Transaction>)
    ensures r == l.log
    ensures IdsWellFormed(l) ==>
      forall i, j :: 0 <= i < j < |r| ==> r[i].id.Some? && r[j].id.Some? && r[i].id.value < r[j].id.value
  {
    l.log
  }

  /** `getTransactionsByAccountNumber`: the records the account sent, in log
      order; an empty answer is reported as `NotFound` instead. */
  function GetTransactionsByAccountNumber(l: Ledger, accountNumber: AccountNumber): (r: Result<seq<Transaction>, Error>)
    ensures r.Failure? <==> forall t :: t in l.log ==> t.accountNumberFrom != accountNumber
    ensures r.Failure? ==> r.error == NotFound
    ensures r.Success? ==>
      && r.value == BySource(l.log, accountNumber)
      && |r.value| > 0
      && forall t :: t in r.value <==> t in l.log && t.accountNumberFrom == accountNumber
  {
    var found := BySource(l.log, accountNumber);
    if |found| == 0 then Failure(NotFound)
    else
      assert found[0] in found;
      Success(found)
  }
}
