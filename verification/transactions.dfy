/** The `Transaction` entity: one immutable record of the transaction log. */
module Transactions {
  import opened Wrappers
  import opened Accounts

  /** The operation kinds, stored by name. */
  datatype Operation = DEPOSIT | WITHDRAW | TRANSFER

  /** A `LocalTime`: a time of day, without a date. */
  datatype Time = Time(nanoOfDay: nat)

  /** One log record. `id` is `None` until the store assigns it on append. */
  datatype Transaction = Transaction(
    id: Option<nat>,
    accountNumberFrom: AccountNumber,
    accountNumberTo: AccountNumber,
    time: Time,
    amount: int,
    operation: Operation)

  /** The five-argument constructor: every field is stored verbatim and the
      identifier is left unassigned. */
  function NewTransaction(from: AccountNumber, to: AccountNumber, time: Time, amount: int, operation: Operation): (t: Transaction)
    ensures t.id.None?
    ensures t.accountNumberFrom == from && t.accountNumberTo == to
    ensures t.time == time && t.amount == amount && t.operation == operation
  {
    Transaction(None, from, to, time, amount, operation)
  }
}
