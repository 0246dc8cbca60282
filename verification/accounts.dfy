/** The `Account` entity: a row of the `accounts` table, identified by its
    account number. */
module Accounts {

  /** Account numbers are the string form of a random UUID. */
  type AccountNumber = string

  /** The PIN column is declared with length 4, and account creation insists
      on exactly this many characters. */
  const PinLength: nat := 4

  /** One account. `balance` is the `amount` column: a `BigDecimal` of which
      only addition, subtraction and comparison are used, so an integer
      number of minor units stands for it. */
  datatype Account = Account(accountNumber: AccountNumber, name: string, pinCode: string, balance: int)

  /** The two-argument constructor: the caller supplies the freshly generated
      UUID, the account starts with a zero balance and stores name and PIN
      exactly as given. */
  function NewAccount(uuid: AccountNumber, name: string, pinCode: string): (a: Account)
    ensures a.accountNumber == uuid
    ensures a.name == name && a.pinCode == pinCode
    ensures a.balance == 0
  {
    Account(uuid, name, pinCode, 0)
  }
}
