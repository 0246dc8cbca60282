/** The service's exceptions, as error values. */
module Errors {

  /** `NotFoundException`, `WrongPinException` and `NotEnoughFundsException`. */
  datatype Error = NotFound | WrongPin | NotEnoughFunds
}
