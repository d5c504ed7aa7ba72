/** Failure-carrying values used in place of the source's exceptions. */
module Results {

  datatype Option<+T> = None | Some(value: T)

  /** Every exception the core can throw, one constructor each. */
  datatype Error =
    | InvalidOperation      // InvalidOperationException
    | InvalidCurrency       // InvalidCurrencyException
    | InvalidRate           // InvalidRateException
    | NotEnoughFunds        // NotEnoughFundsException
    | AlreadyApproved       // CannotApproveApprovedRequestException
    | OwnRequest            // IsOwnExchangeRequestException
    | CannotDeleteApproved  // CannotDeleteApprovedRequestExceprion
    | NotFound              // CannotFindRequestException

  datatype Result<+T> = Ok(value: T) | Err(error: Error)
}
