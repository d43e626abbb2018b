/** Shared value types of the Stacks Pay codec: optional values, results and the error set. */
module Types {

  datatype Option<+T> = None | Some(value: T)

  /** One constructor per error the codec raises; the comment names the situation. */
  datatype Error =
    | UnknownOperation                             // operation neither in the registry nor `custom-`
    | MissingParameter(param: string, op: string)  // a required parameter is absent
    | NotAllowed(key: string, op: string)          // a parameter outside required, optional and ignore
    | InvalidRecipient                             // `recipient` is not a Stacks address
    | InvalidToken                                 // `token` is neither `STX` nor `address.contract`
    | InvalidAmount                                // `amount` is not a decimal numeral
    | InvalidDate(key: string)                     // `expiresAt` or `dueDate` does not parse as a date
    | ContractNameRequired                         // empty `contractName` on `mint`
    | FunctionNameRequired                         // empty `functionName` on `mint`
    | NotIterable                                  // TypeError: registry entry inherited from Object.prototype
    | InvalidProtocol                              // the URL does not start with `web+stx:`
    | InvalidHrp                                   // the bech32m human-readable prefix is not `stx`
    | Bech32Failure                                // the bech32 library threw (checksum, charset, length limit)

  datatype Result<+T> = Ok(value: T) | Err(error: Error)

  /** The result of a check that returns nothing but may throw. */
  datatype Outcome = Pass | Fail(error: Error)
}
