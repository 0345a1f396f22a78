/** The errors a nameservice invocation can end with. Every error aborts the
    invocation; the host discards whatever it wrote. */
module Errors {

  /** Errors raised by the host's standard library: a singleton read before it was
      saved, or a message the host produced itself (an address it refused). */
  datatype StdError =
    | NotFound(kind: string)
    | GenericErr(msg: string)

  /** The contract's own error kinds; `Std` wraps a host error passed through. */
  datatype ContractError =
    | Std(std: StdError)
    | Unauthorized
    | NameTaken(name: string)
    | NameNotExists(name: string)
    | NameTooShort(length: nat, minLength: nat)
    | NameTooLong(length: nat, maxLength: nat)
    | InvalidCharacter(c: char)
    | InsufficientFunds(detail: string)

  /** The outcome of a step that produces no value: `Ok(())` or an error. */
  datatype Outcome = Pass | Fail(error: ContractError)
}
