/** Results of operations that may have none, fail with an error, or panic. */
module Wrappers {
  datatype Option<T> = None | Some(value: T)

  datatype Error =
    | CiphertextVerificationFailed
    | SymmetricEncryptionError
    | InvalidShareIndex(index: nat)
    | InvalidValidatorDecryptionKey
    | IdentityDkgPublicKey
    | InvalidDkgParameters(sharesNum: nat, threshold: nat)
    | DuplicatedShareIndex(index: nat)
    | InvalidTranscriptDegree(expected: nat, actual: nat)
    | IdentityValidatorEncryptionKey(address: string)
    | ValidatorPublicKeyMismatch
    | DealerNotInValidatorSet(address: string)
    | UnknownDealer(address: string)
    | DuplicateDealer(address: string)
    | DuplicateTranscript(address: string)
    | InvalidPvssTranscript(address: string)
    | TooManyTranscripts(expected: nat, actual: nat)
    | NoTranscriptsToAggregate
    | NoTranscriptsToVerify
    | MismatchedTranscriptLengths(what: string, expected: nat, actual: nat)
    | InvalidTranscriptAggregate
    | InvalidAggregatePublicKey
    | InvalidAggregateVerificationParameters(validators: nat, messages: nat)
    | EmptyTranscript
    | InvalidShareUpdate

  datatype Result<T> = Ok(value: T) | Err(error: Error)

  /** A failed assertion or unwrapping in the source is a panic. */
  datatype Outcome<T> = Returned(value: T) | Failed(error: Error) | Panicked

  function OutcomeOf<T>(r: Result<T>): Outcome<T> {
    match r
    case Ok(value) => Returned(value)
    case Err(error) => Failed(error)
  }
}
