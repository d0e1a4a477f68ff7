/** The error values of the verifier and of the gnark key parser. */
module Groth16Errors {
  datatype Groth16Error =
    | ProofVerificationFailed
    | PreparingInputsG1AdditionFailed
    | PreparingInputsG1MulFailed
    | InvalidPublicInputsLength
    | PublicInputGreaterThanFieldSize
    | MissingCommitmentKey
    | CommitmentPokVerificationFailed
    | Bsb22UnsupportedMultiCommitment
    | Bsb22InvalidVerifyingKeyBinary
    | UnexpectedCommitmentKey
    | Bsb22CommittedPublicInputsUnsupported
    | Bsb22InvalidCommitmentPoint
    | Bsb22InconsistentCommitmentState
}
