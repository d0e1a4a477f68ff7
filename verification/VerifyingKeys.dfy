/** Verifying keys, in the form the verifier reads them. */
module VerifyingKeys {
  import opened Wrappers
  import opened ByteStrings

  datatype CommitmentVerifyingKey = CommitmentVerifyingKey(g2: Bytes128, gSigmaNegG2: Bytes128)

  datatype VerifyingKey = VerifyingKey(
    nrPubinputs: nat,
    alphaG1: Bytes64,
    betaG2: Bytes128,
    gammaG2: Bytes128,
    deltaG2: Bytes128,
    ic: seq<Bytes64>,
    commitment: Option<CommitmentVerifyingKey>)

  /** The condition under which a key must not be declared a production key. */
  predicate DeltaEqualsGamma(vk: VerifyingKey) {
    vk.gammaG2 == vk.deltaG2
  }
}
