/** What holds over every sequence of calls on one verifier, and between the checked and the unchecked
    verification of the same instance.  Nothing here depends on what the runtime calls compute. */
module Groth16Runs {
  import opened Wrappers
  import opened ByteStrings
  import opened Bn254
  import opened Groth16Errors
  import opened Groth16

  /** The sum stored after a run, and the results of its calls in order. */
  function Run(p: Instance, stored: Bytes64, calls: seq<Call>): (r: (Bytes64, seq<Outcome>))
    ensures |r.1| == |calls|
  {
    if calls == [] then (stored, [])
    else
      var (before, results) := Run(p, stored, calls[..|calls| - 1]);
      var (after, result) := Step(p, before, calls[|calls| - 1]);
      (after, results + [result])
  }

  /** A client that makes the calls in order on one object. */
  method Replay(v: Groth16Verifier, calls: seq<Call>) returns (results: seq<Outcome>)
    modifies v`preparedPublicInputs
    ensures (v.preparedPublicInputs, results) == Run(v.inst, old(v.preparedPublicInputs), calls)
  {
    results := [];
    for i := 0 to |calls|
      invariant (v.preparedPublicInputs, results) == Run(v.inst, old(v.preparedPublicInputs), calls[..i])
    {
      assert calls[..i + 1][..i] == calls[..i] && calls[..i + 1][i] == calls[i];
      var r;
      match calls[i] {
        case PrepareInputs(check) => r := v.PrepareInputs(check);
        case Verify => r := v.Verify();
        case VerifyUnchecked => r := v.VerifyUnchecked();
      }
      results := results + [r];
    }
    assert calls[..|calls|] == calls;
  }

  /** The result of a call, whatever the object stores. */
  function ResultOf(p: Instance, call: Call): Outcome {
    match call
    case Verify => VerifySpec(p, true)
    case VerifyUnchecked => VerifySpec(p, false)
    case PrepareInputs(check) =>
      match PrepareSpec(p, check)
      case Ok(_) => Ok(())
      case Err(e) => Err(e)
  }

  lemma StepResult(p: Instance, stored: Bytes64, call: Call)
    ensures Step(p, stored, call).1 == ResultOf(p, call)
  {
    hide PrepareSpec, PairingSpec, PokSpec;
  }

  predicate IsOne(result: Option<Bytes32>) {
    result.Some? && result.value[31] == 1
  }

  /** What a verification asks the runtime, and what it makes of the answers, for any runtime: only the last
      octet of each result counts. */
  lemma VerdictOnAnswers(p: Instance, check: bool)
    requires Constructed(p) && PrepareSpec(p, check).Ok?
    ensures
      var main := p.sys.pairing(p.proofA + p.proofB + PrepareSpec(p, check).value + p.vk.gammaG2
        + p.proofC + p.vk.deltaG2 + p.vk.alphaG1 + p.vk.betaG2);
      var pok := p.proofCommitment.Some? ==>
        IsOne(p.sys.pairing(p.proofCommitment.value + p.vk.commitment.value.gSigmaNegG2
          + p.proofCommitmentPok.value + p.vk.commitment.value.g2));
      VerifySpec(p, check) ==
        if !IsOne(main) then Err(ProofVerificationFailed)
        else if !pok then Err(CommitmentPokVerificationFailed)
        else Ok(())
  {
    hide PrepareSpec;
  }

  predicate Prepares(p: Instance, call: Call) {
    PrepareSpec(p, call.Checks()).Ok?
  }

  predicate IsInternalError(r: Outcome) {
    r == Err(Bsb22InconsistentCommitmentState) || r == Err(InvalidPublicInputsLength)
  }

  predicate AllBelowModulus(inputs: seq<Bytes32>) {
    forall i :: 0 <= i < |inputs| ==> OS2IP(inputs[i]) < FR_MODULUS
  }

  /** Every result in a run is the verdict on the instance, so that of a fresh object; the two errors that a
      broken invariant would cause never occur; and the stored sum is the unchecked sum of the instance if any
      call got as far as storing one, and otherwise what it was. */
  lemma {:induction false} RunsMatchFreshVerifiers(p: Instance, stored: Bytes64, calls: seq<Call>)
    requires Constructed(p)
    ensures forall i :: 0 <= i < |calls| ==>
      && Run(p, stored, calls).1[i] == ResultOf(p, calls[i]) == Step(p, Zeros(64), calls[i]).1
      && !IsInternalError(Run(p, stored, calls).1[i])
    ensures if exists i :: 0 <= i < |calls| && Prepares(p, calls[i])
      then PrepareSpec(p, false) == Ok(Run(p, stored, calls).0)
      else Run(p, stored, calls).0 == stored
  {
    if calls == [] {
    } else {
      var n := |calls| - 1;
      RunsMatchFreshVerifiers(p, stored, calls[..n]);
      StepNeverFailsInternally(p, Run(p, stored, calls[..n]).0, calls[n]);
      CheckedSumIsUncheckedSum(p);
      forall i | 0 <= i < |calls|
        ensures Run(p, stored, calls).1[i] == ResultOf(p, calls[i]) == Step(p, Zeros(64), calls[i]).1
        ensures !IsInternalError(Run(p, stored, calls).1[i])
      {
        assert i < n ==> calls[..n][i] == calls[i];
        StepResult(p, Run(p, stored, calls[..n]).0, calls[n]);
        StepResult(p, Zeros(64), calls[i]);
      }
      if i :| 0 <= i < n && Prepares(p, calls[i]) {
        assert Prepares(p, calls[..n][i]);
      }
    }
  }

  lemma {:induction false} FoldNeverRunsOut(
    sys: Syscalls, check: bool, ic: seq<Bytes64>, inputs: seq<Bytes32>, i: nat, acc: Bytes64)
    requires i <= |inputs| < |ic|
    ensures FoldInputs(sys, check, ic, inputs, i, acc) !in
      {Err(Bsb22InconsistentCommitmentState), Err(InvalidPublicInputsLength), Err(Bsb22InvalidCommitmentPoint)}
    decreases |inputs| - i
  {
    if i < |inputs| {
      match G1MulAddSpec(sys, ic[i + 1], inputs[i], acc)
      case Ok(acc') => FoldNeverRunsOut(sys, check, ic, inputs, i + 1, acc');
      case Err(_) =>
    }
  }

  /** A constructed verifier reports neither inconsistent state nor a wrong number of inputs. */
  lemma StepNeverFailsInternally(p: Instance, stored: Bytes64, call: Call)
    requires Constructed(p)
    ensures !IsInternalError(Step(p, stored, call).1)
  {
    FoldNeverRunsOut(p.sys, call.Checks(), p.vk.ic, p.publicInputs, 0, p.vk.ic[0]);
  }

  /** The check only ever adds one error: the first out-of-range input reached without another error. */
  lemma {:induction false} CheckOnlyRejects(sys: Syscalls, ic: seq<Bytes64>, inputs: seq<Bytes32>, i: nat, acc: Bytes64)
    requires i <= |inputs|
    ensures var checked := FoldInputs(sys, true, ic, inputs, i, acc);
      var unchecked := FoldInputs(sys, false, ic, inputs, i, acc);
      && (checked == unchecked || checked == Err(PublicInputGreaterThanFieldSize))
      && ((forall k :: i <= k < |inputs| ==> OS2IP(inputs[k]) < FR_MODULUS) ==> checked == unchecked)
      && (checked.Ok? ==> forall k :: i <= k < |inputs| ==> OS2IP(inputs[k]) < FR_MODULUS)
    decreases |inputs| - i
  {
    if i < |inputs| && i + 1 < |ic| {
      match G1MulAddSpec(sys, ic[i + 1], inputs[i], acc)
      case Ok(acc') => CheckOnlyRejects(sys, ic, inputs, i + 1, acc');
      case Err(_) =>
    }
  }

  lemma CheckedSumIsUncheckedSum(p: Instance)
    ensures PrepareSpec(p, true).Ok? ==> PrepareSpec(p, false) == PrepareSpec(p, true)
  {
    if p.vk.ic != [] {
      CheckOnlyRejects(p.sys, p.vk.ic, p.publicInputs, 0, p.vk.ic[0]);
    }
  }

  /** `verify` is `verify_unchecked` plus the range check: the same result, error for error, when all
      inputs are in range, and never acceptance otherwise. */
  lemma CheckedIsUncheckedInRange(p: Instance)
    ensures AllBelowModulus(p.publicInputs) ==> VerifySpec(p, true) == VerifySpec(p, false)
    ensures VerifySpec(p, true).Ok? <==> AllBelowModulus(p.publicInputs) && VerifySpec(p, false).Ok?
  {
    if p.vk.ic != [] {
      CheckOnlyRejects(p.sys, p.vk.ic, p.publicInputs, 0, p.vk.ic[0]);
    }
  }

  // ----- the commitment as one more input -----

  lemma {:induction false} FoldOneMore(
    sys: Syscalls, check: bool, ic: seq<Bytes64>, inputs: seq<Bytes32>, last: Bytes32, i: nat, acc: Bytes64)
    requires i <= |inputs|
    ensures FoldInputs(sys, check, ic, inputs + [last], i, acc) ==
      match FoldInputs(sys, check, ic, inputs, i, acc)
      case Err(e) => Err(e)
      case Ok(sum) => FoldInputs(sys, check, ic, inputs + [last], |inputs|, sum)
    decreases |inputs| - i
  {
    if i < |inputs| {
      assert (inputs + [last])[i] == inputs[i];
      if i + 1 < |ic| {
        match G1MulAddSpec(sys, ic[i + 1], inputs[i], acc)
        case Ok(acc') => FoldOneMore(sys, check, ic, inputs, last, i + 1, acc');
        case Err(_) =>
      }
    }
  }

  /** Preparing an instance with a commitment is preparing the inputs with the commitment's hash appended,
      range check included, and then adding the commitment itself. */
  lemma HashIsOneMoreInput(p: Instance, check: bool, commitment: Bytes64)
    requires Constructed(p) && p.proofCommitment == Some(commitment)
    ensures PrepareSpec(p, check) ==
      var hash := I2OSP(H.HashToFieldSpec(p.sys.sha256, commitment, Ascii("bsb22-commitment")), 32);
      match FoldInputs(p.sys, check, p.vk.ic, p.publicInputs + [hash], 0, p.vk.ic[0])
      case Err(e) => Err(e)
      case Ok(sum) =>
        match G1AddSpec(p.sys, commitment, sum)
        case Ok(total) => Ok(total)
        case Err(_) => Err(Bsb22InvalidCommitmentPoint)
  {
    var hash, n := CommitmentHash(p.sys, commitment), |p.publicInputs|;
    FoldOneMore(p.sys, check, p.vk.ic, p.publicInputs, hash, 0, p.vk.ic[0]);
    match FoldInputs(p.sys, check, p.vk.ic, p.publicInputs, 0, p.vk.ic[0])
    case Err(_) =>
    case Ok(sum) =>
      assert FoldInputs(p.sys, check, p.vk.ic, p.publicInputs + [hash], n, sum)
        == G1MulAddSpec(p.sys, p.vk.ic[n + 1], hash, sum);
  }
}
