/** The verifier at the level of bytes: what each operation returns, error by error, as functions of its
    inputs, and the mutable verifier object proved against them.  What the results mean for curve points
    is in module Groth16Acceptance. */
module Groth16 {
  import opened Wrappers
  import opened ByteStrings
  import opened Buffers
  import opened Bn254
  import opened FieldSize
  import opened Groth16Errors
  import opened VerifyingKeys
  import H = HashToField

  /** The runtime calls.  `None` stands for a call the runtime rejects. */
  datatype Syscalls = Syscalls(
    g1Addition: Bytes128 -> Option<Bytes64>,
    g1Multiplication: Bytes96 -> Option<Bytes64>,
    pairing: seq<byte> -> Option<Bytes32>,
    sha256: H.Sha256)

  /** Everything a verifier holds besides the prepared sum. */
  datatype Instance = Instance(
    sys: Syscalls,
    proofA: Bytes64,
    proofB: Bytes128,
    proofC: Bytes64,
    publicInputs: seq<Bytes32>,
    vk: VerifyingKey,
    proofCommitment: Option<Bytes64>,
    proofCommitmentPok: Option<Bytes64>)

  type Outcome = Result<(), Groth16Error>

  const BSB22_DST: seq<byte> :=
    [0x62, 0x73, 0x62, 0x32, 0x32, 0x2d, 0x63, 0x6f, 0x6d, 0x6d, 0x69, 0x74, 0x6d, 0x65, 0x6e, 0x74]

  /** The scalar the commitment contributes as an extra public input. */
  function CommitmentHash(sys: Syscalls, commitment: Bytes64): (h: Bytes32)
    ensures OS2IP(h) == H.HashToFieldSpec(sys.sha256, commitment, Ascii("bsb22-commitment")) < FR_MODULUS
    ensures h == I2OSP(OS2IP(h), 32)
  {
    assert BSB22_DST == Ascii("bsb22-commitment");
    var v := H.HashToFieldSpec(sys.sha256, commitment, BSB22_DST);
    Pow256Values();
    I2OSPRoundTrip(v, 32);
    I2OSP(v, 32)
  }

  // ----- what each operation returns -----

  function G1AddSpec(sys: Syscalls, point: Bytes64, acc: Bytes64): Result<Bytes64, Groth16Error> {
    match sys.g1Addition(point + acc)
    case Some(sum) => Ok(sum)
    case None => Err(PreparingInputsG1AdditionFailed)
  }

  function G1MulAddSpec(sys: Syscalls, point: Bytes64, scalar: Bytes32, acc: Bytes64): Result<Bytes64, Groth16Error> {
    match sys.g1Multiplication(point + scalar)
    case Some(product) => G1AddSpec(sys, product, acc)
    case None => Err(PreparingInputsG1MulFailed)
  }

  /** The sum over the inputs from the `i`-th on, or the first error. */
  function FoldInputs(sys: Syscalls, check: bool, ic: seq<Bytes64>, inputs: seq<Bytes32>, i: nat, acc: Bytes64)
    : Result<Bytes64, Groth16Error>
    requires i <= |inputs|
    decreases |inputs| - i
  {
    if i == |inputs| then Ok(acc)
    else if check && OS2IP(inputs[i]) >= FR_MODULUS then Err(PublicInputGreaterThanFieldSize)
    else if i + 1 >= |ic| then Err(InvalidPublicInputsLength)
    else
      match G1MulAddSpec(sys, ic[i + 1], inputs[i], acc)
      case Ok(acc') => FoldInputs(sys, check, ic, inputs, i + 1, acc')
      case Err(e) => Err(e)
  }

  /** The commitment's two contributions on top of the sum over the inputs. */
  function AddCommitment(p: Instance, commitment: Bytes64, acc: Bytes64): Result<Bytes64, Groth16Error> {
    var n := |p.publicInputs|;
    if n + 1 >= |p.vk.ic| then Err(InvalidPublicInputsLength)
    else
      match G1MulAddSpec(p.sys, p.vk.ic[n + 1], CommitmentHash(p.sys, commitment), acc)
      case Err(e) => Err(e)
      case Ok(sum) =>
        match G1AddSpec(p.sys, commitment, sum)
        case Ok(total) => Ok(total)
        case Err(_) => Err(Bsb22InvalidCommitmentPoint)
  }

  function PrepareSpec(p: Instance, check: bool): Result<Bytes64, Groth16Error> {
    if p.vk.ic == [] then Err(InvalidPublicInputsLength)
    else
      match FoldInputs(p.sys, check, p.vk.ic, p.publicInputs, 0, p.vk.ic[0])
      case Err(e) => Err(e)
      case Ok(sum) =>
        if p.vk.commitment.Some? != p.proofCommitment.Some? then Err(Bsb22InconsistentCommitmentState)
        else
          match p.proofCommitment
          case Some(commitment) => AddCommitment(p, commitment, sum)
          case None => Ok(sum)
  }

  /** The last octet of the result decides; anything but 1 fails like a rejected call. */
  function PairingSpec(sys: Syscalls, input: seq<byte>, error: Groth16Error): Outcome {
    match sys.pairing(input)
    case Some(result) => if result[31] == 1 then Ok(()) else Err(error)
    case None => Err(error)
  }

  function MainPairingInput(p: Instance, prepared: Bytes64): (s: seq<byte>)
    ensures |s| == 768
  {
    p.proofA + p.proofB + prepared + p.vk.gammaG2 + p.proofC + p.vk.deltaG2 + p.vk.alphaG1 + p.vk.betaG2
  }

  function PokPairingInput(commitment: Bytes64, pok: Bytes64, key: CommitmentVerifyingKey): (s: seq<byte>)
    ensures |s| == 384
  {
    commitment + key.gSigmaNegG2 + pok + key.g2
  }

  function PokSpec(p: Instance): Outcome {
    match (p.proofCommitment, p.proofCommitmentPok, p.vk.commitment)
    case (Some(commitment), Some(pok), Some(key)) =>
      PairingSpec(p.sys, PokPairingInput(commitment, pok, key), CommitmentPokVerificationFailed)
    case (None, None, None) => Ok(())
    case _ => Err(Bsb22InconsistentCommitmentState)
  }

  /** The verdict on an instance, independent of any earlier call. */
  function VerifySpec(p: Instance, check: bool): Outcome {
    match PrepareSpec(p, check)
    case Err(e) => Err(e)
    case Ok(prepared) => VerdictOn(p, prepared)
  }

  /** What `new` demands of a key for `n` inputs. */
  function NewError(vk: VerifyingKey, n: nat): Option<Groth16Error> {
    if vk.commitment.Some? then Some(UnexpectedCommitmentKey)
    else if n + 1 != |vk.ic| then Some(InvalidPublicInputsLength)
    else None
  }

  /** What `new_with_commitment` demands of a key for `n` inputs. */
  function NewWithCommitmentError(vk: VerifyingKey, n: nat): Option<Groth16Error> {
    if vk.commitment.None? then Some(MissingCommitmentKey)
    else if n + 2 != |vk.ic| then Some(InvalidPublicInputsLength)
    else None
  }

  /** What both constructors establish. */
  predicate Constructed(p: Instance) {
    && (p.proofCommitment.Some? <==> p.vk.commitment.Some?)
    && (p.proofCommitmentPok.Some? <==> p.vk.commitment.Some?)
    && |p.vk.ic| == |p.publicInputs| + (if p.vk.commitment.Some? then 2 else 1)
  }

  // ----- calls and runs -----

  datatype Call = PrepareInputs(check: bool) | Verify | VerifyUnchecked {
    predicate Checks() {
      Verify? || (PrepareInputs? && check)
    }
  }

  /** The pairing checks on a prepared sum. */
  function VerdictOn(p: Instance, prepared: Bytes64): Outcome {
    match PairingSpec(p.sys, MainPairingInput(p, prepared), ProofVerificationFailed)
    case Err(e) => Err(e)
    case Ok(_) => PokSpec(p)
  }

  /** One call on an object that stores `stored`: the sum it stores afterwards, and the result. */
  function Step(p: Instance, stored: Bytes64, call: Call): (Bytes64, Outcome) {
    match PrepareSpec(p, call.Checks())
    case Err(e) => (stored, Err(e))
    case Ok(prepared) => (prepared, if call.PrepareInputs? then Ok(()) else VerdictOn(p, prepared))
  }

  // ----- the operations -----

  method G1Add(sys: Syscalls, point: Bytes64, acc: Bytes64) returns (r: Result<Bytes64, Groth16Error>)
    ensures r == G1AddSpec(sys, point, acc)
    ensures match sys.g1Addition(point + acc)
      case Some(sum) => r == Ok(sum)
      case None => r == Err(PreparingInputsG1AdditionFailed)
  {
    var addInput := new byte[128](_ => 0);
    CopyFromSlice(addInput, 0, point);
    CopyFromSlice(addInput, 64, acc);
    assert addInput[..] == addInput[..128] == point + acc;
    match sys.g1Addition(addInput[..])
    case Some(sum) => r := Ok(sum);
    case None => r := Err(PreparingInputsG1AdditionFailed);
  }

  method G1MulAdd(sys: Syscalls, point: Bytes64, scalar: Bytes32, acc: Bytes64)
    returns (r: Result<Bytes64, Groth16Error>)
    ensures r == G1MulAddSpec(sys, point, scalar, acc)
    ensures match sys.g1Multiplication(point + scalar)
      case None => r == Err(PreparingInputsG1MulFailed)
      case Some(product) =>
        match sys.g1Addition(product + acc)
        case Some(sum) => r == Ok(sum)
        case None => r == Err(PreparingInputsG1AdditionFailed)
  {
    var mulInput := new byte[96](_ => 0);
    CopyFromSlice(mulInput, 0, point);
    CopyFromSlice(mulInput, 64, scalar);
    assert mulInput[..] == mulInput[..96] == point + scalar;
    match sys.g1Multiplication(mulInput[..])
    case None => r := Err(PreparingInputsG1MulFailed);
    case Some(product) => r := G1Add(sys, product, acc);
  }

  /** Fills the 768-octet buffer of the four pairs. */
  method FillMainPairing(p: Instance, prepared: Bytes64) returns (input: array<byte>)
    ensures fresh(input) && input[..] == MainPairingInput(p, prepared)
    ensures input[..] == p.proofA + p.proofB + prepared + p.vk.gammaG2
      + p.proofC + p.vk.deltaG2 + p.vk.alphaG1 + p.vk.betaG2
  {
    input := new byte[768](_ => 0);
    CopyFromSlice(input, 0, p.proofA);
    CopyFromSlice(input, 64, p.proofB);
    CopyFromSlice(input, 192, prepared);
    CopyFromSlice(input, 256, p.vk.gammaG2);
    CopyFromSlice(input, 384, p.proofC);
    CopyFromSlice(input, 448, p.vk.deltaG2);
    CopyFromSlice(input, 576, p.vk.alphaG1);
    CopyFromSlice(input, 640, p.vk.betaG2);
    assert input[..768] == MainPairingInput(p, prepared);
  }

  class Groth16Verifier {
    const inst: Instance
    var preparedPublicInputs: Bytes64

    constructor (inst: Instance)
      ensures this.inst == inst && preparedPublicInputs == Zeros(64)
    {
      this.inst := inst;
      preparedPublicInputs := Zeros(64);
    }

    /** Constructor for proofs without a commitment. */
    static method New(sys: Syscalls, proofA: Bytes64, proofB: Bytes128, proofC: Bytes64,
                      publicInputs: seq<Bytes32>, vk: VerifyingKey)
      returns (r: Result<Groth16Verifier, Groth16Error>)
      ensures r.Ok? <==> NewError(vk, |publicInputs|).None?
      ensures r.Err? ==> NewError(vk, |publicInputs|) == Some(r.error)
      ensures r.Ok? <==> vk.commitment.None? && |vk.ic| == |publicInputs| + 1
      ensures r.Err? ==> r.error == if vk.commitment.Some? then UnexpectedCommitmentKey else InvalidPublicInputsLength
      ensures r.Ok? ==>
        && fresh(r.value)
        && r.value.inst == Instance(sys, proofA, proofB, proofC, publicInputs, vk, None, None)
        && r.value.preparedPublicInputs == Zeros(64)
        && Constructed(r.value.inst)
    {
      if vk.commitment.Some? {
        return Err(UnexpectedCommitmentKey);
      }
      if |publicInputs| + 1 != |vk.ic| {
        return Err(InvalidPublicInputsLength);
      }
      var v := new Groth16Verifier(Instance(sys, proofA, proofB, proofC, publicInputs, vk, None, None));
      return Ok(v);
    }

    /** Constructor for proofs with a commitment and its proof of knowledge. */
    static method NewWithCommitment(sys: Syscalls, proofA: Bytes64, proofB: Bytes128, proofC: Bytes64,
                                    commitment: Bytes64, pok: Bytes64, publicInputs: seq<Bytes32>, vk: VerifyingKey)
      returns (r: Result<Groth16Verifier, Groth16Error>)
      ensures r.Ok? <==> NewWithCommitmentError(vk, |publicInputs|).None?
      ensures r.Err? ==> NewWithCommitmentError(vk, |publicInputs|) == Some(r.error)
      ensures r.Ok? <==> vk.commitment.Some? && |vk.ic| == |publicInputs| + 2
      ensures r.Err? ==> r.error == if vk.commitment.None? then MissingCommitmentKey else InvalidPublicInputsLength
      ensures r.Ok? ==>
        && fresh(r.value)
        && r.value.inst == Instance(sys, proofA, proofB, proofC, publicInputs, vk, Some(commitment), Some(pok))
        && r.value.preparedPublicInputs == Zeros(64)
        && Constructed(r.value.inst)
    {
      if vk.commitment.None? {
        return Err(MissingCommitmentKey);
      }
      if |publicInputs| + 2 != |vk.ic| {
        return Err(InvalidPublicInputsLength);
      }
      var v := new Groth16Verifier(
        Instance(sys, proofA, proofB, proofC, publicInputs, vk, Some(commitment), Some(pok)));
      return Ok(v);
    }

    /** Folds the inputs into a running point; stores it only when every step succeeded. */
    method PrepareInputs(check: bool) returns (r: Outcome)
      modifies this`preparedPublicInputs
      ensures (preparedPublicInputs, r) == Step(inst, old(preparedPublicInputs), Call.PrepareInputs(check))
      ensures match PrepareSpec(inst, check)
        case Ok(prepared) => r == Ok(()) && preparedPublicInputs == prepared
        case Err(e) => r == Err(e) && preparedPublicInputs == old(preparedPublicInputs)
    {
      var ic, inputs := inst.vk.ic, inst.publicInputs;
      if ic == [] {
        return Err(InvalidPublicInputsLength);
      }
      var prepared := ic[0];
      for i := 0 to |inputs|
        invariant preparedPublicInputs == old(preparedPublicInputs)
        invariant FoldInputs(inst.sys, check, ic, inputs, 0, ic[0])
          == FoldInputs(inst.sys, check, ic, inputs, i, prepared)
      {
        if check && !IsLessThanBn254FieldSizeBe(inputs[i]) {
          return Err(PublicInputGreaterThanFieldSize);
        }
        if i + 1 >= |ic| {
          return Err(InvalidPublicInputsLength);
        }
        var step := G1MulAdd(inst.sys, ic[i + 1], inputs[i], prepared);
        if step.Err? {
          return Err(step.error);
        }
        prepared := step.value;
      }
      if inst.vk.commitment.Some? != inst.proofCommitment.Some? {
        return Err(Bsb22InconsistentCommitmentState);
      }
      if inst.proofCommitment.Some? {
        var commitment := inst.proofCommitment.value;
        var hash := H.HashToFieldBn254Fr(inst.sys.sha256, commitment, BSB22_DST);
        if |inputs| + 1 >= |ic| {
          return Err(InvalidPublicInputsLength);
        }
        var withHash := G1MulAdd(inst.sys, ic[|inputs| + 1], hash, prepared);
        if withHash.Err? {
          return Err(withHash.error);
        }
        var withCommitment := G1Add(inst.sys, commitment, withHash.value);
        if withCommitment.Err? {
          return Err(Bsb22InvalidCommitmentPoint);
        }
        prepared := withCommitment.value;
      }
      preparedPublicInputs := prepared;
      return Ok(());
    }

    method Verify() returns (r: Outcome)
      modifies this`preparedPublicInputs
      ensures (preparedPublicInputs, r) == Step(inst, old(preparedPublicInputs), Call.Verify)
      ensures r == VerifySpec(inst, true)
    {
      r := VerifyCommon(true);
    }

    method VerifyUnchecked() returns (r: Outcome)
      modifies this`preparedPublicInputs
      ensures (preparedPublicInputs, r) == Step(inst, old(preparedPublicInputs), Call.VerifyUnchecked)
      ensures r == VerifySpec(inst, false)
    {
      r := VerifyCommon(false);
    }

    method VerifyCommon(check: bool) returns (r: Outcome)
      modifies this`preparedPublicInputs
      ensures (preparedPublicInputs, r)
        == Step(inst, old(preparedPublicInputs), if check then Call.Verify else Call.VerifyUnchecked)
      ensures r == VerifySpec(inst, check)
      ensures PrepareSpec(inst, check).Ok? ==> preparedPublicInputs == PrepareSpec(inst, check).value
    {
      var prepared := PrepareInputs(check);
      if prepared.Err? {
        return prepared;
      }
      var input := FillMainPairing(inst, preparedPublicInputs);
      var result := inst.sys.pairing(input[..]);
      if result.None? || result.value[31] != 1 {
        return Err(ProofVerificationFailed);
      }
      r := VerifyCommitmentPok();
    }

    method VerifyCommitmentPok() returns (r: Outcome)
      ensures r == PokSpec(inst)
      ensures match (inst.proofCommitment, inst.proofCommitmentPok, inst.vk.commitment)
        case (Some(d), Some(pok), Some(key)) =>
          r == PairingSpec(inst.sys, d + key.gSigmaNegG2 + pok + key.g2, CommitmentPokVerificationFailed)
        case (None, None, None) => r == Ok(())
        case _ => r == Err(Bsb22InconsistentCommitmentState)
    {
      match (inst.proofCommitment, inst.proofCommitmentPok, inst.vk.commitment)
      case (Some(commitment), Some(pok), Some(key)) =>
        var input := new byte[384](_ => 0);
        CopyFromSlice(input, 0, commitment);
        CopyFromSlice(input, 64, key.gSigmaNegG2);
        CopyFromSlice(input, 192, pok);
        CopyFromSlice(input, 256, key.g2);
        assert input[..] == input[..384] == PokPairingInput(commitment, pok, key);
        var result := inst.sys.pairing(input[..]);
        if result.None? || result.value[31] != 1 {
          return Err(CommitmentPokVerificationFailed);
        }
        return Ok(());
      case (None, None, None) =>
        return Ok(());
      case _ =>
        return Err(Bsb22InconsistentCommitmentState);
    }
  }
}
