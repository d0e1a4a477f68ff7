/** What acceptance means for curve points: the byte-level results of module Groth16 read through the
    contracts of the runtime calls. */
module Groth16Acceptance {
  import opened Wrappers
  import opened ByteStrings
  import opened Bn254
  import opened Groth16Errors
  import opened PairingSetting
  import opened Groth16
  import opened Groth16Runs

  // ----- the contracts of the runtime calls -----

  ghost function AdditionResult<G1(!new), G2(!new), GT(!new)>(s: Setting<G1, G2, GT>, b: Bytes128): Option<Bytes64> {
    match (s.DecodeG1(b[..64]), s.DecodeG1(b[64..]))
    case (Some(p), Some(q)) => Some(s.EncodeG1(s.add(p, q)))
    case _ => None
  }

  /** The scalar is any 256-bit number; the call does not reduce or reject it. */
  ghost function MultiplicationResult<G1(!new), G2(!new), GT(!new)>(
    s: Setting<G1, G2, GT>, b: Bytes96): Option<Bytes64>
  {
    match s.DecodeG1(b[..64])
    case Some(p) => Some(s.EncodeG1(s.Smul(OS2IP(b[64..]), p)))
    case None => None
  }

  /** A big-endian 1 when the product of the pairings is one, and otherwise a big-endian 0. */
  ghost function PairingResult<G1(!new), G2(!new), GT(!new)>(s: Setting<G1, G2, GT>, b: seq<byte>): Option<Bytes32> {
    if |b| % 192 != 0 then None
    else
      match s.PairingProduct(b)
      case Some(z) => Some(I2OSP(if z == s.one then 1 else 0, 32))
      case None => None
  }

  ghost predicate Meets<G1(!new), G2(!new), GT(!new)>(sys: Syscalls, s: Setting<G1, G2, GT>) {
    && (forall b: Bytes128 :: sys.g1Addition(b) == AdditionResult(s, b))
    && (forall b: Bytes96 :: sys.g1Multiplication(b) == MultiplicationResult(s, b))
    && (forall b: seq<byte> :: sys.pairing(b) == PairingResult(s, b))
  }

  /** Every setting has runtime calls that meet the contracts. */
  lemma ContractsCanBeMet<G1(!new), G2(!new), GT(!new)>(s: Setting<G1, G2, GT>, sha: H.Sha256)
    ensures exists sys: Syscalls :: Meets(sys, s) && sys.sha256 == sha
  {
    ghost var sys := Syscalls(
      b => AdditionResult(s, b), b => MultiplicationResult(s, b), b => PairingResult(s, b), sha);
    assert Meets(sys, s);
  }

  // ----- the prepared point -----

  /** The point an encoding stands for; encodings that do not decode are excluded separately. */
  ghost function Pt<G1(!new), G2(!new), GT(!new)>(s: Setting<G1, G2, GT>, b: Bytes64): G1 {
    match s.DecodeG1(b)
    case Some(p) => p
    case None => s.zero
  }

  /** The sum of x_k IC[k + 1] over the inputs from the `i`-th on. */
  ghost function InputSum<G1(!new), G2(!new), GT(!new)>(
    s: Setting<G1, G2, GT>, ic: seq<Bytes64>, inputs: seq<Bytes32>, i: nat): G1
    requires i <= |inputs| < |ic|
    decreases |inputs| - i
  {
    if i == |inputs| then s.zero
    else s.add(s.Smul(OS2IP(inputs[i]), Pt(s, ic[i + 1])), InputSum(s, ic, inputs, i + 1))
  }

  /** L = IC[0] + sum of x_k IC[k + 1], plus the commitment's hash times the last column and the commitment. */
  ghost function PreparedPoint<G1(!new), G2(!new), GT(!new)>(s: Setting<G1, G2, GT>, p: Instance): G1
    requires Constructed(p)
  {
    var l := s.add(Pt(s, p.vk.ic[0]), InputSum(s, p.vk.ic, p.publicInputs, 0));
    match p.proofCommitment
    case None => l
    case Some(d) =>
      var hash := H.HashToFieldSpec(p.sys.sha256, d, Ascii("bsb22-commitment"));
      s.add(s.add(l, s.Smul(hash, Pt(s, p.vk.ic[|p.publicInputs| + 1]))), Pt(s, d))
  }

  ghost predicate ColumnsDecode<G1(!new), G2(!new), GT(!new)>(
    s: Setting<G1, G2, GT>, ic: seq<Bytes64>, lo: nat, hi: nat)
    requires hi <= |ic|
  {
    forall j :: lo <= j < hi ==> s.DecodeG1(ic[j]).Some?
  }

  ghost predicate KeyColumnsDecode<G1(!new), G2(!new), GT(!new)>(s: Setting<G1, G2, GT>, ic: seq<Bytes64>) {
    ColumnsDecode(s, ic, 0, |ic|)
  }

  predicate InRangeFrom(inputs: seq<Bytes32>, check: bool, i: nat) {
    check ==> forall k :: i <= k < |inputs| ==> OS2IP(inputs[k]) < FR_MODULUS
  }

  predicate InRange(p: Instance, check: bool) {
    InRangeFrom(p.publicInputs, check, 0)
  }

  lemma AddMeaning<G1(!new), G2(!new), GT(!new)>(s: Setting<G1, G2, GT>, sys: Syscalls, point: Bytes64, acc: Bytes64)
    requires s.Lawful() && Meets(sys, s)
    ensures G1AddSpec(sys, point, acc).Ok? <==> s.DecodeG1(point).Some? && s.DecodeG1(acc).Some?
    ensures G1AddSpec(sys, point, acc).Ok? ==>
      s.DecodeG1(G1AddSpec(sys, point, acc).value) == Some(s.add(Pt(s, point), Pt(s, acc)))
  {
    var b: Bytes128 := point + acc;
    assert b[..64] == point && b[64..] == acc;
    assert sys.g1Addition(b) == AdditionResult(s, b);
    s.EncodeDecode(s.add(Pt(s, point), Pt(s, acc)));
  }

  lemma MulAddMeaning<G1(!new), G2(!new), GT(!new)>(
    s: Setting<G1, G2, GT>, sys: Syscalls, point: Bytes64, scalar: Bytes32, acc: Bytes64)
    requires s.Lawful() && Meets(sys, s)
    ensures var r := G1MulAddSpec(sys, point, scalar, acc);
      && (s.DecodeG1(point).None? ==> r == Err(PreparingInputsG1MulFailed))
      && (s.DecodeG1(point).Some? && s.DecodeG1(acc).None? ==> r == Err(PreparingInputsG1AdditionFailed))
      && (r.Ok? <==> s.DecodeG1(point).Some? && s.DecodeG1(acc).Some?)
      && (r.Ok? ==> s.DecodeG1(r.value) == Some(s.add(Pt(s, acc), s.Smul(OS2IP(scalar), Pt(s, point)))))
  {
    var b: Bytes96 := point + scalar;
    assert b[..64] == point && b[64..] == scalar;
    assert sys.g1Multiplication(b) == MultiplicationResult(s, b);
    if s.DecodeG1(point).Some? {
      var product := s.Smul(OS2IP(scalar), Pt(s, point));
      s.EncodeDecode(product);
      AddMeaning(s, sys, s.EncodeG1(product), acc);
      assert s.AddGroupAt(product, Pt(s, acc), s.zero);
    }
  }

  lemma DecodedPoint<G1(!new), G2(!new), GT(!new)>(s: Setting<G1, G2, GT>, b: Bytes64)
    ensures s.DecodeG1(b).Some? ==> s.DecodeG1(b) == Some(Pt(s, b))
  {
  }

  /** From a running sum that decodes, the loop succeeds exactly when the remaining inputs are in range and
      their columns decode, and adds the remaining terms; it never fails in an addition. */
  lemma {:induction false} FoldMeaning<G1(!new), G2(!new), GT(!new)>(
    s: Setting<G1, G2, GT>, sys: Syscalls, check: bool, ic: seq<Bytes64>, inputs: seq<Bytes32>, i: nat, acc: Bytes64)
    requires s.Lawful() && Meets(sys, s)
    requires i <= |inputs| < |ic| && s.DecodeG1(acc).Some?
    ensures var r := FoldInputs(sys, check, ic, inputs, i, acc);
      && (r.Ok? <==> InRangeFrom(inputs, check, i) && ColumnsDecode(s, ic, i + 1, |inputs| + 1))
      && (r.Ok? ==> s.DecodeG1(r.value) == Some(s.add(Pt(s, acc), InputSum(s, ic, inputs, i))))
      && (r.Err? ==> r.error == PublicInputGreaterThanFieldSize || r.error == PreparingInputsG1MulFailed)
    decreases |inputs| - i
  {
    hide Setting.DecodeG1, Setting.Smul, OS2IP, G1MulAddSpec, Pt;
    DecodedPoint(s, acc);
    if i == |inputs| {
      assert s.AddGroupAt(Pt(s, acc), s.zero, s.zero);
    } else {
      MulAddMeaning(s, sys, ic[i + 1], inputs[i], acc);
      var step := G1MulAddSpec(sys, ic[i + 1], inputs[i], acc);
      if step.Ok? {
        DecodedPoint(s, step.value);
        FoldMeaning(s, sys, check, ic, inputs, i + 1, step.value);
        assert s.AddGroupAt(Pt(s, acc), s.Smul(OS2IP(inputs[i]), Pt(s, ic[i + 1])), InputSum(s, ic, inputs, i + 1));
      }
    }
  }

  /** A first column that does not decode survives only when nothing is added to it. */
  lemma BadStart<G1(!new), G2(!new), GT(!new)>(
    s: Setting<G1, G2, GT>, sys: Syscalls, check: bool, ic: seq<Bytes64>, inputs: seq<Bytes32>, acc: Bytes64)
    requires s.Lawful() && Meets(sys, s)
    requires |inputs| < |ic| && s.DecodeG1(acc).None?
    ensures var r := FoldInputs(sys, check, ic, inputs, 0, acc); r.Ok? ==> inputs == [] && r.value == acc
    ensures FoldInputs(sys, check, ic, inputs, 0, acc) != Err(Bsb22InvalidCommitmentPoint)
  {
    if inputs != [] {
      MulAddMeaning(s, sys, ic[1], inputs[0], acc);
    }
  }

  /** When preparation succeeds, what it yields, and when it blames the commitment.  The running sum before
      the commitment is added always decodes, so only the commitment itself can cause that error. */
  lemma PrepareMeaning<G1(!new), G2(!new), GT(!new)>(s: Setting<G1, G2, GT>, p: Instance, check: bool)
    requires s.Lawful() && Meets(p.sys, s) && Constructed(p)
    ensures KeyColumnsDecode(s, p.vk.ic) ==>
      (PrepareSpec(p, check).Ok? <==>
        InRange(p, check) && (p.proofCommitment.Some? ==> s.DecodeG1(p.proofCommitment.value).Some?))
    ensures KeyColumnsDecode(s, p.vk.ic) && PrepareSpec(p, check).Ok? ==>
      s.DecodeG1(PrepareSpec(p, check).value) == Some(PreparedPoint(s, p))
    ensures !KeyColumnsDecode(s, p.vk.ic) && PrepareSpec(p, check).Ok? ==>
      s.DecodeG1(PrepareSpec(p, check).value).None?
    ensures PrepareSpec(p, check) == Err(Bsb22InvalidCommitmentPoint) <==>
      && InRange(p, check) && KeyColumnsDecode(s, p.vk.ic)
      && p.proofCommitment.Some? && s.DecodeG1(p.proofCommitment.value).None?
  {
    var ic, inputs := p.vk.ic, p.publicInputs;
    hide Setting.DecodeG1, Setting.Smul, OS2IP, G1MulAddSpec, G1AddSpec, FoldInputs, InputSum, CommitmentHash, Pt;
    hide Ascii, I2OSP, H.HashToFieldSpec;
    DecodedPoint(s, ic[0]);
    if s.DecodeG1(ic[0]).Some? {
      FoldMeaning(s, p.sys, check, ic, inputs, 0, ic[0]);
    } else {
      BadStart(s, p.sys, check, ic, inputs, ic[0]);
    }
    var fold := FoldInputs(p.sys, check, ic, inputs, 0, ic[0]);
    if fold.Ok? && p.proofCommitment.Some? {
      var d := p.proofCommitment.value;
      var hash := CommitmentHash(p.sys, d);
      MulAddMeaning(s, p.sys, ic[|inputs| + 1], hash, fold.value);
      var withHash := G1MulAddSpec(p.sys, ic[|inputs| + 1], hash, fold.value);
      DecodedPoint(s, fold.value);
      if withHash.Ok? {
        DecodedPoint(s, withHash.value);
        DecodedPoint(s, d);
        AddMeaning(s, p.sys, d, withHash.value);
        assert s.AddGroupAt(Pt(s, d), Pt(s, withHash.value), s.zero);
      }
    }
  }

  // ----- which error preparation reports -----

  /** The scalars for the columns behind the first: the inputs, and the commitment's hash. */
  function Scalars(p: Instance): seq<Bytes32> {
    match p.proofCommitment
    case None => p.publicInputs
    case Some(d) => p.publicInputs + [I2OSP(H.HashToFieldSpec(p.sys.sha256, d, Ascii("bsb22-commitment")), 32)]
  }

  /** What is wrong with the `k`-th term, if anything.  The first addition also reads the first column. */
  ghost function TermError<G1(!new), G2(!new), GT(!new)>(
    s: Setting<G1, G2, GT>, check: bool, ic: seq<Bytes64>, scalars: seq<Bytes32>, k: nat): Option<Groth16Error>
    requires k < |scalars| < |ic|
  {
    if check && OS2IP(scalars[k]) >= FR_MODULUS then Some(PublicInputGreaterThanFieldSize)
    else if s.DecodeG1(ic[k + 1]).None? then Some(PreparingInputsG1MulFailed)
    else if k == 0 && s.DecodeG1(ic[0]).None? then Some(PreparingInputsG1AdditionFailed)
    else None
  }

  ghost predicate TermsFine<G1(!new), G2(!new), GT(!new)>(
    s: Setting<G1, G2, GT>, check: bool, ic: seq<Bytes64>, scalars: seq<Bytes32>, n: nat)
    requires n <= |scalars| < |ic|
  {
    forall j :: 0 <= j < n ==> TermError(s, check, ic, scalars, j).None?
  }

  /** The `k`-th term is the first with something wrong, and `e` says what. */
  ghost predicate FailsFirst<G1(!new), G2(!new), GT(!new)>(
    s: Setting<G1, G2, GT>, check: bool, ic: seq<Bytes64>, scalars: seq<Bytes32>, k: nat, e: Groth16Error)
    requires |scalars| < |ic|
  {
    k < |scalars| && TermError(s, check, ic, scalars, k) == Some(e) && TermsFine(s, check, ic, scalars, k)
  }

  ghost predicate SomeTermFails<G1(!new), G2(!new), GT(!new)>(
    s: Setting<G1, G2, GT>, check: bool, ic: seq<Bytes64>, scalars: seq<Bytes32>, e: Groth16Error)
    requires |scalars| < |ic|
  {
    exists k: nat :: FailsFirst(s, check, ic, scalars, k, e)
  }

  /** The loop stops at the first term that is wrong, with the error for it. */
  lemma {:induction false} FoldFailsFirst<G1(!new), G2(!new), GT(!new)>(
    s: Setting<G1, G2, GT>, sys: Syscalls, check: bool, ic: seq<Bytes64>, scalars: seq<Bytes32>, i: nat, acc: Bytes64)
    requires s.Lawful() && Meets(sys, s)
    requires i <= |scalars| < |ic|
    requires if i == 0 then acc == ic[0] else s.DecodeG1(acc).Some?
    requires TermsFine(s, check, ic, scalars, i)
    ensures match FoldInputs(sys, check, ic, scalars, i, acc)
      case Ok(sum) => TermsFine(s, check, ic, scalars, |scalars|) && (scalars != [] ==> s.DecodeG1(sum).Some?)
      case Err(e) => SomeTermFails(s, check, ic, scalars, e)
    decreases |scalars| - i
  {
    hide Setting.DecodeG1, OS2IP, G1MulAddSpec;
    if i < |scalars| {
      var step := G1MulAddSpec(sys, ic[i + 1], scalars[i], acc);
      MulAddMeaning(s, sys, ic[i + 1], scalars[i], acc);
      match TermError(s, check, ic, scalars, i)
      case Some(e) =>
        assert FoldInputs(sys, check, ic, scalars, i, acc) == Err(e);
        assert FailsFirst(s, check, ic, scalars, i, e);
      case None =>
        assert FoldInputs(sys, check, ic, scalars, i, acc) == FoldInputs(sys, check, ic, scalars, i + 1, step.value);
        FoldFailsFirst(s, sys, check, ic, scalars, i + 1, step.value);
    }
  }

  /** Preparation is to fail with `e`: the first wrong term says so, or only the commitment is wrong. */
  ghost predicate PreparationFails<G1(!new), G2(!new), GT(!new)>(
    s: Setting<G1, G2, GT>, p: Instance, check: bool, e: Groth16Error)
    requires Constructed(p)
  {
    || SomeTermFails(s, check, p.vk.ic, Scalars(p), e)
    || (e == Bsb22InvalidCommitmentPoint && TermsFine(s, check, p.vk.ic, Scalars(p), |Scalars(p)|)
        && p.proofCommitment.Some? && s.DecodeG1(p.proofCommitment.value).None?)
  }

  /** The loop over all scalars, the commitment's hash being the last, is the preparation. */
  lemma FoldOfScalars(p: Instance, check: bool)
    requires Constructed(p)
    ensures PrepareSpec(p, check) ==
      match FoldInputs(p.sys, check, p.vk.ic, Scalars(p), 0, p.vk.ic[0])
      case Err(e) => Err(e)
      case Ok(sum) =>
        match p.proofCommitment
        case None => Ok(sum)
        case Some(d) =>
          match G1AddSpec(p.sys, d, sum)
          case Ok(total) => Ok(total)
          case Err(_) => Err(Bsb22InvalidCommitmentPoint)
  {
    hide FoldInputs, CommitmentHash, G1AddSpec, G1MulAddSpec;
    if p.proofCommitment.Some? {
      HashIsOneMoreInput(p, check, p.proofCommitment.value);
    }
  }

  /** Every error of the preparation, exactly. */
  lemma PreparationErrors<G1(!new), G2(!new), GT(!new)>(
    s: Setting<G1, G2, GT>, p: Instance, check: bool, e: Groth16Error)
    requires s.Lawful() && Meets(p.sys, s) && Constructed(p)
    ensures PrepareSpec(p, check) == Err(e) <==> PreparationFails(s, p, check, e)
  {
    hide Setting.DecodeG1, Setting.Lawful, Meets, FoldInputs, PrepareSpec, TermError, G1AddSpec, CommitmentHash;
    hide OS2IP;
    var ic, scalars := p.vk.ic, Scalars(p);
    FoldFailsFirst(s, p.sys, check, ic, scalars, 0, ic[0]);
    FoldOfScalars(p, check);
    var fold := FoldInputs(p.sys, check, ic, scalars, 0, ic[0]);
    if fold.Ok? && p.proofCommitment.Some? {
      AddMeaning(s, p.sys, p.proofCommitment.value, fold.value);
    }
    if fold.Err? {
      OneFirstFailure(s, check, ic, scalars, fold.error, e);
    }
  }

  lemma OneFirstFailure<G1(!new), G2(!new), GT(!new)>(
    s: Setting<G1, G2, GT>, check: bool, ic: seq<Bytes64>, scalars: seq<Bytes32>, e1: Groth16Error, e2: Groth16Error)
    requires |scalars| < |ic|
    requires SomeTermFails(s, check, ic, scalars, e1)
    ensures !TermsFine(s, check, ic, scalars, |scalars|)
    ensures SomeTermFails(s, check, ic, scalars, e2) ==> e1 == e2
  {
    hide TermError;
    var k1: nat :| FailsFirst(s, check, ic, scalars, k1, e1);
    if k2: nat :| FailsFirst(s, check, ic, scalars, k2, e2) {
      assert k1 == k2;
    }
  }
}
