/** The verdict of the verifier as equations between pairings, and what follows from them. */
module Groth16Theorems {
  import opened Wrappers
  import opened ByteStrings
  import opened Bn254
  import opened Groth16Errors
  import opened VerifyingKeys
  import opened PairingSetting
  import opened NegateG1
  import opened Groth16
  import opened Groth16Runs
  import opened Groth16Acceptance

  /** e(a, b) e(l, gamma) e(c, delta) e(alpha, beta) */
  ghost function FourProduct<G1(!new), G2(!new), GT(!new)>(
    s: Setting<G1, G2, GT>, a: G1, b: G2, l: G1, gamma: G2, c: G1, delta: G2, alpha: G1, beta: G2): GT
  {
    s.mul(s.pair(a, b), s.mul(s.pair(l, gamma), s.mul(s.pair(c, delta), s.pair(alpha, beta))))
  }

  ghost predicate MainPointsDecode<G1(!new), G2(!new), GT(!new)>(s: Setting<G1, G2, GT>, p: Instance) {
    && s.DecodeG1(p.proofA).Some? && s.DecodeG2(p.proofB).Some? && s.DecodeG1(p.proofC).Some?
    && s.DecodeG1(p.vk.alphaG1).Some? && s.DecodeG2(p.vk.betaG2).Some?
    && s.DecodeG2(p.vk.gammaG2).Some? && s.DecodeG2(p.vk.deltaG2).Some?
  }

  /** The product of the four pairings is one, with `l` for the prepared point. */
  ghost predicate MainEquation<G1(!new), G2(!new), GT(!new)>(s: Setting<G1, G2, GT>, p: Instance, l: G1)
    requires MainPointsDecode(s, p)
  {
    FourProduct(s,
      s.DecodeG1(p.proofA).value, s.DecodeG2(p.proofB).value,
      l, s.DecodeG2(p.vk.gammaG2).value,
      s.DecodeG1(p.proofC).value, s.DecodeG2(p.vk.deltaG2).value,
      s.DecodeG1(p.vk.alphaG1).value, s.DecodeG2(p.vk.betaG2).value) == s.one
  }

  /** e(D, gSigmaNeg) e(pok, g) is one, when there is a commitment. */
  ghost predicate CommitmentEquation<G1(!new), G2(!new), GT(!new)>(s: Setting<G1, G2, GT>, p: Instance)
    requires Constructed(p)
  {
    p.proofCommitment.Some? ==>
      var (d, pok, key) := (p.proofCommitment.value, p.proofCommitmentPok.value, p.vk.commitment.value);
      && s.DecodeG1(d).Some? && s.DecodeG2(key.gSigmaNegG2).Some?
      && s.DecodeG1(pok).Some? && s.DecodeG2(key.g2).Some?
      && s.mul(s.pair(s.DecodeG1(d).value, s.DecodeG2(key.gSigmaNegG2).value),
               s.pair(s.DecodeG1(pok).value, s.DecodeG2(key.g2).value)) == s.one
  }

  /** The statement that an accepting verifier has checked. */
  ghost predicate Accepts<G1(!new), G2(!new), GT(!new)>(s: Setting<G1, G2, GT>, p: Instance, check: bool)
    requires Constructed(p)
  {
    && InRange(p, check)
    && KeyColumnsDecode(s, p.vk.ic)
    && MainPointsDecode(s, p)
    && MainEquation(s, p, PreparedPoint(s, p))
    && CommitmentEquation(s, p)
  }

  // ----- the buffer layouts -----

  lemma OnePair<G1(!new), G2(!new), GT(!new)>(s: Setting<G1, G2, GT>, p: Bytes64, q: Bytes128, rest: seq<byte>)
    requires |rest| % 192 == 0
    ensures s.PairingProduct(p + q + rest) ==
      match (s.DecodeG1(p), s.DecodeG2(q), s.PairingProduct(rest))
      case (Some(x), Some(y), Some(z)) => Some(s.mul(s.pair(x, y), z))
      case _ => None
  {
    var b := p + q + rest;
    assert b[..64] == p && b[64..192] == q && b[192..] == rest;
  }

  lemma LastPair<G1(!new), G2(!new), GT(!new)>(s: Setting<G1, G2, GT>, p: Bytes64, q: Bytes128)
    requires s.Lawful()
    ensures s.PairingProduct(p + q) ==
      match (s.DecodeG1(p), s.DecodeG2(q))
      case (Some(x), Some(y)) => Some(s.pair(x, y))
      case _ => None
  {
    OnePair(s, p, q, []);
    assert p + q + [] == p + q;
    if s.DecodeG1(p).Some? && s.DecodeG2(q).Some? {
      var z := s.pair(s.DecodeG1(p).value, s.DecodeG2(q).value);
      assert s.MulGroupAt(z, s.one, s.one);
    }
  }

  /** A pairing call accepts exactly when everything in its buffer decodes and the product is one. */
  lemma PairingVerdict<G1(!new), G2(!new), GT(!new)>(
    s: Setting<G1, G2, GT>, sys: Syscalls, input: seq<byte>, error: Groth16Error)
    requires Meets(sys, s) && |input| % 192 == 0
    ensures PairingSpec(sys, input, error) == if s.PairingProduct(input) == Some(s.one) then Ok(()) else Err(error)
  {
    hide Setting.PairingProduct, I2OSP;
    assert sys.pairing(input) == PairingResult(s, input);
    LastOctet(0);
    LastOctet(1);
  }

  lemma LastOctet(v: byte)
    ensures I2OSP(v, 32)[31] == v
  {
    assert I2OSP(v, 32) == I2OSP(v / 256, 31) + [v % 256];
  }

  lemma MainLayout<G1(!new), G2(!new), GT(!new)>(s: Setting<G1, G2, GT>, p: Instance, prepared: Bytes64)
    requires s.Lawful()
    ensures s.PairingProduct(MainPairingInput(p, prepared)) == Some(s.one) <==>
      && MainPointsDecode(s, p) && s.DecodeG1(prepared).Some?
      && MainEquation(s, p, s.DecodeG1(prepared).value)
  {
    hide Setting.DecodeG1, Setting.DecodeG2, Setting.PairingProduct, Setting.Lawful;
    var last := p.vk.alphaG1 + p.vk.betaG2;
    var two := p.proofC + p.vk.deltaG2 + last;
    var three := prepared + p.vk.gammaG2 + two;
    LastPair(s, p.vk.alphaG1, p.vk.betaG2);
    OnePair(s, p.proofC, p.vk.deltaG2, last);
    OnePair(s, prepared, p.vk.gammaG2, two);
    OnePair(s, p.proofA, p.proofB, three);
    assert MainPairingInput(p, prepared) == p.proofA + p.proofB + three;
  }

  lemma PokLayout<G1(!new), G2(!new), GT(!new)>(s: Setting<G1, G2, GT>, p: Instance)
    requires s.Lawful() && Meets(p.sys, s) && Constructed(p)
    ensures PokSpec(p) == if CommitmentEquation(s, p) then Ok(()) else Err(CommitmentPokVerificationFailed)
  {
    if p.proofCommitment.Some? {
      var (d, pok, key) := (p.proofCommitment.value, p.proofCommitmentPok.value, p.vk.commitment.value);
      var last := pok + key.g2;
      LastPair(s, pok, key.g2);
      OnePair(s, d, key.gSigmaNegG2, last);
      assert PokPairingInput(d, pok, key) == d + key.gSigmaNegG2 + last;
      PairingVerdict(s, p.sys, PokPairingInput(d, pok, key), CommitmentPokVerificationFailed);
    }
  }

  // ----- the verdict -----

  /** A constructed verifier accepts exactly the statements it is meant to check. */
  lemma VerifyMeaning<G1(!new), G2(!new), GT(!new)>(s: Setting<G1, G2, GT>, p: Instance, check: bool)
    requires s.Lawful() && Meets(p.sys, s) && Constructed(p)
    ensures VerifySpec(p, check).Ok? <==> Accepts(s, p, check)
  {
    hide Setting.DecodeG1, Setting.DecodeG2, Setting.PairingProduct, PrepareSpec, PreparedPoint, MainEquation;
    hide PairingSpec;
    PrepareMeaning(s, p, check);
    if PrepareSpec(p, check).Ok? {
      var prepared := PrepareSpec(p, check).value;
      PairingVerdict(s, p.sys, MainPairingInput(p, prepared), ProofVerificationFailed);
      MainLayout(s, p, prepared);
    }
    PokLayout(s, p);
  }

  /** Once the inputs are prepared, the error tells which equation failed, the main one first. */
  lemma FailureMeaning<G1(!new), G2(!new), GT(!new)>(s: Setting<G1, G2, GT>, p: Instance, check: bool)
    requires s.Lawful() && Meets(p.sys, s) && Constructed(p)
    requires PrepareSpec(p, check).Ok?
    ensures VerifySpec(p, check) in {Ok(()), Err(ProofVerificationFailed), Err(CommitmentPokVerificationFailed)}
    ensures VerifySpec(p, check) == Err(ProofVerificationFailed) <==>
      !(KeyColumnsDecode(s, p.vk.ic) && MainPointsDecode(s, p) && MainEquation(s, p, PreparedPoint(s, p)))
    ensures VerifySpec(p, check) == Err(CommitmentPokVerificationFailed) <==>
      && KeyColumnsDecode(s, p.vk.ic) && MainPointsDecode(s, p) && MainEquation(s, p, PreparedPoint(s, p))
      && !CommitmentEquation(s, p)
  {
    hide Setting.DecodeG1, Setting.DecodeG2, Setting.PairingProduct, PrepareSpec, PreparedPoint, MainEquation;
    hide PairingSpec;
    PrepareMeaning(s, p, check);
    var prepared := PrepareSpec(p, check).value;
    PairingVerdict(s, p.sys, MainPairingInput(p, prepared), ProofVerificationFailed);
    MainLayout(s, p, prepared);
    PokLayout(s, p);
  }

  /** Every error but those two comes from the preparation, whose errors are known exactly. */
  lemma EarlyErrors<G1(!new), G2(!new), GT(!new)>(
    s: Setting<G1, G2, GT>, p: Instance, check: bool, e: Groth16Error)
    requires s.Lawful() && Meets(p.sys, s) && Constructed(p)
    requires e != ProofVerificationFailed && e != CommitmentPokVerificationFailed
    ensures VerifySpec(p, check) == Err(e) <==> PreparationFails(s, p, check, e)
  {
    hide Setting.Lawful, Meets, PrepareSpec, PreparationFails, MainPairingInput, PokPairingInput;
    PreparationErrors(s, p, check, e);
  }

  // ----- every run -----

  /** In every run on one object, whatever it stores, a verification accepts exactly the statement, and a
      preparation fails exactly as it is to. */
  lemma RunsAcceptExactly<G1(!new), G2(!new), GT(!new)>(
    s: Setting<G1, G2, GT>, p: Instance, stored: Bytes64, calls: seq<Call>, i: nat)
    requires s.Lawful() && Meets(p.sys, s) && Constructed(p) && i < |calls|
    ensures match calls[i]
      case Verify => Run(p, stored, calls).1[i].Ok? <==> Accepts(s, p, true)
      case VerifyUnchecked => Run(p, stored, calls).1[i].Ok? <==> Accepts(s, p, false)
      case PrepareInputs(check) =>
        forall e :: Run(p, stored, calls).1[i] == Err(e) <==> PreparationFails(s, p, check, e)
  {
    hide Setting.Lawful, Meets, Accepts, PreparationFails, VerifySpec, PrepareSpec, Run, Step;
    RunsMatchFreshVerifiers(p, stored, calls);
    assert Run(p, stored, calls).1[i] == ResultOf(p, calls[i]);
    match calls[i] {
      case Verify => VerifyMeaning(s, p, true);
      case VerifyUnchecked => VerifyMeaning(s, p, false);
      case PrepareInputs(check) =>
        forall e
          ensures PrepareSpec(p, check) == Err(e) <==> PreparationFails(s, p, check, e)
        {
          PreparationErrors(s, p, check, e);
        }
    }
  }

  /** After any run in which some call got through the preparation, the stored octets encode the point L. */
  lemma RunsStorePreparedPoint<G1(!new), G2(!new), GT(!new)>(
    s: Setting<G1, G2, GT>, p: Instance, stored: Bytes64, calls: seq<Call>, i: nat)
    requires s.Lawful() && Meets(p.sys, s) && Constructed(p) && i < |calls|
    requires Prepares(p, calls[i]) && KeyColumnsDecode(s, p.vk.ic)
    ensures s.DecodeG1(Run(p, stored, calls).0) == Some(PreparedPoint(s, p))
  {
    hide Setting.Lawful, Setting.DecodeG1, Meets, PrepareSpec, Run, PreparedPoint, KeyColumnsDecode;
    RunsMatchFreshVerifiers(p, stored, calls);
    PrepareMeaning(s, p, false);
  }

  // ----- inputs modulo r -----

  function ReduceInput(input: Bytes32): (r: Bytes32) {
    I2OSP(OS2IP(input) % FR_MODULUS, 32)
  }

  function Reduced(p: Instance): Instance {
    p.(publicInputs := seq(|p.publicInputs|, i requires 0 <= i < |p.publicInputs| => ReduceInput(p.publicInputs[i])))
  }

  lemma ReducedValue(input: Bytes32)
    ensures OS2IP(ReduceInput(input)) == OS2IP(input) % FR_MODULUS
  {
    Pow256Values();
    I2OSPRoundTrip(OS2IP(input) % FR_MODULUS, 32);
  }

  lemma MulAddReduced<G1(!new), G2(!new), GT(!new)>(
    s: Setting<G1, G2, GT>, sys: Syscalls, point: Bytes64, scalar: Bytes32, acc: Bytes64)
    requires s.Lawful() && Meets(sys, s)
    ensures G1MulAddSpec(sys, point, ReduceInput(scalar), acc) == G1MulAddSpec(sys, point, scalar, acc)
  {
    var b: Bytes96, b': Bytes96 := point + scalar, point + ReduceInput(scalar);
    assert b[..64] == b'[..64] == point && b[64..] == scalar && b'[64..] == ReduceInput(scalar);
    assert sys.g1Multiplication(b) == MultiplicationResult(s, b);
    assert sys.g1Multiplication(b') == MultiplicationResult(s, b');
    ReducedValue(scalar);
    s.SmulMod(OS2IP(scalar), FR_MODULUS, Pt(s, point));
  }

  lemma {:induction false} FoldReduced<G1(!new), G2(!new), GT(!new)>(
    s: Setting<G1, G2, GT>, p: Instance, i: nat, acc: Bytes64)
    requires s.Lawful() && Meets(p.sys, s)
    requires i <= |p.publicInputs|
    ensures FoldInputs(p.sys, true, p.vk.ic, Reduced(p).publicInputs, i, acc)
      == FoldInputs(p.sys, false, p.vk.ic, p.publicInputs, i, acc)
    decreases |p.publicInputs| - i
  {
    if i < |p.publicInputs| {
      var input := p.publicInputs[i];
      assert Reduced(p).publicInputs[i] == ReduceInput(input);
      ReducedValue(input);
      if i + 1 < |p.vk.ic| {
        MulAddReduced(s, p.sys, p.vk.ic[i + 1], input, acc);
        match G1MulAddSpec(p.sys, p.vk.ic[i + 1], input, acc)
        case Ok(acc') => FoldReduced(s, p, i + 1, acc');
        case Err(_) =>
      }
    }
  }

  /** `verify_unchecked` on any 256-bit inputs is `verify` on the same inputs modulo r, error for error. */
  lemma UncheckedIsCheckedOnReduced<G1(!new), G2(!new), GT(!new)>(s: Setting<G1, G2, GT>, p: Instance)
    requires s.Lawful() && Meets(p.sys, s)
    ensures VerifySpec(p, false) == VerifySpec(Reduced(p), true)
  {
    hide FoldInputs, G1MulAddSpec, G1AddSpec, PairingSpec, CommitmentHash;
    if p.vk.ic != [] {
      FoldReduced(s, p, 0, p.vk.ic[0]);
    }
  }

  // ----- negated A -----

  /** The point whose negation the negated encoding stands for.  It is the encoded point, except that (0, q),
      which encodes no point, is negated to the identity. */
  ghost function NegatedFrom<G1(!new), G2(!new), GT(!new)>(s: Setting<G1, G2, GT>, a: Bytes64): Option<G1> {
    if a == ZeroQ() then Some(s.zero) else s.DecodeG1(a)
  }

  /** Negating an encoding negates the point, for the identity and for every canonical curve point. */
  lemma NegationDecodes<G1(!new), G2(!new), GT(!new)>(s: Setting<G1, G2, GT>, a: Bytes64)
    requires s.Lawful() && s.DecodeG1(a).Some?
    ensures s.DecodeG1(NegateSpec(a)) == Some(s.neg(s.DecodeG1(a).value))
  {
    if a == Zeros(64) {
      assert s.AddGroupAt(s.zero, s.neg(s.zero), s.zero);
      assert s.AddGroupAt(s.neg(s.zero), s.zero, s.zero);
    } else {
      NegationOfPair(s, a, X(a), Y(a));
    }
  }

  lemma NegationOfPair<G1(!new), G2(!new), GT(!new)>(s: Setting<G1, G2, GT>, a: Bytes64, x: nat, y: nat)
    requires s.Lawful() && a != Zeros(64) && x == X(a) && y == Y(a) && s.Canonical(x, y)
    ensures s.DecodeG1(NegateSpec(a)) == Some(s.neg(s.point(x, y)))
  {
    hide NegateSpec, OS2IP, Pow256;
    var b := NegateSpec(a);
    NegatedCoordinates(a);
    s.NoPointOfOrderTwo(x, FR_MODULUS);
    assert s.CurveAt(x, y) && s.PointAt(x, y);
    assert X(b) == x && Y(b) == (FQ_MODULUS - y) % FQ_MODULUS;
    OS2IPZeros(32);
    assert Zeros(64)[32..] == Zeros(32);
  }

  /** The negated encoding decodes in exactly the cases listed, for every 64 octets. */
  lemma NegationDecodesExactly<G1(!new), G2(!new), GT(!new)>(s: Setting<G1, G2, GT>, a: Bytes64)
    requires s.Lawful()
    ensures s.DecodeG1(NegateSpec(a)) ==
      match NegatedFrom(s, a)
      case Some(p) => Some(s.neg(p))
      case None => None
    ensures s.DecodeG1(ZeroQ()).None?
  {
    hide Setting.DecodeG1, NegateSpec, OS2IP, Setting.Lawful;
    ZeroQEncodesNothing(s);
    NegateTwice(a);
    if a != ZeroQ() {
      if s.DecodeG1(a).Some? {
        NegationDecodes(s, a);
      } else if s.DecodeG1(NegateSpec(a)).Some? {
        NegationDecodes(s, NegateSpec(a));
      }
    }
  }

  lemma ZeroQEncodesNothing<G1(!new), G2(!new), GT(!new)>(s: Setting<G1, G2, GT>)
    requires s.Lawful()
    ensures s.DecodeG1(ZeroQ()).None?
    ensures s.DecodeG1(NegateSpec(ZeroQ())) == Some(s.zero) && s.neg(s.zero) == s.zero
  {
    ZeroQBecomesIdentity();
    assert s.AddGroupAt(s.zero, s.neg(s.zero), s.zero);
    assert s.AddGroupAt(s.neg(s.zero), s.zero, s.zero);
  }

  /** gnark's form of the equation: e(A, B) = e(alpha, beta) e(L, gamma) e(C, delta). */
  ghost predicate GnarkEquation<G1(!new), G2(!new), GT(!new)>(s: Setting<G1, G2, GT>, p: Instance, a: G1, l: G1)
    requires MainPointsDecode(s, p)
  {
    s.pair(a, s.DecodeG2(p.proofB).value) ==
      s.mul(s.pair(s.DecodeG1(p.vk.alphaG1).value, s.DecodeG2(p.vk.betaG2).value),
        s.mul(s.pair(l, s.DecodeG2(p.vk.gammaG2).value),
              s.pair(s.DecodeG1(p.proofC).value, s.DecodeG2(p.vk.deltaG2).value)))
  }

  /** Rotating the last factor to the front. */
  lemma Rotate<G1(!new), G2(!new), GT(!new)>(s: Setting<G1, G2, GT>, x: GT, y: GT, z: GT)
    requires s.Lawful()
    ensures s.mul(x, s.mul(y, z)) == s.mul(z, s.mul(x, y))
  {
    assert s.MulGroupAt(x, y, z) && s.MulGroupAt(s.mul(x, y), z, z);
  }

  /** gnark's statement about a proof whose first point is `a`. */
  ghost predicate GnarkStatement<G1(!new), G2(!new), GT(!new)>(
    s: Setting<G1, G2, GT>, p: Instance, a: Option<G1>, check: bool)
    requires Constructed(p)
  {
    && InRange(p, check) && KeyColumnsDecode(s, p.vk.ic) && MainPointsDecode(s, p)
    && a.Some? && GnarkEquation(s, p, a.value, PreparedPoint(s, p))
    && CommitmentEquation(s, p)
  }

  /** What the verifier checks when it is given the negation of `a`, for every 64 octets. */
  lemma NegatedProofMeaning<G1(!new), G2(!new), GT(!new)>(s: Setting<G1, G2, GT>, p: Instance, a: Bytes64, check: bool)
    requires s.Lawful() && Meets(p.sys, s) && Constructed(p)
    requires p.proofA == NegateSpec(a)
    ensures VerifySpec(p, check).Ok? <==> GnarkStatement(s, p, NegatedFrom(s, a), check)
  {
    VerifyMeaning(s, p, check);
    NegationDecodesExactly(s, a);
    hide Setting.DecodeG1, Setting.DecodeG2, NegateSpec, PreparedPoint, VerifySpec, CommitmentEquation;
    hide KeyColumnsDecode, NegatedFrom;
    if MainPointsDecode(s, p) {
      var b, l := s.DecodeG2(p.proofB).value, PreparedPoint(s, p);
      var lg := s.pair(l, s.DecodeG2(p.vk.gammaG2).value);
      var cd := s.pair(s.DecodeG1(p.proofC).value, s.DecodeG2(p.vk.deltaG2).value);
      var ab := s.pair(s.DecodeG1(p.vk.alphaG1).value, s.DecodeG2(p.vk.betaG2).value);
      Rotate(s, lg, cd, ab);
      s.MoveAcross(NegatedFrom(s, a).value, b, s.mul(lg, s.mul(cd, ab)));
    }
  }

  /** That is gnark's statement for the encoded point, unless `a` is (0, q), which encodes no point, and the
      statement holds with the identity for it. */
  lemma NegatedProofVerdict<G1(!new), G2(!new), GT(!new)>(s: Setting<G1, G2, GT>, p: Instance, a: Bytes64, check: bool)
    requires s.Lawful() && Meets(p.sys, s) && Constructed(p)
    requires p.proofA == NegateSpec(a)
    ensures (VerifySpec(p, check).Ok? <==> GnarkStatement(s, p, s.DecodeG1(a), check))
      <==> a != ZeroQ() || !GnarkStatement(s, p, Some(s.zero), check)
  {
    NegatedProofMeaning(s, p, a, check);
    NegationDecodesExactly(s, a);
    hide Setting.DecodeG1, Setting.Lawful, Meets, VerifySpec, NegateSpec, CommitmentEquation, KeyColumnsDecode;
    hide MainPointsDecode, GnarkEquation, PreparedPoint, InRange;
  }

  // ----- delta equal to gamma -----

  lemma FactorsJoin<G1(!new), G2(!new), GT(!new)>(s: Setting<G1, G2, GT>, l: G1, c: G1, q: G2, rest: GT)
    requires s.Lawful()
    ensures s.mul(s.pair(l, q), s.mul(s.pair(c, q), rest)) == s.mul(s.pair(s.add(l, c), q), rest)
  {
    assert s.PairAt(l, c, q) && s.MulGroupAt(s.pair(l, q), s.pair(c, q), rest);
  }

  /** With delta equal to gamma the main equation depends on L and C only through their sum. */
  lemma OnlyTheSumMatters<G1(!new), G2(!new), GT(!new)>(
    s: Setting<G1, G2, GT>, p1: Instance, p2: Instance, l1: G1, l2: G1)
    requires s.Lawful()
    requires p1.vk == p2.vk && DeltaEqualsGamma(p1.vk)
    requires p1.proofA == p2.proofA && p1.proofB == p2.proofB
    requires MainPointsDecode(s, p1) && MainPointsDecode(s, p2)
    requires s.add(l1, s.DecodeG1(p1.proofC).value) == s.add(l2, s.DecodeG1(p2.proofC).value)
    ensures MainEquation(s, p1, l1) <==> MainEquation(s, p2, l2)
  {
    hide Setting.DecodeG1, Setting.DecodeG2, Setting.Lawful;
    var q := s.DecodeG2(p1.vk.gammaG2).value;
    var ab := s.pair(s.DecodeG1(p1.vk.alphaG1).value, s.DecodeG2(p1.vk.betaG2).value);
    FactorsJoin(s, l1, s.DecodeG1(p1.proofC).value, q, ab);
    FactorsJoin(s, l2, s.DecodeG1(p2.proofC).value, q, ab);
  }

  /** L + C */
  ghost function LPlusC<G1(!new), G2(!new), GT(!new)>(s: Setting<G1, G2, GT>, p: Instance): G1
    requires Constructed(p)
  {
    s.add(PreparedPoint(s, p), Pt(s, p.proofC))
  }

  /** Two proofs for one key with delta equal to gamma that share A and B and agree in L + C. */
  ghost predicate SameSum<G1(!new), G2(!new), GT(!new)>(s: Setting<G1, G2, GT>, p1: Instance, p2: Instance)
    requires Constructed(p1) && Constructed(p2)
  {
    && p2.sys == p1.sys && p1.vk == p2.vk && DeltaEqualsGamma(p1.vk)
    && p1.proofA == p2.proofA && p1.proofB == p2.proofB
    && (s.DecodeG1(p1.proofC).Some? <==> s.DecodeG1(p2.proofC).Some?)
    && (s.DecodeG1(p1.proofC).Some? ==> LPlusC(s, p1) == LPlusC(s, p2))
  }

  /** The main check cannot tell such proofs apart, whatever their inputs. */
  lemma SameSumSameEquation<G1(!new), G2(!new), GT(!new)>(s: Setting<G1, G2, GT>, p1: Instance, p2: Instance)
    requires s.Lawful() && Constructed(p1) && Constructed(p2) && SameSum(s, p1, p2)
    ensures MainPointsDecode(s, p1) <==> MainPointsDecode(s, p2)
    ensures MainPointsDecode(s, p1) ==>
      (MainEquation(s, p1, PreparedPoint(s, p1)) <==> MainEquation(s, p2, PreparedPoint(s, p2)))
  {
    hide Setting.DecodeG1, Setting.DecodeG2, Setting.Lawful, PreparedPoint, MainEquation;
    if MainPointsDecode(s, p1) {
      OnlyTheSumMatters(s, p1, p2, PreparedPoint(s, p1), PreparedPoint(s, p2));
    }
  }

  /** They are accepted together or not at all, unless their commitment checks differ. */
  lemma SameSumSameAcceptance<G1(!new), G2(!new), GT(!new)>(
    s: Setting<G1, G2, GT>, p1: Instance, p2: Instance, check: bool)
    requires s.Lawful() && Meets(p1.sys, s) && Constructed(p1) && Constructed(p2) && SameSum(s, p1, p2)
    requires InRange(p1, check) <==> InRange(p2, check)
    requires CommitmentEquation(s, p1) <==> CommitmentEquation(s, p2)
    ensures VerifySpec(p1, check).Ok? <==> VerifySpec(p2, check).Ok?
  {
    SameSumSameEquation(s, p1, p2);
    VerifyMeaning(s, p1, check);
    VerifyMeaning(s, p2, check);
    hide Setting.DecodeG1, Setting.DecodeG2, Setting.Lawful, Meets, PreparedPoint, MainEquation, VerifySpec;
    hide CommitmentEquation, InRange, MainPointsDecode;
  }

  lemma SameTermsSameFailure<G1(!new), G2(!new), GT(!new)>(
    s: Setting<G1, G2, GT>, check: bool, ic: seq<Bytes64>, c1: seq<Bytes32>, c2: seq<Bytes32>, e: Groth16Error)
    requires |c1| == |c2| < |ic|
    requires forall k :: 0 <= k < |c1| ==> TermError(s, check, ic, c1, k) == TermError(s, check, ic, c2, k)
    ensures SomeTermFails(s, check, ic, c1, e) ==> SomeTermFails(s, check, ic, c2, e)
    ensures TermsFine(s, check, ic, c1, |c1|) ==> TermsFine(s, check, ic, c2, |c2|)
  {
    hide TermError;
    if k: nat :| FailsFirst(s, check, ic, c1, k, e) {
      assert FailsFirst(s, check, ic, c2, k, e);
    }
  }

  /** In-range inputs make no difference to the errors of the preparation. */
  lemma SamePreparationErrors<G1(!new), G2(!new), GT(!new)>(
    s: Setting<G1, G2, GT>, p1: Instance, p2: Instance, check: bool, e: Groth16Error)
    requires s.Lawful() && Meets(p1.sys, s) && Constructed(p1) && Constructed(p2)
    requires p2.sys == p1.sys && p1.vk == p2.vk && p1.proofCommitment == p2.proofCommitment
    requires InRange(p1, check) && InRange(p2, check)
    ensures PrepareSpec(p1, check) == Err(e) <==> PrepareSpec(p2, check) == Err(e)
  {
    hide Setting.DecodeG1, Setting.Lawful, Meets, PrepareSpec, SomeTermFails, TermsFine, OS2IP;
    var c1, c2 := Scalars(p1), Scalars(p2);
    PreparationErrors(s, p1, check, e);
    PreparationErrors(s, p2, check, e);
    SameTermsSameFailure(s, check, p1.vk.ic, c1, c2, e);
    SameTermsSameFailure(s, check, p1.vk.ic, c2, c1, e);
  }

  /** For in-range inputs with equal commitments they get the same result, errors included. */
  lemma SameSumSameVerdict<G1(!new), G2(!new), GT(!new)>(
    s: Setting<G1, G2, GT>, p1: Instance, p2: Instance, check: bool)
    requires s.Lawful() && Meets(p1.sys, s) && Constructed(p1) && Constructed(p2) && SameSum(s, p1, p2)
    requires InRange(p1, check) && InRange(p2, check)
    requires p1.proofCommitment == p2.proofCommitment && p1.proofCommitmentPok == p2.proofCommitmentPok
    ensures VerifySpec(p1, check) == VerifySpec(p2, check)
  {
    hide Setting.Lawful, Meets, PrepareSpec, MainPointsDecode, MainEquation, PreparedPoint, LPlusC;
    hide Setting.DecodeG1, Setting.DecodeG2, VerdictOn, InRange;
    if PrepareSpec(p1, check).Err? {
      SamePreparationErrors(s, p1, p2, check, PrepareSpec(p1, check).error);
    } else if PrepareSpec(p2, check).Err? {
      SamePreparationErrors(s, p1, p2, check, PrepareSpec(p2, check).error);
    } else {
      SameSumSameEquation(s, p1, p2);
      FailureMeaning(s, p1, check);
      FailureMeaning(s, p2, check);
    }
  }

  /** The instance with A = alpha, B = beta and C = -L for its proof. */
  ghost function CancellingProof<G1(!new), G2(!new), GT(!new)>(s: Setting<G1, G2, GT>, p: Instance): Instance
    requires Constructed(p)
  {
    p.(proofA := NegateSpec(p.vk.alphaG1), proofB := p.vk.betaG2, proofC := s.EncodeG1(s.neg(PreparedPoint(s, p))))
  }

  /** With delta equal to gamma that proof passes for every statement.  This is what a production build refuses
      such keys for. */
  lemma AnyStatementPasses<G1(!new), G2(!new), GT(!new)>(s: Setting<G1, G2, GT>, p: Instance, check: bool)
    requires s.Lawful() && Meets(p.sys, s) && Constructed(p) && DeltaEqualsGamma(p.vk)
    ensures VerifySpec(CancellingProof(s, p), check).Ok? <==>
      && InRange(p, check) && KeyColumnsDecode(s, p.vk.ic)
      && s.DecodeG1(p.vk.alphaG1).Some? && s.DecodeG2(p.vk.betaG2).Some? && s.DecodeG2(p.vk.gammaG2).Some?
      && CommitmentEquation(s, p)
  {
    hide Setting.DecodeG1, Setting.Lawful, Meets, VerifySpec, KeyColumnsDecode, NegateSpec, Setting.EncodeG1;
    hide FourProduct, Setting.Smul, InputSum, CommitmentHash;
    var p', l := CancellingProof(s, p), PreparedPoint(s, p);
    assert PreparedPoint(s, p') == l;
    VerifyMeaning(s, p', check);
    s.EncodeDecode(s.neg(l));
    if s.DecodeG1(p.vk.alphaG1).Some? && s.DecodeG2(p.vk.betaG2).Some? && s.DecodeG2(p.vk.gammaG2).Some? {
      NegationDecodes(s, p.vk.alphaG1);
      CancellingProduct(s, s.DecodeG1(p.vk.alphaG1).value, s.DecodeG2(p.vk.betaG2).value,
                        l, s.DecodeG2(p.vk.gammaG2).value);
    }
  }

  lemma CancellingProduct<G1(!new), G2(!new), GT(!new)>(s: Setting<G1, G2, GT>, a: G1, b: G2, l: G1, q: G2)
    requires s.Lawful()
    ensures FourProduct(s, s.neg(a), b, l, q, s.neg(l), q, a, b) == s.one
  {
    FactorsJoin(s, l, s.neg(l), q, s.pair(a, b));
    assert s.AddGroupAt(l, s.zero, s.zero);
    s.PairZero(q);
    assert s.MulGroupAt(s.pair(a, b), s.one, s.one);
    s.PairNeg(a, b);
  }
}
