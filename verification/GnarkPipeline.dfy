/** From the bytes of a gnark key and an un-negated gnark proof to the verdict. */
module GnarkPipeline {
  import opened Wrappers
  import opened ByteStrings
  import opened VerifyingKeys
  import opened PairingSetting
  import opened NegateG1
  import opened Groth16
  import opened Groth16Runs
  import opened Groth16Acceptance
  import opened Groth16Theorems
  import opened GnarkVk
  import ExponentModel

  /** gnark's verification equations for a first point `a`, over the points of the key as gnark holds it. */
  ghost predicate GnarkAccepts<G1(!new), G2(!new), GT(!new)>(
    s: Setting<G1, G2, GT>, key: GnarkKey, p: Instance, a: Option<G1>)
    requires Constructed(p)
    requires p.proofCommitment.Some? ==> key.commitmentKeys != []
  {
    && KeyColumnsDecode(s, key.k)
    && a.Some? && s.DecodeG2(p.proofB).Some? && s.DecodeG1(p.proofC).Some?
    && s.DecodeG1(key.alphaG1).Some? && s.DecodeG2(key.betaG2).Some?
    && s.DecodeG2(key.gammaG2).Some? && s.DecodeG2(key.deltaG2).Some?
    && s.pair(a.value, s.DecodeG2(p.proofB).value) ==
       s.mul(s.pair(s.DecodeG1(key.alphaG1).value, s.DecodeG2(key.betaG2).value),
         s.mul(s.pair(PreparedPoint(s, p), s.DecodeG2(key.gammaG2).value),
               s.pair(s.DecodeG1(p.proofC).value, s.DecodeG2(key.deltaG2).value)))
    && (p.proofCommitment.Some? ==>
         PedersenAccepts(s, key.commitmentKeys[0], p.proofCommitment.value, p.proofCommitmentPok.value))
  }

  ghost predicate PedersenAccepts<G1(!new), G2(!new), GT(!new)>(
    s: Setting<G1, G2, GT>, ck: CommitmentVerifyingKey, commitment: Bytes64, pok: Bytes64)
  {
    && s.DecodeG1(commitment).Some? && s.DecodeG2(ck.gSigmaNegG2).Some?
    && s.DecodeG1(pok).Some? && s.DecodeG2(ck.g2).Some?
    && s.mul(s.pair(s.DecodeG1(commitment).value, s.DecodeG2(ck.gSigmaNegG2).value),
             s.pair(s.DecodeG1(pok).value, s.DecodeG2(ck.g2).value)) == s.one
  }

  /** A supported key that gnark serialized parses, and the verifier constructed from it and given the negation
      of the octets `a` accepts exactly what gnark accepts for in-range inputs, unless `a` is (0, q). */
  lemma GnarkProofVerdict<G1(!new), G2(!new), GT(!new)>(
    s: Setting<G1, G2, GT>, key: GnarkKey, p: Instance, a: Bytes64)
    requires s.Lawful() && Meets(p.sys, s) && key.Writable()
    requires Supported(key) == Ok(p.vk) && |p.publicInputs| == p.vk.nrPubinputs
    requires p.proofCommitment.Some? <==> p.vk.commitment.Some?
    requires p.proofCommitmentPok.Some? <==> p.vk.commitment.Some?
    requires p.proofA == NegateSpec(a)
    ensures Parse(Serialize(key)) == Ok(p.vk)
    ensures Constructed(p) && (p.proofCommitment.Some? ==> key.commitmentKeys != [])
    ensures a != ZeroQ() ==>
      (VerifySpec(p, true).Ok? <==> AllBelowModulus(p.publicInputs) && GnarkAccepts(s, key, p, s.DecodeG1(a)))
    ensures a == ZeroQ() ==>
      && !GnarkAccepts(s, key, p, s.DecodeG1(a))
      && (VerifySpec(p, true).Ok? <==> AllBelowModulus(p.publicInputs) && GnarkAccepts(s, key, p, Some(s.zero)))
  {
    ParseOfSerialized(key);
    hide Parse, Serialize, Setting.Lawful, Setting.DecodeG1, Setting.DecodeG2, NegateSpec, VerifySpec;
    hide PreparedPoint, KeyColumnsDecode, ZeroQ;
    NegatedProofMeaning(s, p, a, true);
    NegationDecodesExactly(s, a);
  }

  // ----- the exception -----

  /** All points zero, no inputs. */
  function ZeroInstance(sys: Syscalls): Instance {
    var vk := VerifyingKey(0, Zeros(64), Zeros(128), Zeros(128), Zeros(128), [Zeros(64)], None);
    Instance(sys, Zeros(64), Zeros(128), Zeros(64), [], vk, None, None)
  }

  lemma ZeroInstancePasses<G1(!new), G2(!new), GT(!new)>(s: Setting<G1, G2, GT>, p: Instance)
    requires s.Lawful() && Meets(p.sys, s) && p == ZeroInstance(p.sys) && s.DecodeG2(Zeros(128)).Some?
    ensures Constructed(p) && VerifySpec(p, true).Ok?
  {
    hide Meets, VerifySpec, Setting.DecodeG2;
    VerifyMeaning(s, p, true);
    s.PairZero(s.DecodeG2(Zeros(128)).value);
    assert s.MulGroupAt(s.one, s.one, s.one);
    assert s.AddGroupAt(s.zero, s.zero, s.zero);
    assert PreparedPoint(s, p) == s.zero;
  }

  /** The exception is real: a negated encoding that encoded no point is accepted. */
  lemma ZeroQCanBeAccepted() returns (p: Instance)
    ensures ExponentModel.Model().Lawful() && Meets(p.sys, ExponentModel.Model()) && Constructed(p)
    ensures p.proofA == NegateSpec(ZeroQ()) && ExponentModel.Model().DecodeG1(ZeroQ()).None?
    ensures VerifySpec(p, true).Ok?
  {
    hide ExponentModel.Model, Meets, VerifySpec, NegateSpec, ZeroQ, Setting.DecodeG1, Setting.Lawful, OS2IP;
    var s := ExponentModel.Model();
    ExponentModel.ModelIsLawful();
    ContractsCanBeMet(s, _ => Zeros(32));
    var sys: Syscalls :| Meets(sys, s);
    p := ZeroInstance(sys);
    ModelDecodesZeros();
    ZeroInstancePasses(s, p);
    ZeroQBecomesIdentity();
    NegationDecodesExactly(s, ZeroQ());
  }

  lemma ModelDecodesZeros()
    ensures ExponentModel.Model().DecodeG2(Zeros(128)).Some?
  {
  }
}
