# A verified model of groth16-solana

groth16-solana turns untrusted bytes into a verdict: a verifying key in gnark's binary form or in
snarkjs's decimal form, a proof, and public inputs. This project models that path in Dafny and proves
what the crate's comments promise about it. Check it with `dafny verify dfyconfig.toml`.

- `ByteStrings`, `Bits`, `Bn254`, `ModArith`, `Buffers`, `Utf8`, `Hex`, `Delimiters`: octet strings and the
  conversions between them and numbers, bits or text, and the vocabulary of delimiters and NUL-terminated
  pieces.
- `HashToField`, `Montgomery`: the BSB22 hash to the scalar field. The general `expand_message_xmd` and
  `hash_to_field` of RFC 9380 (sections 5.3.1 and 5.2) are functions. The crate's in-place expander and
  its split-halves Montgomery reduction are methods proved equal to them, for every hash function.
- `FieldSize`, `NegateG1`: the range check by byte order, and point negation by a borrow chain.
- `Groth16`, `Groth16Runs`: the verifier at byte level. `Instance` is what a verifier object holds,
  `PrepareSpec`, `VerifySpec` and `Step` say what each call returns, error by error, and the class
  `Groth16Verifier` with its mutable prepared sum is proved against them. `Groth16Runs` quantifies over
  all sequences of calls.
- `PairingSetting`, `ExponentModel`, `Groth16Acceptance`, `Groth16Theorems`: what the byte-level results
  mean for curve points. `Setting` is an abstract pairing: commutative groups, `G1` of order r, a partial
  decoding of octets to points, and a pairing that is additive in its first argument. `Meets` is the
  contract of the runtime calls over a setting. `ExponentModel` shows that the laws are consistent.
- `GnarkVk`, `GnarkPipeline`: gnark's key format. `Serialize` is the documented layout for every key that
  gnark can write, including those the verifier does not support; `Parse` describes the accepted format
  by fixed positions; the cursor parser is proved against `Parse`.
- `SetupTxt`, `SetupTxtTheorems`: setup markers in program binaries.
- `CircomVk`: decimal coordinates to fixed-width octets.

The runtime calls, SHA-256 and the decimal reader are parameters. The build modelled is the one with the
`bsb22` feature.

## Where the code does not do what it is said to do

- `find_setup_txts` is documented to return every marker embedded in a binary (src/vk/setup.rs:168-171).
  A marker whose name ends with the text of the closing delimiter is cut short and reported as malformed,
  and a name with a NUL does not come back. `SetupTxtTheorems.ScanFindsEveryMarker` states the exact
  condition under which the documentation holds, and `SetupTxtTheorems.ScanExact` which binaries scan to
  which records at all.
- `negate_g1_be` is documented to map (x, y) to (x, p - y) (src/groth16.rs:357-358), and takes any 64
  octets. It meets that map, as coordinates modulo p, if and only if y <= p
  (`NegateG1.NegatesExactlyUpToModulus`). A pair that satisfies the curve equation stays on the curve if and
  only if y <= p or 2^256 - 2y is a multiple of p (`NegateG1.NegatesOnCurveExactly`).
  `NegateG1.NegationFailsAboveModulus` shows the failure at (1, p + 2). (0, p) is mapped to the encoding of
  the identity (`NegateG1.ZeroQBecomesIdentity`), and is the only input that two negations do not restore
  (`NegateG1.NegateTwice`).
- Negating A is documented to make the verifier check gnark's equation for A (src/groth16.rs:360-363). With
  the octets (0, p) for A, which encode no point, the verifier checks the equation for the identity instead.
  `Groth16Theorems.NegatedProofVerdict` states for all 64 octets exactly when the documentation holds, and
  `GnarkPipeline.ZeroQCanBeAccepted` gives an instance where it does not.

## Model

| member | source | states |
|---|---|---|
| `HashToField.ExpandMessageXmdSha256L48` | src/hash_to_field.rs:69-135 | for all lengths the two compile-time assertions admit, the output is the general RFC 9380 expander at 48 octets, and the three strings given to the hash are exactly its b_0, b_1 and b_2 inputs although the buffer is never cleared; the third starts, bit by bit, with the sum modulo 2 of the first two digests |
| `HashToField.WriteMsgPrime` | src/hash_to_field.rs:92-105 | the first preimage is zero block, message, length, zero octet and DST_prime |
| `HashToField.WriteB1Input` | src/hash_to_field.rs:107-114 | the second preimage, whatever the first one left in the buffer |
| `HashToField.WriteB2Input` | src/hash_to_field.rs:116-128 | the third preimage is the XOR of the two digests, bit by bit, with its suffix, whatever the buffer held |
| `Bits.XorByteBits` | src/hash_to_field.rs:117-123 | the exclusive or of two octets is the one octet each of whose bits is the sum modulo 2 of theirs |
| `HashToField.StrXorBits` | src/hash_to_field.rs:117-123 | the same for strings |
| `HashToField.StrXorTwice` | src/hash_to_field.rs:117-123 | the exclusive or with the same string twice gives the first string back |
| `HashToField.ElementOfPreimages` | src/hash_to_field.rs:85-135 | the field element in terms of the hash alone, with every octet of the three preimages written out: 64 zero octets, the length octets 0 and 48, the block numbers 1 and 2, the tag and its length |
| `HashToField.AppendDstPrime` | src/hash_to_field.rs:86-91 | appends the tag and its length octet to what is written so far |
| `HashToField.ExpandOfTwoBlocks` | src/hash_to_field.rs:130-134 | the general expander at 33 to 64 octets is its first two blocks, cut |
| `HashToField.ReduceBeL48` | src/hash_to_field.rs:137-160 | the limbs have the value of the 48-octet integer modulo r, and the last addition subtracts the modulus exactly when that value is below the low half |
| `HashToField.SplitHalves` | src/hash_to_field.rs:412-415 | one Montgomery product plus the low half has the remainder of the whole, and its wrap condition |
| `HashToField.HalfValues` | src/hash_to_field.rs:148-156 | the packed words are the two halves, each below 2^192 and so canonical |
| `HashToField.HashToFieldBn254Fr` | src/hash_to_field.rs:162-177 | 32 octets that encode the RFC 9380 field element and pass the range check on inputs |
| `HashToField.SerializeLimbs` | src/hash_to_field.rs:172-176 | the limb-by-limb loop writes the big-endian encoding of the value |
| `Montgomery.RedcCorrect` | src/hash_to_field.rs:140-143 | Montgomery reduction is canonical and divides by the radix modulo n, for every modulus and radix with a valid inverse constant |
| `Montgomery.PlainTimesMontgomery` | src/hash_to_field.rs:140-143 | a plain integer times a Montgomery form is the plain product modulo r |
| `Montgomery.FrNew` | src/hash_to_field.rs:46-47 | the constant's Montgomery form is its value times 2^256 modulo r |
| `FieldSize.IsLessThanBn254FieldSizeBe` | src/groth16.rs:344-353 | comparing octets in order decides whether the number is below r |
| `ByteStrings.LexIsNumeric` | src/groth16.rs:350-352 | on arrays of one length lexicographic order is numeric order |
| `NegateG1.NegateG1Be` | src/groth16.rs:364-407 | keeps X, gives q - Y modulo 2^256, leaves all zeros alone; the final borrow is 0 or 1, and 1 exactly when Y exceeds q |
| `NegateG1.SubtractFromModulus` | src/groth16.rs:393-401 | the borrow chain computes the whole difference modulo 2^256 |
| `NegateG1.NegateTwice` | src/groth16.rs:364-407 | two negations restore any 64 octets except (0, q), and only those |
| `NegateG1.CurveIsSymmetric` | src/groth16.rs:357-358 | y^2 = x^3 + 3 modulo any n > 3 excludes (0, 0) and is closed under negating y, which proves the setting's law about its curve |
| `NegateG1.NegatesExactlyUpToModulus` | src/groth16.rs:357-358 | for every 64 octets: X is kept, and Y becomes q - Y modulo q if and only if Y is at most q |
| `NegateG1.NegatesOnCurveExactly` | src/groth16.rs:357-358 | for every 64 octets whose coordinates satisfy y^2 = x^3 + 3 modulo q, the negated ones do if and only if Y is at most q or 2^256 - 2Y is a multiple of q |
| `NegateG1.NegationFailsAboveModulus` | src/groth16.rs:393-405 | a failing input: the negation of (1, q + 2), on the curve, is neither its negative nor on the curve |
| `NegateG1.ZeroQBecomesIdentity` | src/groth16.rs:364-407 | (0, q), which is not all zeros, is negated to all zeros |
| `Groth16.G1Add` | src/groth16.rs:92-97 | the call sees the 128 octets of the point and then the sum; its answer is the result, and a rejection is an addition error |
| `Groth16.G1MulAdd` | src/groth16.rs:77-88 | the call sees the 96 octets of the point and then the scalar, the next one the product and then the sum; which of the two errors arises |
| `Groth16.FillMainPairing` | src/groth16.rs:266-275 | the 768 octets are A, B, the prepared point, gamma, C, delta, alpha, beta |
| `Groth16.Groth16Verifier.New` | src/groth16.rs:103-133 | a key with a commitment key is UnexpectedCommitmentKey for every number of inputs, any other key of the wrong length InvalidPublicInputsLength; the state of an accepted object |
| `Groth16.Groth16Verifier.NewWithCommitment` | src/groth16.rs:144-176 | a key without commitment key is MissingCommitmentKey for every number of inputs, any other key of the wrong length InvalidPublicInputsLength; the state of an accepted object |
| `Groth16.Groth16Verifier.PrepareInputs` | src/groth16.rs:178-249 | the result of every outcome, and that the stored sum changes only on success |
| `Groth16.Groth16Verifier.Verify` | src/groth16.rs:253-255 | the result is the checked verdict on the instance, whatever was stored before, and the new stored sum |
| `Groth16.Groth16Verifier.VerifyUnchecked` | src/groth16.rs:259-261 | the result is the unchecked verdict, and the new stored sum |
| `Groth16.Groth16Verifier.VerifyCommon` | src/groth16.rs:263-288 | preparation, then the main pairing, then the commitment check, with the first failure reported |
| `Groth16.Groth16Verifier.VerifyCommitmentPok` | src/groth16.rs:313-335 | the 384 octets asked about are commitment, gSigmaNeg, proof of knowledge, g; success without a commitment, and an error for mixed states |
| `Groth16Runs.Replay` | src/groth16.rs:178-261 | calls made in sequence on one object behave as the run of the state machine |
| `Groth16Runs.RunsMatchFreshVerifiers` | src/groth16.rs:103-261 | over all call sequences every result is the verdict on the instance and that of a fresh object, the two internal errors never occur, and the stored sum is the instance's sum or what it was |
| `Groth16Runs.VerdictOnAnswers` | src/groth16.rs:263-335 | for any runtime: which octets are asked about, that only the last octet of each answer counts, and which error each wrong answer gives |
| `Groth16Runs.StepNeverFailsInternally` | src/groth16.rs:304-311 | a constructed verifier never reports inconsistent state or a wrong number of inputs |
| `Groth16Runs.CheckedIsUncheckedInRange` | src/groth16.rs:251-261 | the two verifications agree, errors included, on inputs below r; the checked one accepts exactly the in-range instances that the other accepts |
| `Groth16Runs.HashIsOneMoreInput` | src/groth16.rs:197-245 | preparing with a commitment is the plain fold over the inputs with one more, the RFC 9380 element of the commitment under "bsb22-commitment", plus the commitment |
| `PairingSetting.Setting.SmulMod` | src/groth16.rs:257-258 | only a scalar's remainder modulo r matters for a multiple of a point |
| `PairingSetting.Setting.EncodeDecode` | src/syscalls.rs:14-44 | what the runtime calls return decodes to the point it stands for |
| `PairingSetting.Setting.NoPointOfOrderTwo` | src/groth16.rs:365-368 | no curve point has y = 0, so negation needs no special case but the identity |
| `PairingSetting.Setting.MoveAcross` | src/groth16.rs:360-363 | the pairing of a negated point can be moved to the other side of the equation |
| `ExponentModel.ModelIsLawful` | src/syscalls.rs:14-60 | the laws assumed of the pairing have a model |
| `Groth16Acceptance.ContractsCanBeMet` | src/syscalls.rs:14-60 | the contracts of the runtime calls can be met over every setting |
| `Groth16Acceptance.FoldMeaning` | src/groth16.rs:185-195 | from a decodable sum the loop succeeds exactly for in-range inputs and decodable columns, adds the sum of x_k IC[k+1], and never fails in an addition |
| `Groth16Acceptance.PrepareMeaning` | src/groth16.rs:178-249 | when preparation succeeds and which point it stores; the commitment error arises exactly when the commitment does not decode and everything before it succeeded |
| `Groth16Acceptance.PreparationErrors` | src/groth16.rs:178-249 | preparation fails with an error if and only if the first wrong term calls for it (input out of range, column that does not decode, first column that does not decode, in this order) or only the commitment is wrong |
| `Groth16Acceptance.FoldFailsFirst` | src/groth16.rs:185-195 | the loop stops at the first wrong term with the error for it, and ends with a decodable sum if there is none |
| `Groth16Theorems.MainLayout` | src/groth16.rs:266-282 | the 768-octet buffer decodes to the product e(A,B) e(L,gamma) e(C,delta) e(alpha,beta) |
| `Groth16Theorems.PokLayout` | src/groth16.rs:290-335 | the commitment check succeeds exactly when e(D,gSigmaNeg) e(pok,g) is one, and otherwise gives its one error |
| `Groth16Theorems.PairingVerdict` | src/groth16.rs:277-282 | the last octet is 1 exactly when everything decodes and the product is one |
| `Groth16Theorems.VerifyMeaning` | src/groth16.rs:251-288 | a constructed verifier accepts if and only if inputs are in range, all points decode and both equations hold |
| `Groth16Theorems.FailureMeaning` | src/groth16.rs:277-287 | after preparation the result is success or the error that names the equation that failed, the main one first |
| `Groth16Theorems.EarlyErrors` | src/groth16.rs:263-287 | every other error of a verification arises exactly when the preparation is to fail with it |
| `Groth16Theorems.RunsAcceptExactly` | src/groth16.rs:178-288 | in every run on one object, each verification accepts if and only if the statement holds, and each preparation fails exactly as it is to |
| `Groth16Theorems.RunsStorePreparedPoint` | src/groth16.rs:245-248 | after any run in which a call got through the preparation, the stored octets encode L |
| `Groth16Theorems.UncheckedIsCheckedOnReduced` | src/groth16.rs:257-261 | unchecked verification of any 256-bit inputs is checked verification of their remainders, error for error |
| `Groth16Theorems.NegationDecodes` | src/groth16.rs:355-370 | for the identity and every canonical curve point the negated encoding decodes to the negated point |
| `Groth16Theorems.NegationDecodesExactly` | src/groth16.rs:364-407 | for every 64 octets but (0, q) the negated encoding decodes if and only if the given one does, to the negated point; (0, q) does not decode and its negation does |
| `Groth16Theorems.NegatedProofMeaning` | src/groth16.rs:360-363 | given the negation of any 64 octets the verifier accepts if and only if they stand for an A with e(A,B) = e(alpha,beta) e(L,gamma) e(C,delta) and the rest of the statement holds; (0, q) stands for the identity |
| `Groth16Theorems.NegatedProofVerdict` | src/groth16.rs:360-363 | for all 64 octets, acceptance is gnark's statement about the point they encode, if and only if they are not (0, q) or the statement fails for the identity |
| `Groth16Theorems.OnlyTheSumMatters` | src/vk/setup.rs:106-114 | with delta equal to gamma the main equation depends on L and C only through L + C |
| `Groth16Theorems.SameSumSameAcceptance` | src/vk/setup.rs:106-114 | two proofs for such a key with the same A and B and equal L + C are accepted together or not at all, checked or unchecked, unless range or commitment check differ |
| `Groth16Theorems.SameSumSameVerdict` | src/vk/setup.rs:106-114 | with equal commitments and inputs in range they get the same result, errors included, with or without a commitment, checked or unchecked |
| `Groth16Theorems.AnyStatementPasses` | src/vk/setup.rs:106-114 | with delta equal to gamma, A = alpha, B = beta and C = -L are accepted for every public input in range, as the comment on the production guard says, if and only if the key's points decode and a commitment passes its own check |
| `GnarkVk.ParseGnarkVkBytes` | src/vk/gnark.rs:99-197 | the cursor parser computes the format function on every buffer, and reserves no more columns than there are octets for |
| `GnarkVk.ReadColumns` | src/vk/gnark.rs:119-122 | the loop reads exactly the announced points |
| `GnarkVk.ParseTail` | src/vk/gnark.rs:124-169 | the lockstep sections, with the precedence of their errors |
| `GnarkVk.Cursor.Take` | src/vk/gnark.rs:383-392 | either the next octets, or an error without movement |
| `GnarkVk.ParseOfSerialized` | src/vk/gnark.rs:88-98 | every key gnark can write parses to the key it describes, or is rejected with the error for the feature it uses |
| `GnarkVk.WrittenKeys` | src/vk/gnark.rs:88-98 | the same case by case, with the fields of an accepted key and the condition for each error |
| `GnarkVk.ParseErrorsExact` | src/vk/gnark.rs:88-98 | for every buffer, by its 32-bit numbers: which are rejected for several commitments and which for committed public inputs, whatever follows; all others are accepted or malformed |
| `GnarkVk.SerializeOfParsed` | src/vk/gnark.rs:13-33 | an accepted buffer is the documented layout of its result with the two skipped points |
| `GnarkVk.PrefixFree` | src/vk/gnark.rs:164-169 | every strict prefix and every strict extension of an accepted buffer is rejected as malformed |
| `GnarkVk.ParsedKeyFitsConstructor` | src/groth16.rs:110-120 | for every parsed key and number of inputs, what each constructor answers: the commitment key is named before the length, and the length fits exactly the announced number |
| `GnarkPipeline.GnarkProofVerdict` | src/groth16.rs:355-363 | from serialized key to verdict, for any 64 octets of A: every supported gnark key parses, and the verifier given -A accepts exactly what gnark's equations over that key accept for in-range inputs; for (0, q) they reject and it checks them for the identity |
| `GnarkPipeline.ZeroQCanBeAccepted` | src/groth16.rs:360-363 | an instance given the negation of (0, q) that the verifier accepts |
| `Delimiters.FindsFirst` | src/vk/setup.rs:223-225 | what is found occurs and nothing before it does; nothing is found only if nothing occurs |
| `Delimiters.NoStraddle` | src/vk/setup.rs:178-183 | behind other bytes without the delimiter the first occurrence is the one written there |
| `Delimiters.SplitExact` | src/vk/setup.rs:198 | the pieces are the one sequence of NUL-free texts that gives the body when joined by NULs |
| `Utf8.ValidExactly` | src/vk/setup.rs:196 | what is accepted as UTF-8 is exactly the encodings of characters by RFC 3629 |
| `Hex.FromHex` | src/vk/setup.rs:231-242 | the loop reads 64 characters pair by pair or rejects them |
| `Hex.FromHexExact` | src/vk/setup.rs:231-242 | which 64 characters spell which octets: a digit of either case, or a plus sign for a leading zero, and a digit |
| `Hex.FromHexOfToHex` | src/vk/setup.rs:227-242 | a printed digest is read back |
| `Hex.OnlyPrintedSpelling` | src/vk/setup.rs:231-242 | of all accepted spellings of a digest the printed one is the one in lower-case digits |
| `SetupTxt.ParseBody` | src/vk/setup.rs:191-221 | the iterator-driven parser reports the first thing that is wrong, or the record |
| `SetupTxt.Pieces.Field` | src/vk/setup.rs:199-204 | consumes a key and a value and yields the value only for the expected key |
| `SetupTxt.FindSetupTxts` | src/vk/setup.rs:172-189 | the loop computes the scan, and its position strictly increases and stays in the binary |
| `SetupTxtTheorems.ParseOfBody` | src/vk/setup.rs:148-221 | a printed body is read back, for every NUL-free name and every spelling of the digest |
| `SetupTxtTheorems.ParseBodyExact` | src/vk/setup.rs:191-221 | a body is accepted with a result if and only if it prints that result, up to the spelling of the digest |
| `SetupTxtTheorems.ParseOfWritten` | src/vk/setup.rs:199-214 | a body written out octet by octet: "true" is a test setup, "false" is none, any other text there and any digest that does not spell 32 octets is its error |
| `SetupTxtTheorems.RejectedExactly` | src/vk/setup.rs:191-221 | every rejected body with its reason: not UTF-8, and otherwise the first thing that is wrong |
| `SetupTxtTheorems.MarkerOctets` | src/vk/setup.rs:130-158 | the printed marker octet by octet, delimiters included |
| `SetupTxtTheorems.BodyEnds` | src/vk/setup.rs:182-185 | the first closing delimiter behind a readable body is its own |
| `SetupTxtTheorems.BodyEndsEarly` | src/vk/setup.rs:182-186 | a NUL-free name that ends with the delimiter's text ends the body early and makes it malformed |
| `SetupTxtTheorems.ScanFindsEveryMarker` | src/vk/setup.rs:168-189 | for any printed markers between any bytes free of the opening delimiter, the scan returns exactly those records in order if and only if no name holds a NUL or ends with the closing delimiter's text |
| `SetupTxtTheorems.ScanExact` | src/vk/setup.rs:168-189 | for every binary: the scan returns these records if and only if the binary is readable markers for them, each digest in some accepted spelling, between bytes free of the opening delimiter |
| `SetupTxtTheorems.ErrorsOfScan` | src/vk/setup.rs:172-189 | for every binary: which scan as unterminated and which as malformed, at which offset and for which reason |
| `SetupTxtTheorems.ScanFailsExactly` | src/vk/setup.rs:172-189 | a scan fails with an error if and only if that is the error of the first wrong marker behind readable ones |
| `SetupTxtTheorems.NoEqualsSignIsReadable` | src/vk/setup.rs:130-133 | names without NUL and equals sign meet that condition |
| `SetupTxtTheorems.MarkerLiteral` | src/vk/setup.rs:278-280 | the emitted literal denotes the marker, for every name that needs no escape itself |
| `SetupTxtTheorems.EscapeExactly` | src/vk/setup.rs:278-280 | each NUL is emitted as the four characters \x00 and nothing else is changed |
| `CircomVk.BigintStringToBeBytes` | src/vk/circom.rs:75-89 | exactly `size` octets whose value is the number modulo 256^size |
| `CircomVk.ProcessG2Component` | src/vk/circom.rs:115-150 | the second component first, each 32 octets modulo 2^256; the count error before the number errors |
| `CircomVk.AffineComponents` | src/vk/circom.rs:101-112 | all components but the last, and an error exactly for an empty point |
| `CircomVk.G1Bytes` | src/vk/circom.rs:199-204 | the loop over a point's coordinates puts each at its 32-octet place, or reports the first that is no number |
| `CircomVk.GeneratedPointDecodes` | src/vk/circom.rs:199-204 | the octets generated for three decimals whose first two are a curve point's coordinates are an encoding of that point |

## Left out

- SetupTxtTheorems.MarkerLiteral: the reader of literals knows the two-digit and one-character escapes, not Unicode escapes or line continuations, which the generator never emits.
- CircomVk.BigintStringToBeBytes: how a decimal is read is a parameter, because the big-integer library does it.
- Montgomery.FrMul: integer reduction with radix 2^256, not the word-by-word loop of the arithmetic library.
- GnarkVk.Cursor.Take: positions are unbounded, so the overflow check of the end position has no counterpart; it gives the same error as running past the end.
- SHA-256, the pairing and the associativity of the curve's group law: parameters with laws.
- The second group's encoding: its decoding is a parameter of the setting.
- The borrowed and owned forms of a verifying key (`as_borrowed`): octet strings are values here, so both are one type.
- The build without the `bsb22` feature: it is the behaviour for keys and proofs without a commitment.
- JSON decoding, file reading and writing, and the proving key digest: input and output.
- Generated source text other than the marker literal (`byte_list`, warnings, the compile guard) and the branch that refuses a production key whose delta equals gamma: settled by reading one branch.
- `src/proof_parser.rs` and `src/decompression.rs`: thin wrappers over library or runtime calls.
- The numeric error codes in `src/errors.rs`: one table.
- Cryptographic soundness of Groth16 and of the commitment: not decided by this code.
