# PlonkVerifier: a Dafny model

This project models the Solidity/Yul contract `PlonkVerifier`, which gnark renders
from `tmpl/template_verifier.go`. The contract checks a PLONK proof over BN254 with
KZG commitments; the proof may carry BSB22 commitments for the commit API. The
project also models the helper `serialiseProof` in `main.go`, which turns a
gnark `plonk.Proof` into the bytes that `Verify` reads.

The model has these parts:

- **Words, Field, Curve.** EVM words (`Word`, below 2^256) and wrapping `add`/`sub`
  are modelled exactly. `addmod`, `mulmod` and the modexp precompile (`Modexp`)
  work modulo r; the primality of r is the hypothesis `Fermat()`.
  - G1 points are the pairs of words that memory holds.
  - SHA-256, keccak256, `Utils.hash_fr`, ECADD, ECMUL and the pairing are the
    oracle fields of `Primitives`; a failing call returns `None`.
  - Linear identities between points are stated through a discrete logarithm
    `dlog` that the precompiles respect (`Homomorphic`).
- **Layout.** The `proof_*` offsets into the proof; `mload(add(aproof, c))` over
  the proof's bytes; `View(proof, k)`, the words the verifier reads.
  - `proof` is the memory from the proof's first data byte on. The `bytes` length
    word in front of it is never modelled or read.
  - `Verify` and `ChallengesAndPi` need at least `WireReadEnd(k)` = ProofSize(k) +
    0x40 k bytes of it. A proof shorter than its layout is still covered: its
    missing bytes are whatever memory follows it.
- **FreeMemory.** Class `Memory`: the words at `mload(0x40)`, as an array that
  `derive_*` and `compute_pi` write into. It covers:
  - `batch_invert` (Montgomery's trick, in place);
  - `batch_compute_lagranges_at_z` and `sum_pi_wo_api_commit`;
  - `compute_ith_lagrange_at_z` and `pow_local`;
  - the two commitment arrays and the loop of `compute_pi`.
- **Lagrange, PublicInputs, Transcript.** The functions that specify these
  methods:
  - the batch inversion;
  - the Lagrange values L_i(ζ) = ω^i/n · (ζ^n − 1)/(ζ − ω^i);
  - the public-input value PI;
  - the exact byte preimages of the four Fiat–Shamir challenges and of
    `compute_gamma_kzg`'s γ.
- **FiatShamir.** `derive_gamma_beta_alpha_zeta` and its four steps, as methods
  over `Memory`.
- **Pipeline, Verdict.** The seven steps of `Verify`'s assembly block as pure
  functions on the state slots (`Slots`); the lemmas state what each step
  computes. The lemmas prove:
  - the quotient identity;
  - Horner folding of [H];
  - the linearised commitment;
  - the γ-powers of `fold_state`, shared by the points and the claimed values;
  - the pairing inputs of `batch_verify_multi_points`;
  - what the returned `state_success` implies and ignores.
- **Verification.** Class `Verifier`: the state slots and the words from
  `state_last_mem` on, updated in place by methods for `point_add`, `point_mul`,
  `point_acc_mul`, `fr_acc_mul`, `pow` and each of the seven steps.
  - Each method is proved against its `Pipeline` function.
  - `Verify` is proved to return `Accepts(vk, prims, proof, pub)`, whatever the
    free memory held before.
- **Serialise.** `serialiseProof` as a method that appends byte by byte. The lemmas
  prove:
  - its length;
  - that the contract's `proof_*` loads read back exactly the proof's fields;
  - that the byte length is the one `Verify` expects exactly when there are seven
    claimed values more than BSB22 commitments.

On these points the code differs from what the PLONK protocol would lead a reader to expect, and the model follows the code:

- γ's transcript hashes the public inputs, then the BSB22 wire commitments, then
  [L], [R], [O]; it does not hash the selector openings.
- The BSB22 public inputs sit at index + |public inputs|.
- [H] is folded in Horner form with ζ^(n+2), where `n + 2` wraps like `add`.
- The batching scalar is keccak256 of the word `state_alpha`, reduced mod r.
- The status of `batch_verify_multi_points`'s ECMUL by the folded evaluation is
  popped, so a failure there leaves (1, 2) in place.
- `compute_ith_lagrange_at_z` returns 0, not 1, at ζ = ω^i, and so do the batched
  values.

Every contract states what the code does as written, including on these points.

## Model

| member | source | states |
|---|---|---|
| Layout.ViewPrefix | tmpl/template_verifier.go:62-102 | two proofs that agree on their first 0x340 + 0x60 k bytes give the same view: `Verify` reads nothing after them |
| Layout.WireWordsOverrun | tmpl/template_verifier.go:291-305 | the loop copies 4k words; the first 2k are the k wire commitments and the other 2k come from the 0x40 k bytes after the proof, and it reads up to byte ProofSize(k) + 0x40 k |
| FreeMemory.Memory.LoadVkCommitmentsIndicesCommitApi | tmpl/template_verifier.go:46-56 | the array's words after its length word become the key's commitment indices, and nothing else changes |
| FreeMemory.Memory.CopyProofPairs | tmpl/template_verifier.go:297-304 | `count` iterations, each copying two proof words, store the 2·count consecutive proof words from offset c at `at`, and nothing else changes |
| FreeMemory.Memory.LoadWireCommitmentsCommitApi | tmpl/template_verifier.go:291-305 | the 4k proof words from the first wire commitment on are stored after the length word, and nothing else changes |
| FreeMemory.Memory.PowLocal | tmpl/template_verifier.go:320-330 | returns x^e mod r; the six modexp input words at the free memory pointer are left behind; one modexp call |
| FreeMemory.Memory.ComputeIthLagrangeAtZ | tmpl/template_verifier.go:313-343 | returns `IthLagrange(ζ, i)` after three modexp calls; only the last call's scratch remains at the free memory pointer |
| FreeMemory.Memory.Pow | tmpl/template_verifier.go:442-451 | returns x^e mod r; the six input words at mPtr are left behind, with the output over the first |
| FreeMemory.Memory.PrefixProducts | tmpl/template_verifier.go:417-426 | the first loop of `batch_invert` writes the running products [1, a0, a0·a1, …] at mPtr |
| FreeMemory.Memory.InvertBack | tmpl/template_verifier.go:427-438 | the backward loop, starting from the inverse of the full product, overwrites the input with the batch-inverted values |
| FreeMemory.Memory.BatchInvert | tmpl/template_verifier.go:416-439 | the input is replaced in place by `BatchInverted(a)`; the prefix table and modexp scratch are left at mPtr; one modexp call |
| Lagrange.BatchInvertedInverts | tmpl/template_verifier.go:406-439 | when no input is 0 mod r, each output is the inverse of its input, a[i]^-1 a[i] = 1 |
| Lagrange.BatchInvertedZero | tmpl/template_verifier.go:416-439 | one input that is 0 mod r makes every output 0 |
| FreeMemory.Memory.WriteDenominators | tmpl/template_verifier.go:387-394 | the first loop writes ζ − ω^i for i < n at mPtr |
| FreeMemory.Memory.ScaleLagranges | tmpl/template_verifier.go:396-403 | the third loop turns the inverted denominators into `BatchLagranges(ζ, n)` |
| FreeMemory.Memory.InvertDenominators | tmpl/template_verifier.go:387-395 | the denominators ζ − ω^i are written and batch-inverted in place, with the inversion scratch right above them; one modexp call |
| FreeMemory.Memory.BatchComputeLagrangesAtZ | tmpl/template_verifier.go:384-404 | leaves the n batched Lagrange values at mPtr, with the inversion scratch above them; two modexp calls |
| Lagrange.DenominatorZero | tmpl/template_verifier.go:389-392 | a denominator is 0 exactly when ζ ≡ ω^i |
| Lagrange.BatchLagrangesAgree | tmpl/template_verifier.go:384-404 | for ζ outside {ω^j : j < n}, every batched value equals `compute_ith_lagrange_at_z(ζ, i)` |
| Lagrange.BatchLagrangesAtRoot | tmpl/template_verifier.go:384-404 | when ζ ≡ ω^j for some j < n, every batched value is 0 |
| Lagrange.BatchLagrangesAgreeOnDomain | tmpl/template_verifier.go:384-404 | when ω has order n, the batched and the single values agree for every ζ |
| Lagrange.IthLagrangeFormula | tmpl/template_verifier.go:309-343 | away from ω^i, L_i(ζ)·(ζ − ω^i) = ω^i/n · (ζ^n − 1): the value is the Lagrange basis polynomial |
| Lagrange.IthLagrangeAtRoot | tmpl/template_verifier.go:332-339 | at ζ ≡ ω^j (ω of order n) the value is 0, because 0 is "inverted" to 0 |
| FreeMemory.Memory.WeightedSumAt | tmpl/template_verifier.go:366-374 | the loop returns Σ l_i x_i mod r over the Lagrange values in memory |
| FreeMemory.Memory.SumPiWoApiCommit | tmpl/template_verifier.go:363-376 | leaves `PiLiteral(ζ, pub)` at the free memory pointer, above the remaining Lagrange scratch; two modexp calls |
| PublicInputs.WeightedSumIsDot | tmpl/template_verifier.go:366-375 | the accumulated sum is (acc + Σ l_i x_i) mod r |
| PublicInputs.PiLiteralIsDot | tmpl/template_verifier.go:363-376 | the public-input part of PI is Σ L_i(ζ) pub_i mod r whenever the batched Lagrange values are the single ones |
| PublicInputs.WellFormedIndicesFit | tmpl/template_verifier.go:471 | for a key whose indices are 64-bit, the addition `commitment_indices[i] + public_inputs.length` cannot overflow |
| FreeMemory.Memory.CommitmentStep | tmpl/template_verifier.go:470-475 | one iteration adds hash_fr(W_i) · L_{idx_i + npub}(ζ) to pi; it returns `None` (the checked addition's revert) exactly when idx_i + npub overflows |
| FreeMemory.Memory.AccumulateCommitments | tmpl/template_verifier.go:468-476 | the loop reverts exactly when some index overflows; otherwise it returns pi0 + Σ hash_fr(W_i) L_{idx_i+npub}(ζ) mod r, after 3k modexp calls |
| FreeMemory.Memory.AccumulateStep | tmpl/template_verifier.go:468-476 | one iteration extends the running sum from i to i + 1 commitments, or reverts exactly when idx_i + npub overflows |
| FreeMemory.Memory.LagrangeTerm | tmpl/template_verifier.go:471-474 | once the index fits, the iteration adds h · L_{idx_i+npub}(ζ) to acc after three modexp calls |
| FreeMemory.Memory.AllocIndices | tmpl/template_verifier.go:460-461 | `commitment_indices` is allocated at the free memory pointer and holds the key's indices |
| FreeMemory.Memory.AllocWires | tmpl/template_verifier.go:463-466 | the array of 2k words is allocated, and the copy writes 4k words from its first element on, past its end |
| FreeMemory.Memory.ComputePiLiteral | tmpl/template_verifier.go:360-454 | returns `PiLiteral(ζ, pub)`; three modexp calls, with the memory they leave fixed |
| FreeMemory.Memory.ComputePiCommitments | tmpl/template_verifier.go:457-477 | reverts exactly when an index overflows; otherwise returns pi0 plus the weighted commitment hashes, with the two arrays and the last scratch left behind |
| FreeMemory.Memory.Alloc | tmpl/template_verifier.go:460-464 | `new uint256[](n)` writes the length word and n zeros and moves the free memory pointer past them |
| FreeMemory.Memory.ComputePi | tmpl/template_verifier.go:345-478 | reverts exactly when an index + |pub| overflows; otherwise returns `PiSpec` of the proof's wire commitments and fixes the whole memory it leaves |
| PublicInputs.PiSpecIsDot | tmpl/template_verifier.go:345-478 | PI = (public-input part + Σ hash_fr(W_i) L_{idx_i+|pub|}(ζ)) mod r |
| PublicInputs.PiClosedForm | tmpl/template_verifier.go:345-478 | PI = (Σ L_i(ζ) pub_i + Σ hash_fr(W_i) L_{idx_i+|pub|}(ζ)) mod r, with L_i given by `compute_ith_lagrange_at_z` |
| Transcript.GammaPreimageShape | tmpl/template_verifier.go:192-249 | γ hashes 5 + 32(22 + |pub| + 2k) bytes: "gamma", S1..S3, Ql, Qr, Qm, Qo, Qk, the public inputs, the wire commitments, then [L], [R], [O] |
| Transcript.BetaPreimageShape | tmpl/template_verifier.go:251-258 | β hashes the 0x24 bytes "beta" ‖ raw γ |
| Transcript.AlphaPreimageShape | tmpl/template_verifier.go:260-269 | α hashes the 0x65 bytes "alpha" ‖ raw β ‖ [Z] |
| Transcript.ZetaPreimageShape | tmpl/template_verifier.go:271-284 | ζ hashes the 0xe4 bytes "zeta" ‖ raw α ‖ [H0] ‖ [H1] ‖ [H2] |
| Transcript.RawDigestFed | tmpl/template_verifier.go:164-180 | each next preimage holds the unreduced digest: for a digest of r or more, reducing it first would change every later preimage |
| Transcript.RawChallengesOfView | tmpl/template_verifier.go:152-190 | reducing the raw digests taken from memory gives `DeriveChallenges` of the proof's view |
| FiatShamir.StoreGammaTranscript | tmpl/template_verifier.go:193-240 | the `mstore`s of `derive_gamma` leave γ's transcript words at the free memory pointer |
| FiatShamir.DeriveGamma | tmpl/template_verifier.go:192-249 | returns SHA-256 of γ's transcript from byte 0x1b on; the transcript stays in memory with the digest over its first word |
| FiatShamir.DeriveBeta | tmpl/template_verifier.go:251-258 | returns SHA-256 of "beta" ‖ prev; the two words are left in memory, the digest first |
| FiatShamir.DeriveAlpha | tmpl/template_verifier.go:260-269 | returns SHA-256 of "alpha" ‖ prev ‖ [Z]; its words are left in memory |
| FiatShamir.DeriveZeta | tmpl/template_verifier.go:271-284 | returns SHA-256 of "zeta" ‖ prev ‖ [H0..H2]; its words are left in memory |
| FiatShamir.DeriveGammaBetaAlphaZeta | tmpl/template_verifier.go:152-190 | returns the four challenges reduced mod r, each hashed from the previous raw digest, and fixes the memory left behind |
| Verdict.Seeded | tmpl/template_verifier.go:500-505 | the five `mstore`s set α, β, γ, ζ and PI and nothing else |
| Pipeline.AlphaSquareLagrangeIsL0 | tmpl/template_verifier.go:524-543 | α²L_0 as computed is α · α · `compute_ith_lagrange_at_z(ζ, 0)` |
| Pipeline.ComputeAlphaSquareLagrange0 | tmpl/template_verifier.go:524-543 | only `state_zeta_power_n_minus_one` and `state_alpha_square_lagrange` change, both to values below r |
| Verification.Verifier.ComputeAlphaSquareLagrange0 | tmpl/template_verifier.go:524-543 | the slots become `Pipeline.ComputeAlphaSquareLagrange0` of the old slots; the second `pow`'s scratch is left at `state_last_mem` |
| Pipeline.QuotientIdentity | tmpl/template_verifier.go:854-889 | the computed left side is the integer formula r(ζ) + PI + (l + βs1 + γ)(r + βs2 + γ)(o + γ)αz(ωζ) − α²L_0 mod r; `state_success` is set exactly when that equals t(ζ)(ζ^n − 1) mod r |
| Pipeline.VerifyQuotientPolyEvalAtZeta | tmpl/template_verifier.go:854-889 | only `state_success` changes; it is overwritten, not ANDed |
| Verification.Verifier.VerifyQuotientPolyEvalAtZeta | tmpl/template_verifier.go:854-889 | the slots become `Pipeline.VerifyQuotientPolyEvalAtZeta` of the old slots; the scratch length is kept |
| Pipeline.FoldH | tmpl/template_verifier.go:838-847 | only `state_folded_h` and `state_success` change, and success is never set |
| Pipeline.FoldHHorner | tmpl/template_verifier.go:838-847 | when the four calls succeed, [folded H] = [H0] + ζ^(n+2)([H1] + ζ^(n+2)[H2]) |
| Verification.Verifier.FoldH | tmpl/template_verifier.go:838-847 | the slots become `Pipeline.FoldH` of the old slots |
| Pipeline.LinearisedS1Formula | tmpl/template_verifier.go:791-807 | s1 = z(ωζ)·β·(l + βs1 + γ)(r + βs2 + γ)·α mod r |
| Pipeline.LinearisedS2Formula | tmpl/template_verifier.go:809-826 | s2 is `LinearisedS2Value` mod r: α²L_0 − (l + βζ + γ)(r + 5βζ + γ)(o + 25βζ + γ)·α over the integers, with coset shift 5 |
| Pipeline.GatesLRDlog | tmpl/template_verifier.go:739-750 | when the three calls succeed, the accumulator is l[Ql] + r[Qr] + lr[Qm] |
| Pipeline.LinearisedGatesDlog | tmpl/template_verifier.go:739-758 | when every call succeeds, the gate part is l[Ql] + r[Qr] + lr[Qm] + o[Qo] + [Qk] |
| Verification.Verifier.LinearisedGatesEc | tmpl/template_verifier.go:739-758 | the linearised slot and the flag become the result and status of the gate part |
| Pipeline.CommitApiAccDlog | tmpl/template_verifier.go:760-769 | when every call of the custom-gate loop succeeds, it adds Σ qc_i(ζ)[W_i] |
| Pipeline.LinearisedCustomDlog | tmpl/template_verifier.go:739-769 | when every call succeeds, the gate part plus Σ qc_i(ζ)[W_i] |
| Verification.Verifier.CustomGatesEc | tmpl/template_verifier.go:760-769 | the custom-gate loop takes the linearised slot and the flag to `CommitApiAcc` over the wire commitments and the selector openings |
| Pipeline.LinearisedEcDlog | tmpl/template_verifier.go:734-779 | when every call succeeds, [lin] = l[Ql] + r[Qr] + lr[Qm] + o[Qo] + [Qk] + Σ qc_i(ζ)[W_i] + s1[S3] + s2[Z] |
| Verification.Verifier.LinearisedPolynomialEc | tmpl/template_verifier.go:734-779 | `state_linearised_polynomial` and `state_success` become the result and status of `LinearisedEc`; others are kept |
| Pipeline.ComputeCommitmentLinearisedPolynomial | tmpl/template_verifier.go:788-833 | only `state_linearised_polynomial` and `state_success` change, and success is never set |
| Verification.Verifier.ComputeCommitmentLinearisedPolynomial | tmpl/template_verifier.go:788-833 | the slots become `Pipeline.ComputeCommitmentLinearisedPolynomial` of the old slots |
| Pipeline.ComputeGammaKzg | tmpl/template_verifier.go:680-732 | only `state_gamma_kzg` changes, to a value below r |
| Transcript.GammaKzgPreimageShape | tmpl/template_verifier.go:680-732 | γ_kzg hashes 5 + 32(22 + 3k) bytes: "gamma", ζ, [folded H], [lin], [L], [R], [O], [S1], [S2], [Qcp_i], then the openings t(ζ), r(ζ), l, r, o, s1, s2 at ζ, then qc_i(ζ) |
| Verification.Verifier.ComputeGammaKzg | tmpl/template_verifier.go:680-732 | the slots become `Pipeline.ComputeGammaKzg` of the old slots; the scratch from `state_last_mem` on holds the hashed words |
| Verification.Verifier.StoreGammaKzgTranscript | tmpl/template_verifier.go:684-725 | the `mstore`s leave γ_kzg's transcript words from `state_last_mem` on, and no slot changes |
| Verification.Verifier.GammaKzgForFold | tmpl/template_verifier.go:684-714 | the points `fold_state` later reads from the scratch are the ones `compute_gamma_kzg` hashed |
| Pipeline.GammaPowerIsPow | tmpl/template_verifier.go:619-656 | the running `acc_gamma` at step j is γ^j mod r |
| Pipeline.FoldClaimed | tmpl/template_verifier.go:626-658 | the folded claimed value is Σ x_j γ^j mod r |
| Pipeline.FoldDigest | tmpl/template_verifier.go:624-657 | when every call succeeds, [folded digest] = Σ γ^j [P_j] |
| Pipeline.FoldStateLockStep | tmpl/template_verifier.go:608-663 | `fold_state` weighs the j-th point and the j-th claimed value by the same γ^j |
| Pipeline.FoldState | tmpl/template_verifier.go:613-663 | only `state_folded_digests`, `state_folded_claimed_values` and `state_success` change, and success is never set |
| Verification.Verifier.FoldState | tmpl/template_verifier.go:613-663 | the slots become `Pipeline.FoldState` over the points in the scratch words and the proof's openings |
| Verification.Verifier.FoldNext | tmpl/template_verifier.go:654-661 | one loop iteration extends the fold by the next point and opening at γ^n |
| Verification.Verifier.FoldFirst | tmpl/template_verifier.go:618-638 | the first four terms: the digest starts at the folded [H] and the claimed value at t(ζ), then [lin] with r(ζ), [L] with l(ζ) and [R] with r at ζ, by γ, γ², γ³; acc_gamma ends at γ³ |
| Verification.Verifier.FoldSecond | tmpl/template_verifier.go:640-650 | the next three terms: [O], [S1], [S2] with o, s1 and s2 at ζ, by γ⁴, γ⁵, γ⁶; acc_gamma ends at γ⁶ |
| Pipeline.EcAddDlog | tmpl/template_verifier.go:891-900 | the status is the precompile's; on success dlog adds; on failure the destination keeps its old point |
| Pipeline.EcMulDlog | tmpl/template_verifier.go:903-910 | the status is the precompile's; on success dlog scales by s; on failure the destination keeps its old point |
| Pipeline.EcAccMulDlog | tmpl/template_verifier.go:913-923 | a successful `point_acc_mul` gives dst + s·src |
| Verification.Verifier.PointAdd | tmpl/template_verifier.go:891-900 | the destination becomes the ECADD result, or keeps its point on failure; the status is ANDed into `state_success` |
| Verification.Verifier.PointMul | tmpl/template_verifier.go:903-910 | the destination becomes the ECMUL result, or keeps its point on failure; the status is ANDed into `state_success` |
| Verification.Verifier.PointAccMul | tmpl/template_verifier.go:913-923 | the destination becomes `EcAccMul(dst, src, s)`; both statuses are ANDed into `state_success` |
| Verification.Verifier.FrAccMulClaimed | tmpl/template_verifier.go:926-929 | `state_folded_claimed_values` becomes dst + x·s mod r, and nothing else changes |
| Verification.Verifier.Pow | tmpl/template_verifier.go:932-941 | returns x^e mod r and leaves the six modexp words from m on |
| Pipeline.PairingInput | tmpl/template_verifier.go:590-604 | the twelve pairing words: the digest, g2_srs_0, the negated folded quotient, g2_srs_1 |
| Pipeline.FoldedQuotientsDlog | tmpl/template_verifier.go:556-562 | the pairing receives −([W_ζ] + random·[W_ζω]) |
| Pipeline.EvalsCommitDlog | tmpl/template_verifier.go:570-578 | the ECMUL by the folded evaluation gives −[fe]G when it succeeds and −G when it fails |
| Pipeline.BatchDigestDlog | tmpl/template_verifier.go:564-588 | the digest is folded + random[Z] − [fe]G + ζ[W_ζ] + random·ζω[W_ζω] |
| Pipeline.PointsQuotientsDlog | tmpl/template_verifier.go:581-586 | on success, ζ[W_ζ] + random·ζω[W_ζω] |
| Pipeline.DigestEvalsDlog | tmpl/template_verifier.go:564-579 | on success, folded digests + random[Z] minus the ECMUL by the folded evaluation |
| Verification.Verifier.BatchFoldQuotients | tmpl/template_verifier.go:558-562 | [W_ζ] + random[W_ζω] lands at `state_last_mem`, and its status is ANDed into the flag |
| Verification.Verifier.EvalsCommitEc | tmpl/template_verifier.go:570-578 | the point at scratch word 2 becomes `EvalsCommit` of the folded claimed value; the slots are kept |
| Verification.Verifier.BatchDigestEvals | tmpl/template_verifier.go:564-579 | the digest gains random[Z] and the negated evaluation point, the claimed value gains random·z(ωζ), and the flag takes both statuses |
| Verification.Verifier.BatchPointsQuotients | tmpl/template_verifier.go:581-588 | ζ[W_ζ] + random·ζω[W_ζω] is added into the folded digests, with both statuses in the flag |
| Verification.Verifier.BatchPairing | tmpl/template_verifier.go:590-606 | the flag is ANDed with the status of the pairing call on `PairingInput`; nothing else changes |
| Pipeline.BatchVerifyDlog | tmpl/template_verifier.go:549-607 | the folded claimed value gains random·z(ωζ); when success is set, the two pairing points are the batched digest and the negated folded quotient |
| Pipeline.BatchVerifyMultiPoints | tmpl/template_verifier.go:549-607 | only the folded digests, the folded claimed value and `state_success` change, and success is never set |
| Verification.Verifier.BatchVerifyMultiPoints | tmpl/template_verifier.go:549-607 | the slots become `Pipeline.BatchVerifyMultiPoints` of the old slots |
| Verdict.PairingValueIgnored | tmpl/template_verifier.go:605-606 | two pairing precompiles that succeed on the same inputs give the same result, whatever word they return |
| Verification.Verifier.Run | tmpl/template_verifier.go:507-513 | the seven calls take the slots to `RunVerify` of the old slots |
| Verification.Verifier.RunLinearised | tmpl/template_verifier.go:507-510 | the first four calls take the slots to `AfterLinearised` |
| Verification.Verifier.RunFold | tmpl/template_verifier.go:511-512 | `compute_gamma_kzg` then `fold_state` take the slots to `FoldAfterGamma` |
| Verification.RunOn | tmpl/template_verifier.go:507-515 | returns the `success` of `RunVerify` |
| Verdict.VerdictImpliesQuotient | tmpl/template_verifier.go:507-515 | a positive verdict implies the quotient identity mod r |
| Verdict.VerdictIsConjunction | tmpl/template_verifier.go:507-515 | the verdict is the quotient check AND the status of every counted precompile call AND the pairing call's status |
| Verdict.VerdictNeedsEveryStep | tmpl/template_verifier.go:507-515 | a positive verdict needs `state_success` set after each earlier step |
| Verdict.VerdictIgnoresLeftovers | tmpl/template_verifier.go:500-515 | the free-memory slots `Verify` does not seed cannot change the verdict |
| Verification.ChallengesAndPi | tmpl/template_verifier.go:482-493 | the challenges are the reduced raw digests; PI reverts exactly when an index overflows and is otherwise `PiSpec` of the proof's wire commitments |
| Verification.AcceptsFrom | tmpl/template_verifier.go:495-515 | from any leftover slots seeded with the challenges and PI, the verdict is `Accepts` |
| Verification.Verify | tmpl/template_verifier.go:482-520 | reverts exactly when a commitment index + |pub| overflows; otherwise returns `Accepts(vk, prims, proof, pub)`, which depends only on the key, the precompiles, the proof and the public inputs |
| Serialise.AppendPoints | main.go:88-91 | the loop appends x ‖ y big-endian for each point, in order |
| Serialise.AppendClaimedValues | main.go:110-113 | the loop appends claimed values [from, to) as 32-byte big-endian words, in order |
| Serialise.AppendGrandProduct | main.go:117-129 | appends [Z], z(ωζ), then claimed values 0 and 1 |
| Serialise.AppendMiddle | main.go:117-139 | appends the nine words after the openings at ζ, in serialisation order |
| Serialise.SerialiseFixed | main.go:79-139 | the bytes before the two trailing loops are the 26 fixed words |
| Serialise.SerialiseProof | main.go:77-153 | the result is all serialised words as 32-byte big-endian words: 0x340 + 0x20(|claimed values| − 7) + 0x40·|BSB22 commitments| bytes |
| Serialise.SizeMatches | main.go:143-150 | the length is `Verify`'s ProofSize(k) for k BSB22 commitments exactly when there are k + 7 claimed values |
| Serialise.ReadBack | main.go:77-153 | for k BSB22 commitments and k + 7 claimed values, each `proof_*` load reads back the proof's own field: `View(bytes, k) == ProofViewOf(proof)` |

## Left out

- Gas, the EVM's memory expansion, and the calling contract are left out. `Verify` is a method over a memory it is given.
- The curve and pairing arithmetic of BN254 is not modelled: SHA-256, keccak256, `hash_fr` and the precompiles are oracles.
- Modexp is exponentiation mod r. The primality of r is a hypothesis, not a proof.
- Template rendering is left out. The verifying key is the datatype `VerifyingKey`, and `WellFormed` states what the template emits.
- `state_check_var`, `state_sv`, `state_su` and `state_alpha_square_lagrange_one` are written or reserved but never read. They are not slots of the model.
- The value of `compute_pi`'s `zeta_power_n_minus_one` is unused. Only the memory it leaves is modelled.
- The words at `mload(0x40)` up to `state_last_mem` are `Verifier.slots`, and the words from `state_last_mem` on are `Verifier.scratch`. `ChallengesAndPi` copies both out of `Memory`, so the model does not capture the aliasing between the two regions.
- The point helpers take their operands as values read from memory. Addresses into the proof are not modelled.
- The pairing's output word written at 0x00 is not modelled, because no step reads it.
- The success word of `Verify` is decoded as `!= 0`.
- `pow_local` writes its output to the scratch word 0x00, which is not part of `Memory`.
- gnark's point encodings are not modelled. `RawBytes` is x ‖ y big-endian, the point at infinity gets no special encoding, and field elements appear as their canonical words.
- Serialise.SerialiseProof: Go's index panic on fewer than seven claimed values is a precondition, and the other Go bounds checks are not modelled.
- `main` in `main.go`, which reads files and writes output, is not modelled.
- `Utils.hash_fr` is an external library call. The model takes it as a pure oracle
  that writes no memory and leaves the free memory pointer where it was.
- Verification.Verifier.VerifyQuotientPolyEvalAtZeta: the scratch it leaves from `state_last_mem` on is not specified, only its length.
- Verification.Verifier.FoldH: the scratch it leaves from `state_last_mem` on is not specified, only its length.
- Verification.Verifier.ComputeCommitmentLinearisedPolynomial: the scratch it leaves from `state_last_mem` on is not specified, only its length.
- Verification.Verifier.BatchVerifyMultiPoints: the scratch it leaves from `state_last_mem` on is not specified, only its length.
- Verification.Verifier.RunLinearised: the scratch it leaves from `state_last_mem` on is not specified, only its length.
- Verification.Verifier.RunFold: the scratch it leaves from `state_last_mem` on is not specified, only its length.
