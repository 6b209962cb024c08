# Ferveo: a model of the polynomial arithmetic and of the threshold protocol

Ferveo lets a set of validators generate a key together (publicly verifiable secret
sharing, PVSS), encrypts messages to that key, and lets any threshold of the validators
decrypt. The protocol follows IACR ePrint 2022/898: sections 4.2.3 (transcript checks)
and 4.4.2 (ciphertext validity). This project models its two cores and proves what they
are for:

* **Fast polynomial arithmetic** (`subproductdomain`): Newton inversion modulo x^l, fast
  monic division, the subproduct tree with multipoint evaluation, Lagrange denominators,
  linear combination and interpolation, and Toeplitz multiplication through a circulant
  matrix. Each fast form is proved against an independent simple definition.
* **The protocol** (`ferveo`, `ferveo-tdec`): dealing, optimistic and full verification,
  aggregation, encryption, simple and precomputed decryption shares, combining,
  refreshing and handing over shares. The main theorems speak of every accepted
  transcript, however it was made, and of every run of refreshes and handovers.

## Main theorems

1. `EndToEnd.DecryptionSucceeds`, `Api.VerifiedSharesDecrypt`, `Api.RitualDecrypts`:
   whatever aggregate verification accepts, the shares of any threshold of validators decrypt.
2. `EndToEnd.ThresholdIsExact`: one share fewer never does, if and only if the threshold
   does not exceed the size of the evaluation domain. For every accepted transcript it gives
   the number of shares that is enough while one fewer never is.
3. `ShareMobility.RunPreservesDecryption`, `ShareMobility.MessageSurvivesRun`: after any
   sequence of refreshes and handovers that returned, with any keys and finalized by whomever,
   the shares that the current holders create combine to U times the secret plus U times a
   defect that the update commitments determine, as long as the steps were sound for their
   slots. `Handover.HandoverIsExact`, `Refresh.RefreshKeepsSharing` and
   `ShareMobility.StepIsExact` show that sound steps are exactly those that keep a sharing, and
   `Refresh.RefreshIsExact` that the secret is kept exactly if the defect is zero.
   `ShareMobility.ShortUpdatesPreserveDecryption`: it is zero for updates with no more
   coefficients than slots combined, if the number of shares lies in the range that the domain
   of the verification serves.
4. `SubproductTree.EvaluateInto`, `SubproductTree.Interpolate`, `FastDivision.FastDivideMonic`,
   `Toeplitz.ToeplitzMul`: the fast algorithms compute what they should, with the exact
   conditions under which they return at all, as far as their own code decides (assertions
   inside the polynomial library are not modelled, see the end of this document).
5. `Combine.FastAndSlowAgree`, `KeyShares.PrecomputedRefinesSimple`: the two ways of
   computing Lagrange coefficients, and the two ways of combining shares, agree.

## How the model reads

* **The field.** `PrimeField` works modulo `MODULUS`, a constant without a value: every
  statement holds for every prime. Inverses are computed by the extended Euclidean
  algorithm, which is proved. Field and polynomial operations are reached through constants
  (`OPS`, `POLY`) of types that pin what they return and have a witness; this
  keeps their definitions out of proofs that only need the field and ring laws.
* **Polynomials** are coefficient vectors, lowest first. The results of sums, differences
  and products have no zeros at the top, as those of the arkworks library; vectors built
  by hand may have them. `Trim` removes them, and `Eval` and `Coeff` do not see them.
* **Domains.** A domain is a power of two and a primitive root of unity of that order.
  The transform evaluates the vector, resized to the size of the domain, at the powers of
  the root. Resizing drops coefficients beyond the size, which matters below. Which domains
  the field provides is an arbitrary constant (`SUBGROUPS`); `ConstructDomain(n)` takes the one
  for the least power of two that is at least n, as the library does, and every operation
  constructs its domain from the count from which the source constructs it.
* **Groups** are modelled in the exponent: an element of G1, G2 or GT is its discrete
  logarithm, the group operation is addition, the identity is 0, a generator is 1, and the
  pairing is multiplication.
* **Primitives.** SHA-256, hashing to G2, key and nonce derivation and the AEAD are
  arbitrary functions; of the AEAD it is known that opening undoes sealing (section 2.8 of
  RFC 8439).
* **Randomness** is a parameter. Where the library draws a random polynomial it drops zeros
  at the top, so a threshold of t asks for t random coefficients and may keep fewer.
* **Panics** are results: `None`, `Panicked` or `ok == false`. Errors are `Err` or `Failed`.
* **Hash maps** are `map`s. An iteration visits them in an arbitrary order, or takes the
  order as a sequence, and the results are proved not to depend on it.

The modules, from the bottom: `Wrappers`, `PrimeField`, `Sums`, `Polynomial`, `FastDivision`,
`Interpolation`, `SubproductTree`, `Counting`, `EvaluationDomain`, `Toeplitz`; `Groups`,
`Combine`, `Ciphertext`, `DecryptionShares`, `KeyShares`, `Validators`, `Pvss`,
`VectorSums`, `Aggregation`, `Dkg`, `EndToEnd`, `Api`, `Sharings`, `Refresh`, `Handover`,
`ShareMobility`.

## Where the code promises more than it does

* `SubproductTree::evaluate` documents t_i = f(u_i) for every f of small degree. A
  polynomial of two or more coefficients that vanishes at one of several points leaves an
  empty remainder there, whose coefficient 0 the code reads (subproductdomain/src/lib.rs:220).
  `EvaluateInto` returns if and only if there is no such point, and `EvaluateStopsAtRoot`
  is an instance. `Evaluate` and the tree functions built on it carry this condition;
  for Lagrange denominators it amounts to distinct points.
* A threshold above the size of the evaluation domain is not refused anywhere
  (ferveo/src/dkg.rs:58-69, ferveo/src/pvss.rs:287-311). Full verification then accepts
  transcripts whose shares recover the secret one below the threshold: `ThresholdIsExact`
  is an if-and-only-if, with the number of shares that are really needed, and
  `AcceptedBeyondDomain` is an instance.
* `refresh` keeps the old commitments (ferveo/src/pvss.rs:546-549).
  `RefreshedSlotAgainstOldCoeffs` says when a slot still verifies against them,
  `RefreshedAgainstOldCoeffs` when the whole transcript does, and `HandoverAfterRefresh` when
  an honest handover is still possible. `RefreshedWithNewCoeffs` confirms the repair that
  docs/refresh-handover-roadmap.md presumes, if verification and refresh use one domain.
* `refresh` and `finalize_handover` construct their domain from the number of shares that the
  transcript happens to have (ferveo/src/pvss.rs:507-512, 563-568); verification uses the
  domain of its caller, and does not bound that number. `SameDomain` gives the exact condition
  for the two to agree, and `RunPreservesDecryption` what the shares combine to in any case.
  An input: four validators, messages of the senders 0 and 1, threshold 2, and an aggregate cut
  to these two shares. It verifies over the four-point domain, but a refresh works over the
  two-point one and accepts an update b x made for that. Modulo 13, with 5 as root of order 4,
  the shares of 3 + 4x then combine to 11 instead of 3 after the update x.
  `CutTranscriptLosesSecret` is this input over every field, for all nonzero coefficients and
  keys; `OtherDomainMovesSecret` is an if-and-only-if for such runs.
* `AggregatedTranscript::verify` constructs its domain from its argument `validators_num`
  (ferveo/src/api.rs:291-293), while shares are combined over the domain of the DKG context.
  Nothing relates the two numbers. `DomainsMustAgree`: at threshold 2, the verified shares of the
  slots 0 and 1 combine to U times the public key if and only if both give one domain.
* Nothing ties the key map that `refresh` is called with to the validators
  (ferveo/src/pvss.rs:503-507). `RefreshKeepsSharing` gives the key maps that keep a sharing.
* `finalize_handover` compares the transcript's outgoing key with the caller's own, and never
  checks that this validator holds the slot (ferveo/src/pvss.rs:573-587). `HandoverIsExact`
  gives the exact condition for any caller; `HandoverByAnother` is a family of transcripts that
  any validator can finalize for a slot, and which keep the sharing only if the key is the
  slot's or the slot is empty.
* `verify_recovery` does not bound the number of update coefficients
  (ferveo/src/refresh.rs:246). `RefreshIsExact` gives, for updates of every length, the exact
  condition under which the shares still combine to the secret; `LongUpdatesRaiseThreshold`
  is the case of one coefficient too many.
* `finalize_handover` announces a check of the installed share and drops its verdict
  (ferveo/src/pvss.rs:604-610). `InstalledSlot` gives the exact condition for a valid slot,
  `ReturnedDoesNotMeanValid` a family of transcripts that are accepted without one, and not
  only such with identities in them.
* The precomputed share verifier compares against an unweighted share:
  `PrecomputedVerifier` gives the honest shares that it accepts.

## Model

| member | source | states |
|---|---|---|
| `FastDivision.NewtonDoubles` | subproductdomain/src/lib.rs:52-60 | If f times the approximation is 1 modulo x^n, then f times the next approximation is 1 modulo x^(2n). |
| `FastDivision.InverseModXl` | subproductdomain/src/lib.rs:39-66 | Fails exactly when the constant coefficient is zero; otherwise f times the result is 1 modulo x^length, and the result has at most as many coefficients as the next power of two. |
| `FastDivision.InverseUnique` | subproductdomain/src/lib.rs:33-66 | Any two inverses modulo x^l agree modulo x^l, so the result is the inverse. |
| `FastDivision.Rev` | subproductdomain/src/lib.rs:71-77 | The result is x^m f(1/x): coefficient i of it is coefficient m - i of f. |
| `FastDivision.ReversedProduct` | subproductdomain/src/lib.rs:97-107 | Reversal turns a product into the product of the reversals, which is why a quotient can be read off the reversed dividend. |
| `FastDivision.FastDivideMonic` | subproductdomain/src/lib.rs:84-109 | For every dividend and monic divisor, f = q g + r with r shorter than g. |
| `FastDivision.DivisionUnique` | subproductdomain/src/lib.rs:79-109 | There is only one such quotient and remainder, up to zeros at the top. |
| `SubproductTree.TreeModulus` | subproductdomain/src/lib.rs:184-207 | The root of the tree over u holds the product of all x - u_i, for every nonempty u. |
| `SubproductTree.Reduce` | subproductdomain/src/lib.rs:228-230 | The remainder modulo the product over a half has the values of f on that half, and evaluating it returns exactly when f has no root there (or is a constant). |
| `SubproductTree.EvaluateInto` | subproductdomain/src/lib.rs:215-239 | For deg f < n it returns if and only if f is not the empty vector and has one coefficient, or there is one point, or f vanishes nowhere on u; then t_i = f(u_i), and nothing outside the slice changes. |
| `SubproductTree.EvaluateStopsAtRoot` | subproductdomain/src/lib.rs:218-221 | On x over the points 0 and 1 it does not return. |
| `SubproductTree.Evaluate` | subproductdomain/src/lib.rs:139-143 | The values of f at all points of the domain, under the same exact condition. |
| `SubproductTree.Derivative` | subproductdomain/src/lib.rs:293-299 | The loop computes the formal derivative. |
| `SubproductTree.ProductRule` | subproductdomain/src/lib.rs:293-299 | The formal derivative obeys the product rule, at every point. |
| `SubproductTree.DerivativeAtRoot` | subproductdomain/src/lib.rs:259-261 | The derivative of the product of all x - u_m has the value of the product of u_i - u_m over m other than i at u_i. |
| `SubproductTree.InverseLagrangeCoefficients` | subproductdomain/src/lib.rs:254-263 | Returns exactly for distinct points, and then entry i is the product of u_i - u_m over m other than i. |
| `SubproductTree.LinearCombineCorrect` | subproductdomain/src/lib.rs:271-289 | The recursion over the tree gives the sum of c_i m / (x - u_i), of length at most n. |
| `SubproductTree.Interpolate` | subproductdomain/src/lib.rs:243-251 | Returns exactly for distinct points; the result has at most n coefficients and takes the value v_i at u_i. Where v is shorter than u the value is the square of the denominator. |
| `SubproductTree.InterpolateUndoesEvaluate` | subproductdomain/src/lib.rs:242-251 | The interpolation formula on the values of f is f, for every f of degree below n. |
| `SubproductTree.EvaluateThenInterpolate` | subproductdomain/src/lib.rs:215-251 | Evaluating f and interpolating the values returns exactly when the points are distinct and the evaluation returns, and then gives f back, up to zeros at the top. |
| `SubproductTree.InterpolateThenEvaluate` | subproductdomain/src/lib.rs:215-251 | Interpolating values and evaluating the result gives the values back; it returns exactly for distinct points and, over several points, only if no value is zero. |
| `Interpolation.RootCount` | subproductdomain/src/lib.rs:242-251 | A polynomial with as many distinct roots as coefficients is zero. |
| `Interpolation.SameValues` | subproductdomain/src/lib.rs:242-251 | Two polynomials of degree below n with the same values at n distinct points are the same. |
| `Interpolation.InterpolantValues` | subproductdomain/src/lib.rs:242-251 | The interpolation formula takes the given values at distinct points and has at most n coefficients. |
| `Interpolation.InterpolantUnique` | subproductdomain/src/lib.rs:242-251 | Nothing else of that length does. |
| `Interpolation.EvalLinearCombination` | subproductdomain/src/lib.rs:265-289 | The recursively defined combination is, at every x, the sum over i of c_i times the product of x - u_m over m other than i. |
| `Interpolation.LinearCombinationConcat` | subproductdomain/src/lib.rs:286-288 | Combinations over two halves are joined by multiplying each with the other half's product. |
| `Interpolation.DenominatorsNonzero` | subproductdomain/src/lib.rs:246-248 | All denominators are invertible if and only if the points are distinct. |
| `Interpolation.ReconstructionDefect` | ferveo-tdec/src/combine.rs:30-45 | For every polynomial of any degree, the Lagrange sum misses f(x) by the quotient by the product of all x - u_i, times that product at x. |
| `Interpolation.Reconstruction` | ferveo-tdec/src/combine.rs:30-45 | It misses by nothing when f has at most as many coefficients as there are points. |
| `Interpolation.ReconstructionOneShort` | ferveo-tdec/src/combine.rs:30-45 | With one point too few it misses by the leading coefficient times the product of x - u_i. |
| `Interpolation.MisplacedPair` | ferveo-tdec/src/combine.rs:30-45 | Two values of a + b x, taken at 1 and y but interpolated at 1 and x, give a exactly when b is zero or x is y. |
| `EvaluationDomain.ElementsDistinct` | ferveo/src/dkg.rs:209-212 | The points of a domain are pairwise distinct. |
| `EvaluationDomain.SameDomain` | ferveo/src/pvss.rs:507-512 | The same domain is constructed for n points as for m exactly when n does not exceed its size, and is more than half of it unless the size is 1. |
| `EvaluationDomain.ConstructsLeastPower` | ferveo/src/pvss.rs:507-512 | The domain constructed for n points is the one that the field provides for the least power of two that is at least n, with as many points, or there is none. |
| `EvaluationDomain.FftEvaluates` | ferveo/src/pvss.rs:231-238 | Up to as many coefficients as the domain has points, the transform is evaluation at the powers of the root. |
| `EvaluationDomain.FftTruncates` | ferveo/src/pvss.rs:231-238 | There is one value for each point, and coefficients beyond the size of the domain are dropped. |
| `EvaluationDomain.IfftUndoesFft` | subproductdomain/src/lib.rs:350-361 | The inverse transform, defined by interpolation over the domain, undoes the transform. |
| `EvaluationDomain.FftOfConvolution` | subproductdomain/src/lib.rs:350-361 | The transform turns cyclic convolution into the pointwise product. |
| `EvaluationDomain.SizeBelowModulus` | subproductdomain/src/lib.rs:365-368 | The size of a domain is invertible in the field. |
| `Toeplitz.BuildCirculant` | subproductdomain/src/lib.rs:304-321 | In both branches entry 0 and n is coefficient n of f and entry n + k is coefficient k. |
| `Toeplitz.ConvolutionIsToeplitz` | subproductdomain/src/lib.rs:338-361 | The cyclic convolution of the circulant with the padded reversed v has the sum of f_(i+1+k) v_k as entry i below n. |
| `Toeplitz.ToeplitzMul` | subproductdomain/src/lib.rs:325-370 | With 2^k the least power of two that is at least twice the size and twice the degree, it fails exactly when the field has no domain of 2^k points; otherwise the result has 2^k / 2 entries, those of the Toeplitz matrix times v, beside the inverse of 2^k. |
| `Combine.LagrangeBasisAt` | ferveo-tdec/src/combine.rs:30-45 | The nested loop computes for each point the product of x - b over the points b of other value, divided by that of a - b, for every point list. |
| `Combine.BasisIsLagrange` | ferveo-tdec/src/combine.rs:30-45 | For distinct points these are the Lagrange coefficients. |
| `Combine.BasisReconstructs` | ferveo-tdec/src/combine.rs:30-45 | The sum of the coefficients times the values of f is f(x), for every f of degree below n and every x. |
| `Combine.SharesReconstruct` | ferveo-tdec/src/combine.rs:47-59 | Shares that are r times the values of f combine to r times f(0). |
| `Combine.CombinesPairs` | ferveo-tdec/src/combine.rs:47-69 | Combining multiplies the shares, each to the power of its own coefficient; shares and coefficients without a partner are left out. Precomputed shares are multiplied as they are. |
| `Combine.OneShareShort` | ferveo-tdec/src/combine.rs:47-59 | With one share too few the result is off by r times the leading coefficient times the product of the negated points. |
| `Combine.FastAndSlowAgree` | subproductdomain/src/lib.rs:254-263 | What the tree computes as denominator i, times what the nested loop computes as coefficient i at x, is the product of x - u_m over m other than i. |
| `Ciphertext.CheckIsExact` | ferveo-tdec/src/ciphertext.rs:69-106 | The check passes exactly when neither commitment nor tag is the identity and the tag is the commitment's exponent times the hash to G2 of commitment, payload hash and associated data; otherwise it fails with one error. |
| `Ciphertext.TagBindsPayload` | ferveo-tdec/src/ciphertext.rs:69-106 | Under one commitment, a tag that passes for a payload and associated data passes for others exactly when the hashes to G2 collide, and no other tag passes for the same ones. |
| `Ciphertext.EncryptIsExact` | ferveo-tdec/src/ciphertext.rs:109-160 | Encryption refuses the identity as public key, then fails exactly if sealing does; otherwise it returns the random exponent as commitment, the payload sealed under the key of r times the public key, and r times the hash of these as tag. |
| `Ciphertext.EncryptionShape` | ferveo-tdec/src/ciphertext.rs:109-160 | Commitment, tag and sealed payload of what was encrypted are tied to one random exponent, and the payload opens under the key of r times the public key. |
| `Ciphertext.EncryptionChecks` | ferveo-tdec/src/ciphertext.rs:69-160 | An encryption passes the check exactly when r and the hash to G2 of commitment, payload hash and associated data are not zero. |
| `Ciphertext.DecryptionIsExact` | ferveo-tdec/src/ciphertext.rs:162-203 | For every ciphertext, associated data and secret: if commitment or tag is the identity, or the tag is not the one for payload and data, both ways of decrypting fail with the verification error; otherwise they return what the cipher opens under the key of the secret, or of the commitment times the private key, or that error. |
| `Ciphertext.DecryptionUndoesEncryption` | ferveo-tdec/src/ciphertext.rs:109-203 | Decryption with the shared secret, and with the private key, returns the message, if the header passes its check. |
| `DecryptionShares.SimpleVerifierIsExact` | ferveo-tdec/src/decryption.rs:22-130 | For a nonzero key the verifier accepts one pair of share and checksum only: U to the unblinded slot, and U without the key. |
| `DecryptionShares.CreateSimpleIsExact` | ferveo-tdec/src/decryption.rs:22-116 | A share is created exactly for a header that passes its check and a nonzero key, with these errors in this order; it is U to the unblinded slot, and its checksum times the key is U. Without the check only the key matters. |
| `DecryptionShares.CreatePrecomputedIsExact` | ferveo-tdec/src/decryption.rs:150-200 | The same for a precomputed share, which is U to the unblinded slot, to the Lagrange coefficient. |
| `DecryptionShares.VerifiersAreExact` | ferveo-tdec/src/decryption.rs:118-214 | For every validator key, both verifiers accept exactly when the share is the pairing of checksum and slot, and the checksum times the key is U. |
| `DecryptionShares.PrecomputedVerifier` | ferveo-tdec/src/decryption.rs:174-214 | It accepts an honest precomputed share exactly when its Lagrange coefficient is 1 or e(U, Z) is trivial. |
| `DecryptionShares.VerifyAllIsPointwise` | ferveo-tdec/src/decryption.rs:216-238 | The loop accepts exactly when every paired share verifies; surplus shares or contexts are not looked at. |
| `KeyShares.Positions` | ferveo-tdec/src/key_share.rs:63-116 | The index map sends each share index to its place in the sorted list. |
| `KeyShares.UnblindIsExact` | ferveo-tdec/src/key_share.rs:34-45 | Exactly a nonzero key unblinds, and the result times the key is the blinded share. |
| `KeyShares.PrecomputedShareIsExact` | ferveo-tdec/src/key_share.rs:63-116 | It exists exactly for a selected index, a nonzero key and a header that passes its check, with these errors in this order; times the key it is U to the slot, to the participant's own coefficient, and its checksum times the key is U. |
| `KeyShares.CreateDecryptionSharePrecomputed` | ferveo-tdec/src/key_share.rs:63-116 | An index that was not selected is an error that names it; a share is returned exactly for a selected index, a nonzero key and a header that passes its check. Sorting and looking up gives the share weighted with the participant's own coefficient. |
| `KeyShares.OwnCoefficientInAnyOrder` | ferveo-tdec/src/key_share.rs:63-116 | That coefficient is the one at the participant's place in any ordering of the selected participants. |
| `KeyShares.PrecomputedIsWeightedSimple` | ferveo-tdec/src/key_share.rs:47-116 | The precomputed share exists exactly when the simple one does, fails with the same error, has the same checksum and is the simple share times that coefficient. |
| `KeyShares.PrecomputedRefinesSimple` | ferveo-tdec/src/combine.rs:47-69 | The product of precomputed shares in any order is the simple combination of the simple shares in any other order. |
| `Validators.AssertNoShareDuplicates` | ferveo/src/validator.rs:71-83 | Succeeds exactly when the indices are distinct; otherwise it names the first repeated index. |
| `Validators.DuplicateFreeIsDistinct` | ferveo/src/validator.rs:71-83 | There is a repetition exactly when the indices are not pairwise distinct, and then the reported index is that of the first validator to repeat an earlier one. |
| `Pvss.ShareCheckIsSlotValid` | ferveo/src/pvss.rs:240-267 | The pairing check passes exactly when the slot exists and holds the committed polynomial's value there times the key. |
| `Pvss.SlotsAreExact` | ferveo/src/pvss.rs:329-355 | The loop accepts exactly when every validator has a nonzero key and a valid slot. |
| `Pvss.FullVerificationIsExact` | ferveo/src/pvss.rs:270-357 | do_verify_full accepts exactly when indices are distinct, there are threshold coefficients with the first and last nonzero, there is a validator, and every slot is valid for a nonzero key. |
| `Pvss.PinnedLengthIs` | ferveo/src/pvss.rs:302-305 | The length that is compared with the threshold is the one below which the coefficient is nonzero and from which on all are zero. |
| `Pvss.OptimisticIsExact` | ferveo/src/pvss.rs:183-205 | The optimistic check passes exactly for a nonzero constant term of which sigma is the exponent. |
| `Pvss.FirstRejectedDecides` | ferveo/src/pvss.rs:332-355 | The first rejected validator decides the outcome: an identity key and a missing slot are errors that name it, a wrong share is a refusal. |
| `Pvss.RefusedBeforeSlots` | ferveo/src/pvss.rs:270-357 | How full verification refuses, in order: the first repeated index; a number of coefficients other than the threshold; zeros at the top, with the remaining length; then, without an error, no or a zero constant term and no validators; and otherwise it accepts, or some validator is the first rejected one. |
| `Pvss.AggregationVerificationIsExact` | ferveo/src/pvss.rs:359-409 | do_verify_aggregation accepts exactly when in addition there is a transcript, each is valid by itself, and the constant terms add up. It never returns false: every refusal is an error. |
| `Pvss.AggregationRefuses` | ferveo/src/pvss.rs:359-409 | How it refuses: no transcripts; the error of full verification, or its refusal as an error; the first transcript that is not valid by itself, with an error of its own if it has no coefficients; and constant terms that do not add up. |
| `Aggregation.Aggregate` | ferveo/src/pvss.rs:661-709 | Succeeds exactly on nonempty lists of equal shape, with the componentwise sum; otherwise the error names the first mismatch. |
| `Aggregation.AggregationPermutes` | ferveo/src/pvss.rs:661-709 | Any permutation of the transcripts gives the same aggregate. |
| `Aggregation.AggregationKeepsSlot` | ferveo/src/pvss.rs:661-709 | A slot that is valid in every transcript is valid in the aggregate. |
| `Aggregation.AggregationKeepsSigma` | ferveo/src/pvss.rs:661-709 | So is the proof-of-knowledge equation. |
| `Aggregation.AggregateOfVerified` | ferveo/src/pvss.rs:359-409 | An aggregate of verified transcripts is accepted exactly when its first and last coefficients did not cancel. |
| `Aggregation.AggregationIsHomomorphic` | ferveo/src/pvss.rs:661-709 | Aggregating what is dealt from several polynomials is what is dealt from their sum. |
| `Aggregation.DealtSlots` | ferveo/src/pvss.rs:136-156 | Every dealt slot is valid, as long as there are no more coefficients than domain points. |
| `Dkg.NewDkg` | ferveo/src/dkg.rs:104-166 | Returns exactly for a threshold between one and the number of shares, distinct indices in range, nonzero keys, a known dealer with its key, and a number of validators for which there is a domain; then slot i belongs to the validator with index i, and the domain is that one. It panics exactly when parameters, indices and keys are in order but there is no domain. Any error is that of the first failing condition, and names the first offending index or validator. |
| `Dkg.SlotsAreFilled` | ferveo/src/dkg.rs:115-124 | Distinct indices below n are exactly 0 to n - 1. |
| `Dkg.ValidateIsExact` | ferveo/src/dkg.rs:58-69 | The threshold is between one and the number of shares, or the error names both. |
| `Dkg.DomainPointIsExact` | ferveo/src/dkg.rs:199-212 | A slot of a validator has its power of the root as domain point; every other index is an error. |
| `Dkg.SecretPolynomialShape` | ferveo/src/pvss.rs:49-58 | There is a polynomial exactly when some random coefficient is nonzero. It has the secret as constant term and above it the random coefficients up to the last nonzero one; all of them exactly when the top one is nonzero. |
| `Dkg.NewTranscriptIsDealt` | ferveo/src/pvss.rs:114-175 | Dealing returns exactly when some random coefficient is nonzero; then the commitments are to the secret polynomial, sigma to the secret, and shares[i] is the polynomial at the point of slot i times the key of the validator with index i. |
| `Dkg.DealtTranscriptVerifies` | ferveo/src/pvss.rs:114-226 | With a nonzero top coefficient dealing returns. A dealt transcript passes the optimistic check exactly when the secret is nonzero, and full verification exactly when the top coefficient is nonzero too. |
| `Dkg.HonestCeremony` | ferveo/src/dkg.rs:179-197 | For nonzero secrets and top coefficients dealing returns, the transcripts aggregate to the sums of the secrets and of the random coefficients, and the aggregate is accepted exactly when neither the secrets nor the top coefficients add up to zero. |
| `Dkg.VerifyTranscripts` | ferveo/src/dkg.rs:237-269 | Ok exactly when all senders' indices are known, addresses and transcripts are distinct, all pass the optimistic check, and there are at most n messages. Otherwise the error names the first message with an unknown index, a repeated address, a repeated transcript or an invalid transcript, in this order, or else both numbers. |
| `Dkg.AggregateTranscripts` | ferveo/src/dkg.rs:187-197 | Succeeds exactly when moreover all transcripts have one shape, with their sum and its constant term as public key. The errors are those of the messages, then of their number, then of the first mismatch. |
| `EndToEnd.VerifiedSharesCombine` | ferveo/src/pvss.rs:270-357 | For an accepted transcript, threshold or more verified shares of distinct listed validators, whoever made them, combine to U times the committed secret. |
| `EndToEnd.HonestSharesVerify` | ferveo/src/pvss.rs:459-477 | The shares that key holders make from an accepted transcript exist and verify. |
| `EndToEnd.PrecomputedFromIsExact` | ferveo/src/pvss.rs:480-499 | A precomputed share from a transcript needs an existing slot first, and then what the slot's share needs, with these errors. |
| `EndToEnd.DecryptionSucceeds` | ferveo/src/pvss.rs:359-477 | For any aggregate that is accepted and any message encrypted to it with a valid header, the shares of threshold or more listed validators combine to the encryptor's secret, and decryption returns the message. |
| `EndToEnd.SharesOverOtherDomain` | ferveo/src/pvss.rs:270-357 | At threshold 2, verified shares of the slots 0 and 1, combined over a domain with at least two points, give U times the secret exactly when its second point is that of the domain of the verification, so never if the sizes differ. |
| `EndToEnd.PrecomputedSharesCombine` | ferveo/src/pvss.rs:480-499 | The same for precomputed shares, multiplied in any order. |
| `EndToEnd.MissedBy` | ferveo/src/pvss.rs:287-311 | One share short, the combination misses the secret by U times the last coefficient times the product of the negated points. |
| `EndToEnd.ThresholdIsExact` | ferveo/src/pvss.rs:287-311 | For every accepted transcript there is a number m, at most the threshold and at most the size of the domain, such that m or more verified shares combine to U times the secret, and m - 1 never do. It is the threshold exactly when this does not exceed the size of the domain; hence one share below the threshold never yields the secret if and only if the threshold is at most that size. |
| `EndToEnd.AcceptedBeyondDomain` | ferveo/src/pvss.rs:270-357 | A transcript with threshold 2 over a one-point domain is accepted. |
| `Api.InterfaceVerificationIsExact` | ferveo/src/api.rs:272-331 | With |messages| = 2^32 k + r and r below 2^32, the interface accepts exactly when, beyond the core verification over the domain for the given number of validators, r is at most that number, and sigma and the public key match the constant term. It never returns false, and panics exactly if there are messages, r is at most the number, and there is no such domain. |
| `Api.InterfaceRefuses` | ferveo/src/api.rs:272-331 | Every refusal, in order: no messages, more messages than validators (in 32 bits), no domain, an aggregate that is not valid by itself, another public key than its constant term, and the error of the core verification. |
| `Api.MoreMessagesThanValidators` | ferveo/src/api.rs:284-289 | With fewer validators than messages, and fewer than 2^32 messages, the error names both numbers. |
| `Api.VerifiedSharesDecrypt` | ferveo/src/api.rs:272-460 | Shares that the interface verifies, against an aggregate that the interface verifies for a number of validators in the range that the domain of the DKG serves, combine to U times its public key. |
| `Api.DomainsMustAgree` | ferveo/src/api.rs:291-293 | At threshold 2, verified shares of the senders 0 and 1 do so exactly when the number of validators is in that range. |
| `Api.LocatedSharesVerify` | ferveo/src/api.rs:379-401 | Verification through the interface pins the domain point, so combining uses the points of the validators' slots. |
| `Api.ShareCreationIsExact` | ferveo/src/api.rs:359-377 | A share is created exactly for a slot of the aggregate and of the DKG, a nonzero key and a header that passes its check, with the errors in the order of the calls; share and checksum, times the key, are U to the slot and U. |
| `Api.ShareVerificationIsExact` | ferveo/src/api.rs:379-401 | A slot that the aggregate or the DKG lacks is an error; otherwise the verdict is whether the share is at the slot's point, is the pairing of checksum and slot, and its checksum times the key is U. |
| `Api.CreatedShareVerifies` | ferveo/src/api.rs:359-401 | A share created through the interface by one of the senders verifies there. |
| `Api.HonestAggregateVerifies` | ferveo/src/api.rs:272-331 | The aggregate of verified messages is accepted exactly when public key and last coefficient are nonzero. |
| `Api.RitualVerifies` | ferveo/src/api.rs:210-331 | The messages of members that dealt are collected and aggregated to the sum of their secrets, and the interface accepts the aggregate exactly when neither secrets nor top coefficients cancel out. |
| `Api.RitualDecrypts` | ferveo/src/api.rs:655-735 | The whole flow of the interface: messages are collected and aggregated, the aggregate verifies, the shares that any threshold or more of the senders create all verify, and they combine to the secret that decrypts a message encrypted to the public key. |
| `Refresh.Horner` | ferveo/src/refresh.rs:274-282 | The loop over the reversed commitments computes the committed polynomial at the root. |
| `Refresh.UpdateCheckIsExact` | ferveo/src/refresh.rs:193-208 | An update passes exactly when it is its commitment's exponent times the key. |
| `Refresh.VerifyRecovery` | ferveo/src/refresh.rs:238-288 | Accepts exactly when every update is the committed polynomial at its slot, blinded for the slot's key, and the polynomial vanishes at the root; in every order of visiting. It never returns false, fails only with an index beyond the domain, and does so if that is the only fault of the updates. |
| `Refresh.VerifyRefresh` | ferveo/src/refresh.rs:291-301 | The same for the root 0. |
| `Refresh.MakeRandomPolynomialWithRoot` | ferveo/src/refresh.rs:464-485 | Returns exactly when some random coefficient is nonzero; the polynomial vanishes at the root and keeps all random coefficients but the constant one. |
| `Refresh.PreparedUpdatesAreValues` | ferveo/src/refresh.rs:429-461 | The commitments are to the given polynomial, and each participant's update is the polynomial's value at its point times its key. |
| `Refresh.PreparedUpdatesVerify` | ferveo/src/refresh.rs:429-461 | A generated update transcript is accepted for every root and every random polynomial within the domain size. |
| `Refresh.ApplyIsExact` | ferveo/src/refresh.rs:62-100 | Applying any updates to a share returns exactly when each transcript has an update for the slot that is valid for the share's key; the share then gains their sum, and the key stays. |
| `Refresh.RefreshTranscript` | ferveo/src/pvss.rs:502-555 | Returns exactly when there is a domain for the number of shares, and all updates are accepted over it and cover the listed slots; then there is one share for each listed slot, in order, the old one plus the sum of its updates, and commitments and sigma stay. |
| `Refresh.RefreshPermutes` | ferveo/src/pvss.rs:517-521 | The order in which the update transcripts are visited does not matter, for success or for the result. |
| `Refresh.RefreshedSlot` | ferveo/src/pvss.rs:523-554 | A refreshed slot is valid against the old commitments plus all update commitments exactly when the domains of refresh and verification give the updates one value there. |
| `Refresh.RefreshedSlotAgainstOldCoeffs` | ferveo/src/pvss.rs:546-549 | It is valid against the unchanged commitments, over any domain over which it was, exactly when the updates that it received add up to zero. |
| `Refresh.RefreshedAgainstOldCoeffs` | docs/refresh-handover-roadmap.md:49-52 | A refreshed transcript passes full verification, over the domain over which it did before, exactly when the updates of every slot add up to zero. |
| `Refresh.RefreshedVerifiesIfUnchanged` | docs/refresh-handover-roadmap.md:49-52 | With no more update coefficients than slots, exactly when the update polynomials add up to the zero polynomial. |
| `Refresh.RefreshedWithNewCoeffs` | docs/refresh-handover-roadmap.md:49-52 | With the update commitments added to the old ones, as that document presumes, the constant term is unchanged, and the transcript passes exactly when the top coefficient did not cancel and, if verification uses another domain than the refresh, both give the updates one value at every slot. |
| `Sharings.ShareFromIsExact` | ferveo/src/pvss.rs:433-477 | A holder creates a share exactly for an existing slot, a nonzero key and a header that passes its check, with these errors in this order; share times key is U times the slot, and checksum times key is U. |
| `Sharings.SharingCombines` | ferveo-tdec/src/combine.rs:21-59 | Whatever values distinct slots hold, their holders all create shares, and these combine to U times the Lagrange sum of the values at 0. |
| `Sharings.SharingIsExact` | ferveo-tdec/src/combine.rs:21-59 | If distinct slots hold the blinded values of g over the domain used for combining, their holders all create shares, and these combine to U times g(0) exactly when the quotient of g by the product of all x - (point of slot) is zero at 0. |
| `Sharings.SharingReconstructs` | ferveo-tdec/src/combine.rs:21-59 | As they do from as many slots as g has coefficients. |
| `Sharings.SharingOneSlotShort` | ferveo-tdec/src/combine.rs:21-59 | From one slot fewer they do exactly when the leading coefficient is zero. |
| `Refresh.RefreshKeepsSharing` | ferveo/src/pvss.rs:523-554 | A refresh that returns, with updates of any length and any keys, turns a sharing of values on a set of slots into one of these values plus the updates, over the domain constructed for the number of shares, exactly when there is a key for every slot and those of the slots in the set are the holders', or the slot receives zero. |
| `Refresh.RefreshAddsPolynomials` | ferveo/src/pvss.rs:523-554 | Over that domain, a sharing of the polynomial g becomes one of g plus the update polynomials, as the domain sees them, with the same secret. |
| `Refresh.RefreshIsExact` | ferveo/src/refresh.rs:238-288 | Whatever distinct slots share, after accepted updates of any number and length, with the holders' keys, their holders all create shares as before, and what these combine to moves by U times the defect: the Lagrange sum at 0, over the slots' points for combining, of the values of the updates at the slots' points in the domain of the refresh. So it is the same exactly when the defect is zero. |
| `Refresh.DefectOverOneDomain` | ferveo/src/refresh.rs:238-288 | If both domains are one, the defect is zero exactly when the quotient of the sum of the updates by the product of all x - (point of slot) is zero at 0. |
| `Refresh.RefreshPreservesSecret` | ferveo/src/pvss.rs:502-555 | Over the domain of the sharing, updates with no more coefficients than there are slots combined preserve the secret. |
| `Refresh.LongUpdatesRaiseThreshold` | ferveo/src/refresh.rs:246-246 | Updates with one coefficient more do so exactly when these top coefficients add up to zero. |
| `Handover.ValidationIsExact` | ferveo/src/refresh.rs:371-400 | Validation accepts exactly when both commitments have one exponent and that exponent times the double blinded share is the share commitment times the commitment to the share. |
| `Handover.NewHandoverIsExact` | ferveo/src/refresh.rs:339-369 | The transcript doubly blinds the share with the incoming key, and commits to one random exponent in both groups and to that exponent times both keys. |
| `Handover.HonestHandoverValidates` | ferveo/src/refresh.rs:339-400 | A handover transcript made from a share validates exactly when the share is valid for the outgoing key, or the randomness or the incoming key is zero. |
| `Handover.FinalizeIsExact` | ferveo/src/refresh.rs:402-422 | Finalizing a transcript by itself returns exactly when both equations hold and the departing key is nonzero; the new share is for the incoming key and times the departing key it is the double blinded one. |
| `Handover.FinalizedTranscript` | ferveo/src/pvss.rs:558-619 | If it returns, all guards held, and only the one slot changed. |
| `Handover.InstallHandover` | ferveo/src/pvss.rs:558-619 | Returns exactly when there is a domain for the number of shares, the slot exists, the departing validator has the nonzero key that the transcript names, and both equations of the validation hold; then the slot times the departing key is the double blinded share, and nothing else changed. A missing slot and a wrong key are errors, in this order; all other failures are panics. |
| `Handover.OutcomeIsDetermined` | ferveo/src/pvss.rs:558-619 | Only one outcome meets these conditions, that of the function `FinalizeHandover` about which the other results speak. |
| `Handover.InstalledSlot` | ferveo/src/pvss.rs:600-610 | The installed slot is valid for the incoming key exactly when the double blinded share is the committed value times both keys. |
| `Handover.InstalledSlotWithRandomness` | ferveo/src/refresh.rs:371-400 | If the transcript's randomness is not zero, the installed slot is valid exactly when the slot's commitment is the identity or the commitment to the share is the randomness times both keys. |
| `Handover.ReturnedDoesNotMeanValid` | ferveo/src/pvss.rs:604-610 | For every wrong double blinded share, and every randomness (only zero if the slot's commitment is the identity), there is a handover transcript that is finalized although the slot is then not valid. |
| `Handover.HandoverPreservesShare` | ferveo/src/refresh.rs:339-422 | On a valid slot an honest handover is finalized; the incoming key then unblinds to what the departing key did, the slot is valid for it, and all else is unchanged. |
| `Handover.HonestHandoverReturns` | ferveo/src/pvss.rs:558-619 | It is finalized exactly when the slot was valid, or the randomness or incoming key is zero. |
| `Handover.HandoverIsExact` | ferveo/src/pvss.rs:558-619 | A finalized handover of any origin, finalized by whomever, keeps a sharing on a set of slots, with the incoming key in place of the slot's, exactly when its slot is not in the set, or the incoming key is not zero and the double blinded share times the slot's key is the slot's share times incoming and departing key. |
| `Handover.CarriedByHolder` | ferveo/src/pvss.rs:558-619 | If the slot's own holder finalizes it, that is when the double blinded share is the slot's share times a nonzero incoming key. |
| `Handover.HandoverByAnother` | ferveo/src/pvss.rs:573-587 | Any validator can finalize a transcript for any slot that blinds its share with a nonzero incoming key; the sharing is then kept exactly when the validator's key is the slot's, or the slot is empty. |
| `Handover.HonestHandoverCarriesShare` | ferveo/src/refresh.rs:339-369 | What an incoming validator makes from the slot's share for its holder meets this condition exactly when the incoming key is not zero. |
| `ShareMobility.AcceptedIsSharing` | ferveo/src/pvss.rs:270-357 | In an accepted aggregate, holders of the listed validators' keys share the committed polynomial. |
| `ShareMobility.NextIsExact` | ferveo/src/pvss.rs:502-619 | A step returns exactly when the source does: a refresh updates the shares of the listed slots and nothing else, a handover puts the unblinded share in its slot and the incoming key in place of the holder's. |
| `ShareMobility.RunsCompose` | ferveo/src/pvss.rs:502-619 | A run is its steps one after the other, from the empty run, and it is sound exactly when every step that returns is. |
| `ShareMobility.StepIsExact` | ferveo/src/pvss.rs:502-619 | A refresh with any keys, or a handover finalized by whomever, that returns turns a sharing of values on a set of slots into one of these values plus the step's updates exactly when it is sound for these slots: the refresh has a key for every slot, and for these slots the holders' keys or others where nothing is received, and a handover of one of them carries its share. Commitments and sigma stay in any case, and the number of slots if it is sound. |
| `ShareMobility.RunKeepsSharing` | ferveo/src/pvss.rs:502-619 | After any sequence of such sound steps the slots hold the values plus all updates. |
| `ShareMobility.RunPreservesDecryption` | ferveo/src/pvss.rs:502-619 | From an accepted aggregate, after any run that was sound for threshold or more given slots, their current holders all create decryption shares, and these combine to U times the original secret plus U times the defect of all updates together, so to the former exactly when the defect is zero. Verification and combining use one domain, the steps the one that they construct. |
| `ShareMobility.MessageSurvivesRun` | ferveo/src/pvss.rs:502-619 | A message encrypted before such a run is then decrypted with the shares created after it. |
| `ShareMobility.ShortUpdatesPreserveDecryption` | ferveo/src/pvss.rs:502-619 | If the number of shares lies in the range that the domain of the verification serves, and no update has more coefficients than there are slots combined, they combine to U times the original secret. |
| `ShareMobility.OtherDomainMovesSecret` | ferveo/src/pvss.rs:507-512 | If the steps construct a domain of another size, and the updates have at most two coefficients, the shares of the slots 0 and 1 combine to U times the original secret exactly when the updates' top coefficients add up to zero. |
| `ShareMobility.CutTranscriptLosesSecret` | ferveo/src/pvss.rs:507-512 | An instance for all secrets, keys and updates: an aggregate with two shares that verifies over the domain for four validators, and an update that is accepted and moves the secret. |
| `ShareMobility.HandoverAfterRefresh` | ferveo/src/pvss.rs:546-619 | After a refresh, an honest handover of a slot is finalized exactly when the updates of the slot add up to zero or the randomness is zero. |
| `ShareMobility.GeneratedRefreshIsAccepted` | ferveo/src/dkg.rs:271-283 | A refresh transcript generated by a member of the ritual has at most threshold coefficients, and every transcript with a share for each member can be refreshed with it. |

## Left out

- Curve arithmetic, pairings, FFT butterflies and batch multiplication: the mathematical meaning is used in their place.
- Hashing to the curve, SHA-256, the nonce and key derivation and the internals of the AEAD: arbitrary functions, with the one law that opening undoes sealing.
- Serialization, byte lengths and compatibility of formats.
- Zeroization, secret boxes and random number generation: randomness is a parameter.
- Computational hardness: the statements are algebraic.
- Address parsing, display of errors, ordering of keys and names of variants: they do not bear on the protocol.
- The decryption contexts of ferveo-tdec/src/context.rs and the setup code shared by tests: they repeat the modelled paths.
- Precomputed shares through the interface (ferveo/src/api.rs:333-357), the share-creating methods of an updated share (ferveo/src/refresh.rs:102-160) and the generation of handover transcripts by a member (ferveo/src/dkg.rs:285-310): they pass what they are given to modelled operations.
- Integer widths: indices and lengths are unbounded, except the cast of the number of messages to 32 bits in the interface, which is modelled.
- Assertions inside arkworks: asking for the degree of a vector with a zero on top panics there; the model takes the degree without the zeros. `inverse_mod_xl` truncates its iterates (subproductdomain/src/lib.rs:55-58), which can leave such a zero: on 1 - x^2, the reversal of the divisor x^2 - 1, one round gives [1, 0], and the addition of the next round asks for its degree.
- Growth of vectors in place: reversal and padding return the new vector; multipoint evaluation writes into slices of one array, and a handover into a copied one.
- Aggregation.Aggregate: the transcripts' slots are summed by position, as in the source; that positions mean the same validators is not part of its contract.
