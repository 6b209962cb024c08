/** Publicly verifiable secret sharing: transcripts and the checks on them. */
module Pvss {
  import opened Wrappers
  import opened PrimeField
  import opened Sums
  import opened Polynomial
  import opened Interpolation
  import opened EvaluationDomain
  import opened VectorSums
  import opened Groups
  import opened Validators
  import opened KeyShares

  /** Commitments to the coefficients, one blinded share per slot, and a proof of knowledge */
  datatype Transcript = Transcript(coeffs: seq<G1>, shares: seq<G2>, sigma: G2)

  /** The constant term is not the identity and matches the proof of knowledge. */
  predicate VerifyOptimistic(t: Transcript) {
    t.coeffs != [] && t.coeffs[0] != 0 && Pairing(t.coeffs[0], H) == Pairing(G, t.sigma)
  }

  /** The domain that a transcript's own operations construct, for the number of its shares */
  function SharesDomain(t: Transcript): Option<Domain> {
    ConstructDomain(|t.shares|)
  }

  /** A = FFT(F) */
  function ShareCommitments(coeffs: seq<G1>, d: Domain): seq<G1> {
    Fft(d, coeffs)
  }

  /** e(G, Y_i) == e(A_i, ek_i) */
  function VerifyValidatorShare(commitments: seq<G1>, shares: seq<G2>, index: nat, key: G2): Result<bool> {
    if index >= |shares| then Err(InvalidShareIndex(index))
    else if index >= |commitments| then Err(InvalidShareIndex(index))
    else Ok(Pairing(G, shares[index]) == Pairing(commitments[index], key))
  }

  /** One more than the position of the last coefficient that is not the identity */
  function PinnedLength(coeffs: seq<G1>): nat {
    if coeffs == [] then 0
    else if coeffs[|coeffs| - 1] != 0 then |coeffs|
    else PinnedLength(coeffs[..|coeffs| - 1])
  }

  function VerifySlots(commitments: seq<G1>, shares: seq<G2>, validators: seq<Validator>): Result<bool> {
    if validators == [] then Ok(true)
    else
      var v := validators[0];
      if v.publicKey == 0 then Err(IdentityValidatorEncryptionKey(v.address))
      else
        var valid := VerifyValidatorShare(commitments, shares, v.shareIndex, v.publicKey);
        if valid.Err? then valid
        else if !valid.value then Ok(false)
        else VerifySlots(commitments, shares, validators[1..])
  }

  function DoVerifyFull(coeffs: seq<G1>, shares: seq<G2>, validators: seq<Validator>, d: Domain, threshold: nat)
    : Result<bool>
  {
    var duplicate := DuplicateIndex(validators);
    if duplicate.Some? then Err(DuplicatedShareIndex(duplicate.value))
    else if |coeffs| != threshold then Err(InvalidTranscriptDegree(threshold, |coeffs|))
    else if PinnedLength(coeffs) != threshold then Err(InvalidTranscriptDegree(threshold, PinnedLength(coeffs)))
    else if coeffs == [] || coeffs[0] == 0 then Ok(false)
    else if validators == [] then Ok(false)
    else VerifySlots(ShareCommitments(coeffs, d), shares, validators)
  }

  /** The sum of the constant terms, provided that every transcript is valid by itself */
  function SumOfConstants(acc: G1, pvss: seq<Transcript>): Result<G1>
    decreases |pvss|
  {
    if pvss == [] then Ok(acc)
    else if pvss[0].coeffs == [] then Err(EmptyTranscript)
    else if !VerifyOptimistic(pvss[0]) then Err(InvalidTranscriptAggregate)
    else SumOfConstants(Add(acc, pvss[0].coeffs[0]), pvss[1..])
  }

  function DoVerifyAggregation(coeffs: seq<G1>, shares: seq<G2>, validators: seq<Validator>, d: Domain,
                               pvss: seq<Transcript>, threshold: nat): Result<bool>
  {
    if pvss == [] then Err(NoTranscriptsToVerify)
    else
      var valid := DoVerifyFull(coeffs, shares, validators, d, threshold);
      if valid.Err? then valid
      else if !valid.value then Err(InvalidTranscriptAggregate)
      else
        var y := SumOfConstants(0, pvss);
        if y.Err? then Err(y.error)
        else if coeffs == [] then Err(EmptyTranscript)
        else if y.value == coeffs[0] then Ok(true)
        else Err(InvalidTranscriptAggregate)
  }

  function GetShareForIndexAndPubkey(t: Transcript, index: nat, key: G2): Result<BlindedKeyShare> {
    if index >= |t.shares| then Err(InvalidShareIndex(index))
    else Ok(BlindedKeyShare(key, t.shares[index]))
  }

  // ---- What acceptance means -----------------------------------------------------------

  /** The blinded share of a slot is the committed polynomial at the slot's point, times the key. */
  ghost predicate SlotValid(coeffs: seq<G1>, shares: seq<G2>, d: Domain, index: nat, key: G2) {
    index < |shares| && index < d.size && shares[index] == Mul(ShareCommitments(coeffs, d)[index], key)
  }

  ghost predicate AcceptedFull(coeffs: seq<G1>, shares: seq<G2>, validators: seq<Validator>, d: Domain, threshold: nat) {
    && Distinct(Indices(validators))
    && |coeffs| == threshold && threshold > 0
    && coeffs[0] != 0 && coeffs[threshold - 1] != 0
    && validators != []
    && forall i :: 0 <= i < |validators| ==>
         validators[i].publicKey != 0 &&
         SlotValid(coeffs, shares, d, validators[i].shareIndex, validators[i].publicKey)
  }

  /** The constant term is the exponent of sigma, and not zero. */
  lemma OptimisticIsExact(t: Transcript)
    ensures VerifyOptimistic(t) <==> t.coeffs != [] && t.coeffs[0] != 0 && t.sigma == t.coeffs[0]
  {
    PairingWithGenerator(t.sigma);
    PairingWithGenerator(Coeff(t.coeffs, 0));
  }

  lemma {:induction false} PinnedLengthBound(coeffs: seq<G1>)
    ensures PinnedLength(coeffs) <= |coeffs|
  {
    if coeffs != [] && coeffs[|coeffs| - 1] == 0 {
      PinnedLengthBound(coeffs[..|coeffs| - 1]);
    }
  }

  lemma ShareCheckIsSlotValid(coeffs: seq<G1>, shares: seq<G2>, d: Domain, index: nat, key: G2)
    ensures VerifyValidatorShare(ShareCommitments(coeffs, d), shares, index, key) == Ok(true) <==>
            SlotValid(coeffs, shares, d, index, key)
  {
    if index < |shares| {
      PairingWithGenerator(shares[index]);
    }
  }

  lemma {:induction false} SlotsAreExact(coeffs: seq<G1>, shares: seq<G2>, validators: seq<Validator>, d: Domain)
    ensures VerifySlots(ShareCommitments(coeffs, d), shares, validators) == Ok(true) <==>
            forall i :: 0 <= i < |validators| ==>
              validators[i].publicKey != 0 &&
              SlotValid(coeffs, shares, d, validators[i].shareIndex, validators[i].publicKey)
  {
    if validators != [] {
      var v := validators[0];
      SlotsAreExact(coeffs, shares, validators[1..], d);
      ShareCheckIsSlotValid(coeffs, shares, d, v.shareIndex, v.publicKey);
      assert forall i :: 1 <= i < |validators| ==> validators[i] == validators[1..][i - 1];
    }
  }

  /** do_verify_full accepts exactly the transcripts that satisfy AcceptedFull. */
  lemma FullVerificationIsExact(coeffs: seq<G1>, shares: seq<G2>, validators: seq<Validator>, d: Domain, threshold: nat)
    ensures DoVerifyFull(coeffs, shares, validators, d, threshold) == Ok(true) <==>
            AcceptedFull(coeffs, shares, validators, d, threshold)
  {
    DuplicateFreeIsDistinct(validators);
    SlotsAreExact(coeffs, shares, validators, d);
    if |coeffs| > 0 {
      PinnedLengthBound(coeffs[..|coeffs| - 1]);
    }
  }

  /** What the pinned length is: the coefficient below it is not zero, and all from it on are. */
  lemma {:induction false} PinnedLengthIs(coeffs: seq<G1>, n: nat)
    requires n <= |coeffs|
    ensures PinnedLength(coeffs) == n <==>
            (n > 0 ==> coeffs[n - 1] != 0) && forall i :: n <= i < |coeffs| ==> coeffs[i] == 0
  {
    PinnedLengthBound(coeffs);
    if coeffs != [] && coeffs[|coeffs| - 1] == 0 {
      var rest := coeffs[..|coeffs| - 1];
      PinnedLengthBound(rest);
      if n < |coeffs| {
        PinnedLengthIs(rest, n);
        assert forall i :: 0 <= i < |rest| ==> rest[i] == coeffs[i];
      }
    }
  }

  /** Validator i is the first with an identity key or a slot that is missing or not valid. */
  ghost predicate FirstRejected(coeffs: seq<G1>, shares: seq<G2>, validators: seq<Validator>, d: Domain, i: nat) {
    && i < |validators|
    && (forall j :: 0 <= j < i ==>
          && validators[j].publicKey != 0
          && SlotValid(coeffs, shares, d, validators[j].shareIndex, validators[j].publicKey))
    && (validators[i].publicKey == 0 ||
        !SlotValid(coeffs, shares, d, validators[i].shareIndex, validators[i].publicKey))
  }

  /** The first rejected slot decides: an identity key and a missing slot are errors, a wrong share is not. */
  lemma FirstRejectedDecides(
      coeffs: seq<G1>, shares: seq<G2>, validators: seq<Validator>, d: Domain, threshold: nat, i: nat)
    requires |coeffs| == threshold && threshold > 0 && coeffs[0] != 0 && coeffs[threshold - 1] != 0
    requires Distinct(Indices(validators)) && FirstRejected(coeffs, shares, validators, d, i)
    ensures DoVerifyFull(coeffs, shares, validators, d, threshold) ==
            if validators[i].publicKey == 0 then Err(IdentityValidatorEncryptionKey(validators[i].address))
            else if validators[i].shareIndex >= |shares| || validators[i].shareIndex >= d.size
            then Err(InvalidShareIndex(validators[i].shareIndex))
            else Ok(false)
  {
    DuplicateFreeIsDistinct(validators);
    FirstRejectedSlot(coeffs, shares, validators, d, i);
  }

  lemma {:induction false} FirstRejectedSlot(coeffs: seq<G1>, shares: seq<G2>, validators: seq<Validator>, d: Domain, i: nat)
    requires FirstRejected(coeffs, shares, validators, d, i)
    ensures VerifySlots(ShareCommitments(coeffs, d), shares, validators) ==
            if validators[i].publicKey == 0 then Err(IdentityValidatorEncryptionKey(validators[i].address))
            else if validators[i].shareIndex >= |shares| || validators[i].shareIndex >= d.size
            then Err(InvalidShareIndex(validators[i].shareIndex))
            else Ok(false)
    decreases i
  {
    var v := validators[0];
    ShareCheckIsSlotValid(coeffs, shares, d, v.shareIndex, v.publicKey);
    if i > 0 {
      assert validators[1..][i - 1] == validators[i];
      FirstRejectedSlot(coeffs, shares, validators[1..], d, i - 1);
    }
  }

  /** The number n of coefficients up to the last one that is not zero */
  ghost predicate IsPinnedLength(coeffs: seq<G1>, n: nat) {
    && n <= |coeffs| && (n > 0 ==> coeffs[n - 1] != 0)
    && forall i :: n <= i < |coeffs| ==> coeffs[i] == 0
  }

  /**
   What full verification refuses before it looks at any slot, in this order: repeated
   indices, a number of coefficients other than the threshold, zeros at the top, and then,
   without an error, no coefficients or a zero constant term, and no validators.
   */
  lemma RefusedBeforeSlots(coeffs: seq<G1>, shares: seq<G2>, validators: seq<Validator>, d: Domain, threshold: nat, n: nat)
    requires IsPinnedLength(coeffs, n)
    ensures var r := DoVerifyFull(coeffs, shares, validators, d, threshold);
            if !Distinct(Indices(validators)) then
              exists j: nat :: FirstRepeats(validators, j) && r == Err(DuplicatedShareIndex(validators[j].shareIndex))
            else if |coeffs| != threshold then r == Err(InvalidTranscriptDegree(threshold, |coeffs|))
            else if n != threshold then r == Err(InvalidTranscriptDegree(threshold, n))
            else if threshold == 0 || coeffs[0] == 0 || validators == [] then r == Ok(false)
            else r == Ok(true) || exists i: nat :: FirstRejected(coeffs, shares, validators, d, i)
  {
    DuplicateFreeIsDistinct(validators);
    PinnedLengthIs(coeffs, n);
    SlotsAreExact(coeffs, shares, validators, d);
    FullVerificationIsExact(coeffs, shares, validators, d, threshold);
    if !AcceptedFull(coeffs, shares, validators, d, threshold) {
      SomeRejected(coeffs, shares, validators, d, |validators|);
    }
  }

  /** Among the first n validators all are in order, or there is a first that is rejected. */
  lemma {:induction false} SomeRejected(coeffs: seq<G1>, shares: seq<G2>, validators: seq<Validator>, d: Domain, n: nat)
    requires n <= |validators|
    ensures (forall i :: 0 <= i < n ==>
               && validators[i].publicKey != 0
               && SlotValid(coeffs, shares, d, validators[i].shareIndex, validators[i].publicKey))
            || exists i: nat :: FirstRejected(coeffs, shares, validators, d, i)
  {
    if n > 0 {
      SomeRejected(coeffs, shares, validators, d, n - 1);
      if !exists i: nat :: FirstRejected(coeffs, shares, validators, d, i) {
        assert !FirstRejected(coeffs, shares, validators, d, n - 1);
      }
    }
  }

  function ConstantTerm(t: Transcript): Elem { Coeff(t.coeffs, 0) }

  lemma {:induction false} SumOfConstantsIsExact(acc: G1, pvss: seq<Transcript>)
    ensures SumOfConstants(acc, pvss).Ok? <==> forall i :: 0 <= i < |pvss| ==> VerifyOptimistic(pvss[i])
    ensures SumOfConstants(acc, pvss).Ok? ==>
              SumOfConstants(acc, pvss).value == Add(acc, SumSeq(Mapped(ConstantTerm, pvss)))
    decreases |pvss|
  {
    if pvss == [] {
      AddZero(acc);
    } else if VerifyOptimistic(pvss[0]) {
      var c := pvss[0].coeffs[0];
      SumOfConstantsIsExact(Add(acc, c), pvss[1..]);
      assert forall i :: 1 <= i < |pvss| ==> pvss[i] == pvss[1..][i - 1];
      assert pvss == [pvss[0]] + pvss[1..];
      MappedCons(ConstantTerm, pvss[0], pvss[1..]);
      AddAssoc(acc, c, SumSeq(Mapped(ConstantTerm, pvss[1..])));
    }
  }

  /**
   do_verify_aggregation accepts exactly when the aggregate passes full verification,
   there is a transcript, every transcript is valid by itself, and the constant terms
   add up to that of the aggregate.
   */
  lemma AggregationVerificationIsExact(
      coeffs: seq<G1>, shares: seq<G2>, validators: seq<Validator>, d: Domain, pvss: seq<Transcript>, threshold: nat)
    ensures DoVerifyAggregation(coeffs, shares, validators, d, pvss, threshold) == Ok(true) <==>
            && AcceptedFull(coeffs, shares, validators, d, threshold)
            && pvss != []
            && (forall i :: 0 <= i < |pvss| ==> VerifyOptimistic(pvss[i]))
            && coeffs[0] == SumSeq(Mapped(ConstantTerm, pvss))
    ensures DoVerifyAggregation(coeffs, shares, validators, d, pvss, threshold) != Ok(false)
  {
    FullVerificationIsExact(coeffs, shares, validators, d, threshold);
    SumOfConstantsIsExact(0, pvss);
    AddZero(SumSeq(Mapped(ConstantTerm, pvss)));
  }

  /** Transcript i is the first that is not valid by itself. */
  ghost predicate FirstInvalid(pvss: seq<Transcript>, i: nat) {
    && i < |pvss| && !VerifyOptimistic(pvss[i])
    && forall j :: 0 <= j < i ==> VerifyOptimistic(pvss[j])
  }

  lemma {:induction false} FirstInvalidDecides(acc: G1, pvss: seq<Transcript>, i: nat)
    requires FirstInvalid(pvss, i)
    ensures SumOfConstants(acc, pvss) == Err(if pvss[i].coeffs == [] then EmptyTranscript else InvalidTranscriptAggregate)
    decreases i
  {
    if i > 0 {
      assert pvss[1..][i - 1] == pvss[i];
      assert VerifyOptimistic(pvss[0]);
      assert forall j :: 0 <= j < i - 1 ==> pvss[1..][j] == pvss[j + 1];
      FirstInvalidDecides(Add(acc, pvss[0].coeffs[0]), pvss[1..], i - 1);
    }
  }

  /**
   How aggregate verification refuses: no transcripts; the error of full verification, or its
   refusal turned into one; the first transcript that is not valid by itself; and constant
   terms that do not add up.
   */
  lemma AggregationRefuses(
      coeffs: seq<G1>, shares: seq<G2>, validators: seq<Validator>, d: Domain, pvss: seq<Transcript>, threshold: nat)
    ensures var r := DoVerifyAggregation(coeffs, shares, validators, d, pvss, threshold);
            var full := DoVerifyFull(coeffs, shares, validators, d, threshold);
            && (pvss == [] ==> r == Err(NoTranscriptsToVerify))
            && (pvss != [] && full.Err? ==> r == Err(full.error))
            && (pvss != [] && full == Ok(false) ==> r == Err(InvalidTranscriptAggregate))
            && (full == Ok(true) ==> forall i: nat :: FirstInvalid(pvss, i) ==>
                  r == Err(if pvss[i].coeffs == [] then EmptyTranscript else InvalidTranscriptAggregate))
            && (full == Ok(true) && pvss != [] && (forall i :: 0 <= i < |pvss| ==> VerifyOptimistic(pvss[i])) ==>
                && coeffs != []
                && (coeffs[0] != SumSeq(Mapped(ConstantTerm, pvss)) ==> r == Err(InvalidTranscriptAggregate)))
  {
    FullVerificationIsExact(coeffs, shares, validators, d, threshold);
    SumOfConstantsIsExact(0, pvss);
    AddZero(SumSeq(Mapped(ConstantTerm, pvss)));
    forall i: nat | FirstInvalid(pvss, i)
      ensures SumOfConstants(0, pvss) == Err(if pvss[i].coeffs == [] then EmptyTranscript else InvalidTranscriptAggregate)
    {
      FirstInvalidDecides(0, pvss, i);
    }
    hide DoVerifyFull, VerifyOptimistic, SumOfConstants;
  }
}
