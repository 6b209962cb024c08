/** The context of a distributed key generation: admission, dealing, and collecting transcripts. */
module Dkg {
  import opened Wrappers
  import opened PrimeField
  import opened Sums
  import opened Polynomial
  import opened Interpolation
  import opened EvaluationDomain
  import opened Counting
  import opened Groups
  import opened Validators
  import opened Pvss
  import opened VectorSums
  import opened Aggregation

  datatype DkgParams = DkgParams(tau: nat, securityThreshold: nat, sharesNum: nat) {
    function Validate(): Result<()> {
      if sharesNum < securityThreshold || sharesNum == 0 || securityThreshold == 0
      then Err(InvalidDkgParameters(sharesNum, securityThreshold))
      else Ok(())
    }
  }

  /** Between one and all of the shares suffice, and the error names both numbers. */
  lemma ValidateIsExact(params: DkgParams)
    ensures params.Validate() ==
            if 1 <= params.securityThreshold <= params.sharesNum then Ok(())
            else Err(InvalidDkgParameters(params.sharesNum, params.securityThreshold))
  {
  }

  datatype Dkg = Dkg(params: DkgParams, validators: map<nat, Validator>, domain: Domain, me: Validator)

  // ---- Admission ----------------------------------------------------------------------

  /** Slot i belongs to the validator with share index i, for every i below the number of validators. */
  ghost predicate Slotted(dkg: Dkg) {
    && (forall i :: i in dkg.validators <==> 0 <= i < |dkg.validators|)
    && (forall i :: i in dkg.validators ==>
          dkg.validators[i].shareIndex == i && dkg.validators[i].publicKey != 0)
    && ConstructDomain(|dkg.validators|) == Some(dkg.domain)
    && 1 <= dkg.params.securityThreshold <= dkg.params.sharesNum
  }

  ghost predicate Admissible(validators: seq<Validator>) {
    && Distinct(Indices(validators))
    && forall i :: 0 <= i < |validators| ==>
         validators[i].shareIndex < |validators| && validators[i].publicKey != 0
  }

  ghost predicate IsKnown(validators: seq<Validator>, me: Validator) {
    exists i :: 0 <= i < |validators| &&
      validators[i].shareIndex == me.shareIndex && validators[i].publicKey == me.publicKey
  }

  /** Validator i is the first with an index out of range or an identity key. */
  ghost predicate FirstInadmissible(validators: seq<Validator>, i: nat) {
    && i < |validators|
    && (forall j :: 0 <= j < i ==> validators[j].shareIndex < |validators| && validators[j].publicKey != 0)
    && (validators[i].shareIndex >= |validators| || validators[i].publicKey == 0)
  }

  /** The error reports the first condition that fails, in the order in which they are checked. */
  ghost predicate Explains(error: Error, validators: seq<Validator>, params: DkgParams, me: Validator) {
    if !(1 <= params.securityThreshold <= params.sharesNum) then
      error == InvalidDkgParameters(params.sharesNum, params.securityThreshold)
    else if !Distinct(Indices(validators)) then
      exists j: nat :: FirstRepeats(validators, j) && error == DuplicatedShareIndex(validators[j].shareIndex)
    else if !Admissible(validators) then
      exists i: nat :: FirstInadmissible(validators, i) &&
        error == if validators[i].shareIndex >= |validators|
                 then InvalidShareIndex(validators[i].shareIndex)
                 else IdentityValidatorEncryptionKey(validators[i].address)
    else if me.shareIndex in Indices(validators) then
      !IsKnown(validators, me) && error == ValidatorPublicKeyMismatch
    else
      error == DealerNotInValidatorSet(me.address)
  }

  /** It panics if no domain can be constructed for the number of validators. */
  method NewDkg(validators: seq<Validator>, params: DkgParams, me: Validator) returns (r: Outcome<Dkg>)
    ensures r.Returned? <==>
            && 1 <= params.securityThreshold <= params.sharesNum && Admissible(validators) && IsKnown(validators, me)
            && ConstructDomain(|validators|).Some?
    ensures r.Returned? ==>
              && Slotted(r.value) && r.value.params == params && r.value.me == me
              && |r.value.validators| == |validators|
              && forall i :: 0 <= i < |validators| ==> r.value.validators[validators[i].shareIndex] == validators[i]
    ensures r.Panicked? <==>
            && 1 <= params.securityThreshold <= params.sharesNum && Admissible(validators)
            && ConstructDomain(|validators|).None?
    ensures r.Failed? ==> Explains(r.error, validators, params, me)
  {
    var valid := params.Validate();
    if valid.Err? {
      return Failed(valid.error);
    }
    DuplicateFreeIsDistinct(validators);
    var duplicates := AssertNoShareDuplicates(validators);
    if duplicates.Err? {
      return Failed(duplicates.error);
    }
    for i := 0 to |validators|
      invariant forall j :: 0 <= j < i ==>
                  validators[j].shareIndex < |validators| && validators[j].publicKey != 0
    {
      if validators[i].shareIndex >= |validators| {
        assert FirstInadmissible(validators, i);
        return Failed(InvalidShareIndex(validators[i].shareIndex));
      }
      if validators[i].publicKey == 0 {
        assert FirstInadmissible(validators, i);
        return Failed(IdentityValidatorEncryptionKey(validators[i].address));
      }
    }
    var domain := ConstructDomain(|validators|);
    if domain.None? {
      return Panicked;
    }
    var byIndex := ByIndex(validators);
    if me.shareIndex in byIndex {
      assert me.shareIndex in Indices(validators);
      var j := IndexOf(Indices(validators), me.shareIndex);
      if byIndex[me.shareIndex].publicKey != me.publicKey {
        KeyMismatch(validators, me, j);
        return Failed(ValidatorPublicKeyMismatch);
      }
      assert IsKnown(validators, me);
    } else {
      assert me.shareIndex !in Indices(validators);
      assert forall i :: 0 <= i < |validators| ==> Indices(validators)[i] == validators[i].shareIndex;
      return Failed(DealerNotInValidatorSet(me.address));
    }
    SlotsAreFilled(validators, byIndex);
    return Returned(Dkg(params, byIndex, domain.value, me));
  }

  lemma KeyMismatch(validators: seq<Validator>, me: Validator, j: nat)
    requires Distinct(Indices(validators)) && j < |validators|
    requires validators[j].shareIndex == me.shareIndex && validators[j].publicKey != me.publicKey
    ensures !IsKnown(validators, me)
  {
    assert Indices(validators)[j] == me.shareIndex;
    forall i | 0 <= i < |validators| && validators[i].shareIndex == me.shareIndex
      ensures i == j
    {
      assert Indices(validators)[i] == Indices(validators)[j];
    }
  }

  method ByIndex(validators: seq<Validator>) returns (m: map<nat, Validator>)
    requires Distinct(Indices(validators))
    ensures m.Keys == Members(Indices(validators))
    ensures forall i :: 0 <= i < |validators| ==>
              validators[i].shareIndex in m && m[validators[i].shareIndex] == validators[i]
  {
    m := map[];
    for i := 0 to |validators|
      invariant m.Keys == Members(Indices(validators[..i]))
      invariant forall j :: 0 <= j < i ==> validators[j].shareIndex in m && m[validators[j].shareIndex] == validators[j]
    {
      assert Indices(validators[..i + 1]) == Indices(validators[..i]) + [validators[i].shareIndex];
      forall j | 0 <= j < i ensures validators[j].shareIndex != validators[i].shareIndex {
        assert Indices(validators)[j] != Indices(validators)[i];
      }
      m := m[validators[i].shareIndex := validators[i]];
    }
    assert validators[..|validators|] == validators;
  }

  /** Pigeonhole: n distinct indices below n are all of 0..n-1. */
  lemma SlotsAreFilled(validators: seq<Validator>, m: map<nat, Validator>)
    requires Admissible(validators)
    requires m.Keys == Members(Indices(validators))
    requires forall i :: 0 <= i < |validators| ==>
               validators[i].shareIndex in m && m[validators[i].shareIndex] == validators[i]
    ensures |m| == |validators|
    ensures forall i :: i in m <==> 0 <= i < |validators|
    ensures forall i :: i in m ==> m[i].shareIndex == i && m[i].publicKey != 0
  {
    DistinctMembers(Indices(validators));
    assert |m| == |m.Keys|;
    AllIndicesOccur(validators);
    forall i | i in m ensures m[i].shareIndex == i && m[i].publicKey != 0 {
      var j := IndexOf(Indices(validators), i);
      assert validators[j].shareIndex == i;
    }
  }

  lemma AllIndicesOccur(validators: seq<Validator>)
    requires Admissible(validators)
    ensures forall i: nat :: i in Members(Indices(validators)) <==> i < |validators|
  {
    var s: seq<int> := Indices(validators);
    DistinctInRange(s, 0, |validators|);
    IntRangeLaw(0, |validators|);
    forall i: nat ensures i in Members(Indices(validators)) <==> i < |validators| {
      assert i in Indices(validators) <==> (i as int) in Members(s);
    }
  }

  // ---- Domain helpers -----------------------------------------------------------------

  function DomainPoints(dkg: Dkg): seq<Elem> {
    Elements(dkg.domain, |dkg.validators|)
  }

  function GetDomainPoint(dkg: Dkg, index: nat): Result<Elem> {
    if index < |DomainPoints(dkg)| then Ok(DomainPoints(dkg)[index]) else Err(InvalidShareIndex(index))
  }

  function DomainAndKeyMap(dkg: Dkg): map<nat, (Elem, G2)>
    requires Slotted(dkg)
  {
    map i | i in dkg.validators :: (DomainPoints(dkg)[i], dkg.validators[i].publicKey)
  }

  /** The validators in the order of their slots */
  function ValidatorList(dkg: Dkg): seq<Validator>
    requires Slotted(dkg)
  {
    seq(|dkg.validators|, i requires 0 <= i < |dkg.validators| => dkg.validators[i])
  }

  function KeyList(dkg: Dkg): seq<G2>
    requires Slotted(dkg)
  {
    seq(|dkg.validators|, i requires 0 <= i < |dkg.validators| => dkg.validators[i].publicKey)
  }

  lemma ValidatorListDistinct(dkg: Dkg)
    requires Slotted(dkg)
    ensures Distinct(Indices(ValidatorList(dkg)))
  {
    forall i | 0 <= i < |dkg.validators| ensures Indices(ValidatorList(dkg))[i] == i {
      assert i in dkg.validators;
    }
  }

  /** The points are those of the domain, one for each validator; any other index is an error. */
  lemma DomainPointIsExact(dkg: Dkg, index: nat)
    ensures GetDomainPoint(dkg, index) ==
            if index < |dkg.validators| then Ok(Pow(dkg.domain.omega, index)) else Err(InvalidShareIndex(index))
  {
  }

  // ---- Dealing --------------------------------------------------------------------------

  /**
   The secret polynomial: random coefficients, of which zeros at the top are dropped, and
   the secret in place of the constant one.  None if there is no coefficient left.
   */
  function SecretPolynomial(s: Elem, random: seq<Elem>): Option<Vec> {
    var phi := Trim(random);
    if phi == [] then None else Some(phi[0 := s])
  }

  /** The transcript for secret s, one random coefficient per unit of the threshold being drawn */
  function NewTranscript(dkg: Dkg, s: Elem, random: seq<Elem>): Option<Transcript>
    requires Slotted(dkg) && |random| == dkg.params.securityThreshold
  {
    var phi := SecretPolynomial(s, random);
    if phi.None? then None
    else
      var evals := Values(phi.value, DomainPoints(dkg));
      var validators := ValidatorList(dkg);
      Some(Transcript(
        seq(|phi.value|, i requires 0 <= i < |phi.value| => Mul(G, phi.value[i])),
        seq(|validators|, i requires 0 <= i < |validators| =>
              assert i in dkg.validators; Mul(validators[i].publicKey, evals[validators[i].shareIndex])),
        Mul(H, s)))
  }

  /**
   Dealing returns exactly if some random coefficient is not zero.  Then the commitments are
   to the secret polynomial, sigma is to the secret, and shares[i] is the value of the
   polynomial at the i-th point, blinded with the key of the validator with index i.
   */
  lemma NewTranscriptIsDealt(dkg: Dkg, s: Elem, random: seq<Elem>)
    requires Slotted(dkg) && |random| == dkg.params.securityThreshold
    ensures NewTranscript(dkg, s, random).Some? <==> exists i :: 0 <= i < |random| && random[i] != 0
    ensures NewTranscript(dkg, s, random).Some? ==>
              && SecretPolynomial(s, random).Some?
              && NewTranscript(dkg, s, random).value == Dealt(SecretPolynomial(s, random).value, KeyList(dkg), dkg.domain)
    ensures NewTranscript(dkg, s, random).Some? ==>
              var t, phi := NewTranscript(dkg, s, random).value, SecretPolynomial(s, random).value;
              && t.coeffs == phi && t.sigma == s && |t.shares| == |dkg.validators|
              && forall i :: 0 <= i < |dkg.validators| ==>
                   t.shares[i] == Mul(dkg.validators[i].publicKey, Eval(phi, Pow(dkg.domain.omega, i)))
  {
    SecretPolynomialShape(s, random);
    if SecretPolynomial(s, random).Some? {
      var phi := SecretPolynomial(s, random).value;
      var t := NewTranscript(dkg, s, random).value;
      var dealt := Dealt(phi, KeyList(dkg), dkg.domain);
      forall i | 0 <= i < |dkg.validators| ensures t.shares[i] == dealt.shares[i] {
        assert i in dkg.validators;
      }
      assert t.shares == dealt.shares && t.coeffs == dealt.coeffs;
      DealtCoeffs(phi, KeyList(dkg), dkg.domain);
    }
  }

  /** Dropping zeros at the top keeps the length exactly when there are none. */
  lemma {:induction false} TrimKeepsLength(f: Vec)
    ensures |Trim(f)| == |f| <==> IsPoly(f)
  {
    TrimLength(f);
    if IsPoly(f) {
      TrimIsIdentity(f);
    } else {
      CoeffTrim(f, |f| - 1);
    }
  }

  /**
   A dealt transcript passes the optimistic check exactly when the secret is not zero, and
   full verification exactly when in addition the top random coefficient is not zero.
   */
  lemma DealtTranscriptVerifies(dkg: Dkg, s: Elem, random: seq<Elem>)
    requires Slotted(dkg) && |random| == dkg.params.securityThreshold <= dkg.domain.size && dkg.validators != map[]
    ensures random[|random| - 1] != 0 ==> NewTranscript(dkg, s, random).Some?
    ensures NewTranscript(dkg, s, random).Some? ==>
              var t := NewTranscript(dkg, s, random).value;
              && (VerifyOptimistic(t) <==> s != 0)
              && (DoVerifyFull(t.coeffs, t.shares, ValidatorList(dkg), dkg.domain, dkg.params.securityThreshold) == Ok(true)
                  <==> s != 0 && random[|random| - 1] != 0)
  {
    NewTranscriptIsDealt(dkg, s, random);
    if NewTranscript(dkg, s, random).Some? {
      DealtVerifies(dkg, s, random);
    }
  }

  lemma DealtVerifies(dkg: Dkg, s: Elem, random: seq<Elem>)
    requires Slotted(dkg) && |random| == dkg.params.securityThreshold <= dkg.domain.size && dkg.validators != map[]
    requires NewTranscript(dkg, s, random).Some?
    ensures var t := NewTranscript(dkg, s, random).value;
            && (VerifyOptimistic(t) <==> s != 0)
            && (DoVerifyFull(t.coeffs, t.shares, ValidatorList(dkg), dkg.domain, dkg.params.securityThreshold) == Ok(true)
                <==> s != 0 && random[|random| - 1] != 0)
  {
    var phi, validators := SecretPolynomial(s, random).value, ValidatorList(dkg);
    var t := Dealt(phi, KeyList(dkg), dkg.domain);
    assert |validators| == |dkg.validators| != 0;
    hide *;
    SecretPolynomialShape(s, random);
    NewTranscriptIsDealt(dkg, s, random);
    DealtCoeffs(phi, KeyList(dkg), dkg.domain);
    ValidatorListDistinct(dkg);
    DealtSlotsAreValid(dkg, phi);
    VerifiesWithValidSlots(t, validators, dkg.domain, dkg.params.securityThreshold);
    OptimisticIfNonzero(t, s);
  }

  lemma OptimisticIfNonzero(t: Transcript, s: Elem)
    requires t.coeffs != [] && t.coeffs[0] == t.sigma == s
    ensures VerifyOptimistic(t) <==> s != 0
  {
    PairingWithGenerator(s);
  }

  /** If every slot is valid, the number of coefficients and the first and last of them decide. */
  lemma VerifiesWithValidSlots(t: Transcript, validators: seq<Validator>, d: Domain, threshold: nat)
    requires Distinct(Indices(validators)) && validators != [] && threshold > 0
    requires forall i :: 0 <= i < |validators| ==>
               var v := validators[i];
               v.publicKey != 0 && SlotValid(t.coeffs, t.shares, d, v.shareIndex, v.publicKey)
    ensures DoVerifyFull(t.coeffs, t.shares, validators, d, threshold) == Ok(true) <==>
            |t.coeffs| == threshold && t.coeffs[0] != 0 && t.coeffs[threshold - 1] != 0
  {
    FullVerificationIsExact(t.coeffs, t.shares, validators, d, threshold);
    hide SlotValid, DoVerifyFull;
  }

  /** The polynomial exists exactly if some random coefficient is not zero. */
  lemma SecretPolynomialShape(s: Elem, random: seq<Elem>)
    ensures SecretPolynomial(s, random).Some? <==> exists i :: 0 <= i < |random| && random[i] != 0
    ensures SecretPolynomial(s, random).Some? ==>
              var phi := SecretPolynomial(s, random).value;
              && 0 < |phi| <= |random| && phi[0] == s
              && (forall i :: 1 <= i < |phi| ==> phi[i] == random[i])
              && (forall i :: |phi| <= i < |random| ==> random[i] == 0)
              && (|phi| == |random| <==> random[|random| - 1] != 0)
              && (|phi| > 1 ==> phi[|phi| - 1] != 0)
  {
    TrimmedAway(random);
    TrimKeepsLength(random);
    TrimLength(random);
    forall i | 0 <= i < |random| ensures random[i] == if i < |Trim(random)| then Trim(random)[i] else 0 {
      CoeffTrim(random, i);
    }
  }

  lemma DealtSlotsAreValid(dkg: Dkg, phi: Vec)
    requires Slotted(dkg) && 0 < |phi| <= dkg.domain.size
    ensures var t := Dealt(phi, KeyList(dkg), dkg.domain);
            forall i :: 0 <= i < |dkg.validators| ==>
              var v := ValidatorList(dkg)[i];
              v.publicKey != 0 && SlotValid(t.coeffs, t.shares, dkg.domain, v.shareIndex, v.publicKey)
  {
    forall i | 0 <= i < |dkg.validators|
      ensures var t, v := Dealt(phi, KeyList(dkg), dkg.domain), ValidatorList(dkg)[i];
              v.publicKey != 0 && SlotValid(t.coeffs, t.shares, dkg.domain, v.shareIndex, v.publicKey)
    {
      assert i in dkg.validators;
      DealtSlots(phi, KeyList(dkg), dkg.domain, i);
    }
  }

  /** Every dealer draws threshold many coefficients, with secret and top coefficient not zero. */
  ghost predicate DealtProperly(dkg: Dkg, secrets: seq<Elem>, randoms: seq<seq<Elem>>) {
    && Slotted(dkg) && dkg.validators != map[] && dkg.params.securityThreshold <= dkg.domain.size
    && |secrets| == |randoms| > 0
    && forall k :: 0 <= k < |randoms| ==>
         && |randoms[k]| == dkg.params.securityThreshold
         && secrets[k] != 0 && randoms[k][|randoms[k]| - 1] != 0
  }

  function Dealings(dkg: Dkg, secrets: seq<Elem>, randoms: seq<seq<Elem>>): seq<Transcript>
    requires DealtProperly(dkg, secrets, randoms)
  {
    seq(|secrets|, k requires 0 <= k < |secrets| =>
          NewTranscriptIsDealt(dkg, secrets[k], randoms[k]);
          NewTranscript(dkg, secrets[k], randoms[k]).value)
  }

  /** Neither the secrets nor the top coefficients cancel out. */
  ghost predicate NothingCancels(dkg: Dkg, secrets: seq<Elem>, randoms: seq<seq<Elem>>) {
    var t := dkg.params.securityThreshold;
    SumSeq(secrets) != 0 && (t <= 1 || SumSeq(Mapped(CoeffOf(t - 1), randoms)) != 0)
  }

  lemma ProperDealing(dkg: Dkg, secrets: seq<Elem>, randoms: seq<seq<Elem>>, k: nat)
    requires DealtProperly(dkg, secrets, randoms) && k < |secrets|
    ensures var t := Dealings(dkg, secrets, randoms)[k];
            && VerifyOptimistic(t) && |t.shares| == |dkg.validators|
            && AcceptedFull(t.coeffs, t.shares, ValidatorList(dkg), dkg.domain, dkg.params.securityThreshold)
  {
    var t := Dealings(dkg, secrets, randoms)[k];
    DealtTranscriptVerifies(dkg, secrets[k], randoms[k]);
    assert t == NewTranscript(dkg, secrets[k], randoms[k]).value && |t.shares| == |dkg.validators|;
    hide Dealings, NewTranscript, SecretPolynomial, DoVerifyFull, AcceptedFull, VerifyOptimistic;
    FullVerificationIsExact(t.coeffs, t.shares, ValidatorList(dkg), dkg.domain, dkg.params.securityThreshold);
  }

  lemma DealtCoefficients(dkg: Dkg, s: Elem, random: seq<Elem>)
    requires Slotted(dkg) && |random| == dkg.params.securityThreshold
    requires random[|random| - 1] != 0
    ensures NewTranscript(dkg, s, random).Some? && NewTranscript(dkg, s, random).value.coeffs == [s] + random[1..]
  {
    assert random != [];
    hide *;
    WholeSecretPolynomial(s, random);
    NewTranscriptIsDealt(dkg, s, random);
  }

  lemma WholeSecretPolynomial(s: Elem, random: seq<Elem>)
    requires random != [] && random[|random| - 1] != 0
    ensures SecretPolynomial(s, random).Some? && SecretPolynomial(s, random).value == [s] + random[1..]
  {
    SecretPolynomialShape(s, random);
    hide *;
  }

  /**
   An honest ceremony: the dealt transcripts aggregate to the sum of the secrets and of the
   random coefficients, and the aggregate is accepted unless the secrets or the top
   coefficients add up to zero.
   */
  lemma HonestCeremony(dkg: Dkg, secrets: seq<Elem>, randoms: seq<seq<Elem>>)
    requires DealtProperly(dkg, secrets, randoms)
    ensures var ts, t := Dealings(dkg, secrets, randoms), dkg.params.securityThreshold;
            var a := Aggregated(ts);
            && SameShape(ts) && |a.coeffs| == t && a.coeffs[0] == SumSeq(secrets)
            && (forall i :: 1 <= i < t ==> a.coeffs[i] == SumSeq(Mapped(CoeffOf(i), randoms)))
            && (DoVerifyAggregation(a.coeffs, a.shares, ValidatorList(dkg), dkg.domain, ts, t) == Ok(true) <==>
                NothingCancels(dkg, secrets, randoms))
            && (a.coeffs[0] != 0 && a.coeffs[t - 1] != 0 <==> NothingCancels(dkg, secrets, randoms))
  {
    assert Slotted(dkg);
    hide *;
    DealingsVerify(dkg, secrets, randoms);
    CeremonyAggregate(dkg, secrets, randoms);
    VerifiedUnlessCancelled(Dealings(dkg, secrets, randoms), ValidatorList(dkg), dkg.domain, dkg.params.securityThreshold,
                            NothingCancels(dkg, secrets, randoms));
  }

  /** What is known of the aggregate's first and last coefficients decides whether it is accepted. */
  lemma VerifiedUnlessCancelled(ts: seq<Transcript>, validators: seq<Validator>, d: Domain, threshold: nat, nothing: bool)
    requires ts != [] && SameShape(ts) && |Aggregated(ts).coeffs| == threshold > 0
    requires forall k :: 0 <= k < |ts| ==>
               VerifyOptimistic(ts[k]) && AcceptedFull(ts[k].coeffs, ts[k].shares, validators, d, threshold)
    requires Aggregated(ts).coeffs[0] != 0 && Aggregated(ts).coeffs[threshold - 1] != 0 <==> nothing
    ensures DoVerifyAggregation(Aggregated(ts).coeffs, Aggregated(ts).shares, validators, d, ts, threshold) == Ok(true) <==>
            nothing
  {
    hide *;
    AggregateOfVerified(ts, validators, d, threshold);
  }

  lemma DealingsVerify(dkg: Dkg, secrets: seq<Elem>, randoms: seq<seq<Elem>>)
    requires DealtProperly(dkg, secrets, randoms)
    ensures var ts := Dealings(dkg, secrets, randoms);
            && SameShape(ts) && ts != []
            && forall k :: 0 <= k < |ts| ==>
                 && VerifyOptimistic(ts[k])
                 && AcceptedFull(ts[k].coeffs, ts[k].shares, ValidatorList(dkg), dkg.domain, dkg.params.securityThreshold)
  {
    var ts, t := Dealings(dkg, secrets, randoms), dkg.params.securityThreshold;
    assert |ts| == |secrets| > 0;
    forall k | 0 <= k < |ts|
      ensures VerifyOptimistic(ts[k]) && |ts[k].shares| == |dkg.validators| && |ts[k].coeffs| == t
      ensures AcceptedFull(ts[k].coeffs, ts[k].shares, ValidatorList(dkg), dkg.domain, t)
    {
      ProperDealing(dkg, secrets, randoms, k);
    }
    hide AcceptedFull, VerifyOptimistic, Dealings, DealtProperly;
  }

  lemma CeremonyAggregate(dkg: Dkg, secrets: seq<Elem>, randoms: seq<seq<Elem>>)
    requires DealtProperly(dkg, secrets, randoms)
    ensures var ts, t := Dealings(dkg, secrets, randoms), dkg.params.securityThreshold;
            && ts != [] && t > 0
            && var coeffs := Aggregated(ts).coeffs;
               && |coeffs| == t && coeffs[0] == SumSeq(secrets)
               && (forall i :: 1 <= i < t ==> coeffs[i] == SumSeq(Mapped(CoeffOf(i), randoms)))
               && (coeffs[0] != 0 && coeffs[t - 1] != 0 <==> NothingCancels(dkg, secrets, randoms))
  {
    hide *;
    DealingsLength(dkg, secrets, randoms);
    CeremonyCoeffs(dkg, secrets, randoms);
    AggregateOfCoeffs(dkg, secrets, randoms, Dealings(dkg, secrets, randoms));
  }

  lemma AggregateOfCoeffs(dkg: Dkg, secrets: seq<Elem>, randoms: seq<seq<Elem>>, ts: seq<Transcript>)
    requires ts != [] && |ts[0].coeffs| == dkg.params.securityThreshold > 0
    requires Mapped(CoeffAt(0), ts) == secrets
    requires forall i :: 1 <= i < |ts[0].coeffs| ==> Mapped(CoeffAt(i), ts) == Mapped(CoeffOf(i), randoms)
    ensures var coeffs, t := Aggregated(ts).coeffs, dkg.params.securityThreshold;
            && |coeffs| == t && coeffs[0] == SumSeq(secrets)
            && (forall i :: 1 <= i < t ==> coeffs[i] == SumSeq(Mapped(CoeffOf(i), randoms)))
            && (coeffs[0] != 0 && coeffs[t - 1] != 0 <==> NothingCancels(dkg, secrets, randoms))
  {
    hide *;
    AggregatedValues(ts);
    TopCancels(dkg, secrets, randoms, Aggregated(ts).coeffs);
  }

  lemma TopCancels(dkg: Dkg, secrets: seq<Elem>, randoms: seq<seq<Elem>>, coeffs: seq<G1>)
    requires |coeffs| == dkg.params.securityThreshold > 0 && coeffs[0] == SumSeq(secrets)
    requires forall i :: 1 <= i < |coeffs| ==> coeffs[i] == SumSeq(Mapped(CoeffOf(i), randoms))
    ensures coeffs[0] != 0 && coeffs[|coeffs| - 1] != 0 <==> NothingCancels(dkg, secrets, randoms)
  {
  }

  lemma DealingsLength(dkg: Dkg, secrets: seq<Elem>, randoms: seq<seq<Elem>>)
    requires DealtProperly(dkg, secrets, randoms)
    ensures var ts := Dealings(dkg, secrets, randoms); ts != [] && |ts[0].coeffs| == dkg.params.securityThreshold > 0
  {
    DealtCoefficients(dkg, secrets[0], randoms[0]);
  }

  lemma CeremonyCoeffs(dkg: Dkg, secrets: seq<Elem>, randoms: seq<seq<Elem>>)
    requires DealtProperly(dkg, secrets, randoms)
    ensures var ts := Dealings(dkg, secrets, randoms);
            && Mapped(CoeffAt(0), ts) == secrets
            && forall i :: 1 <= i < dkg.params.securityThreshold ==> Mapped(CoeffAt(i), ts) == Mapped(CoeffOf(i), randoms)
  {
    var ts := Dealings(dkg, secrets, randoms);
    forall k | 0 <= k < |ts|
      ensures CoeffAt(0)(ts[k]) == secrets[k]
      ensures forall i :: 1 <= i < dkg.params.securityThreshold ==> CoeffAt(i)(ts[k]) == CoeffOf(i)(randoms[k])
    {
      DealtCoefficients(dkg, secrets[k], randoms[k]);
    }
  }

  // ---- Collecting transcripts ---------------------------------------------------------

  type ValidatorMessage = (Validator, Transcript)

  function Senders(messages: seq<ValidatorMessage>): seq<string> {
    seq(|messages|, i requires 0 <= i < |messages| => messages[i].0.address)
  }

  function Transcripts(messages: seq<ValidatorMessage>): seq<Transcript> {
    seq(|messages|, i requires 0 <= i < |messages| => messages[i].1)
  }

  ghost predicate Acceptable(dkg: Dkg, messages: seq<ValidatorMessage>) {
    && (forall i :: 0 <= i < |messages| ==>
          messages[i].0.shareIndex in dkg.validators && VerifyOptimistic(messages[i].1))
    && Distinct(Senders(messages)) && Distinct(Transcripts(messages))
  }

  /** Why a message is refused, given the senders and transcripts seen before */
  function RefusalOf(dkg: Dkg, message: ValidatorMessage, senders: set<string>, transcripts: set<Transcript>)
    : Option<Error>
  {
    var (sender, transcript) := message;
    if sender.shareIndex !in dkg.validators then Some(UnknownDealer(sender.address))
    else if sender.address in senders then Some(DuplicateDealer(sender.address))
    else if transcript in transcripts then Some(DuplicateTranscript(sender.address))
    else if !VerifyOptimistic(transcript) then Some(InvalidPvssTranscript(sender.address))
    else None
  }

  /** Message i is the first to be refused; the error gives the first reason, in the order of the checks. */
  ghost predicate RefusedAt(dkg: Dkg, messages: seq<ValidatorMessage>, i: nat, error: Error) {
    && i < |messages| && Acceptable(dkg, messages[..i])
    && var (sender, transcript) := messages[i];
       if sender.shareIndex !in dkg.validators then error == UnknownDealer(sender.address)
       else if exists j :: 0 <= j < i && messages[j].0.address == sender.address then error == DuplicateDealer(sender.address)
       else if exists j :: 0 <= j < i && messages[j].1 == transcript then error == DuplicateTranscript(sender.address)
       else !VerifyOptimistic(transcript) && error == InvalidPvssTranscript(sender.address)
  }

  lemma RefusalIsExact(dkg: Dkg, messages: seq<ValidatorMessage>, i: nat, error: Error)
    requires i < |messages| && Acceptable(dkg, messages[..i])
    ensures RefusedAt(dkg, messages, i, error) <==>
            RefusalOf(dkg, messages[i], Members(Senders(messages[..i])), Members(Transcripts(messages[..i]))) == Some(error)
  {
    var p, address, transcript := messages[..i], messages[i].0.address, messages[i].1;
    assert forall j :: 0 <= j < i ==> Senders(p)[j] == messages[j].0.address && Transcripts(p)[j] == messages[j].1;
    assert address in Members(Senders(p)) <==> exists j :: 0 <= j < i && messages[j].0.address == address;
    assert transcript in Members(Transcripts(p)) <==> exists j :: 0 <= j < i && messages[j].1 == transcript;
  }

  lemma SeenStep(messages: seq<ValidatorMessage>, i: nat)
    requires i < |messages|
    ensures Senders(messages[..i + 1]) == Senders(messages[..i]) + [messages[i].0.address]
    ensures Transcripts(messages[..i + 1]) == Transcripts(messages[..i]) + [messages[i].1]
    ensures Members(Senders(messages[..i + 1])) == Members(Senders(messages[..i])) + {messages[i].0.address}
    ensures Members(Transcripts(messages[..i + 1])) == Members(Transcripts(messages[..i])) + {messages[i].1}
  {
    var p, q := messages[..i], messages[..i + 1];
    assert Senders(q) == Senders(p) + [messages[i].0.address];
    assert Transcripts(q) == Transcripts(p) + [messages[i].1];
  }

  lemma AcceptableStep(dkg: Dkg, messages: seq<ValidatorMessage>, i: nat)
    requires i < |messages| && Acceptable(dkg, messages[..i])
    ensures Acceptable(dkg, messages[..i + 1]) <==>
            RefusalOf(dkg, messages[i], Members(Senders(messages[..i])), Members(Transcripts(messages[..i]))).None?
  {
    var p, q := messages[..i], messages[..i + 1];
    SeenStep(messages, i);
    DistinctAppend(Senders(p), messages[i].0.address);
    DistinctAppend(Transcripts(p), messages[i].1);
    assert forall j :: 0 <= j < i ==> q[j] == p[j];
    assert q[i] == messages[i];
  }

  lemma RefusedIsUnacceptable(dkg: Dkg, messages: seq<ValidatorMessage>, i: nat, error: Error)
    requires RefusedAt(dkg, messages, i, error)
    ensures !Acceptable(dkg, messages)
  {
    AcceptableStep(dkg, messages, i);
    RefusalIsExact(dkg, messages, i, error);
    var p := messages[..i + 1];
    assert Senders(p) == Senders(messages)[..i + 1] && Transcripts(p) == Transcripts(messages)[..i + 1];
    assert forall j :: 0 <= j <= i ==> p[j] == messages[j];
  }

  method VerifyTranscripts(dkg: Dkg, messages: seq<ValidatorMessage>) returns (r: Result<()>)
    ensures r.Ok? <==> Acceptable(dkg, messages) && |messages| <= |dkg.validators|
    ensures r.Err? ==>
              if Acceptable(dkg, messages) then r.error == TooManyTranscripts(|dkg.validators|, |messages|)
              else exists i :: RefusedAt(dkg, messages, i, r.error)
  {
    var validatorSet: set<string> := {};
    var transcriptSet: set<Transcript> := {};
    for i := 0 to |messages|
      invariant validatorSet == Members(Senders(messages[..i]))
      invariant transcriptSet == Members(Transcripts(messages[..i]))
      invariant Acceptable(dkg, messages[..i])
    {
      AcceptableStep(dkg, messages, i);
      SeenStep(messages, i);
      var refusal := RefusalOf(dkg, messages[i], validatorSet, transcriptSet);
      if refusal.Some? {
        RefusalIsExact(dkg, messages, i, refusal.value);
        RefusedIsUnacceptable(dkg, messages, i, refusal.value);
        return Err(refusal.value);
      }
      validatorSet := validatorSet + {messages[i].0.address};
      transcriptSet := transcriptSet + {messages[i].1};
    }
    assert messages[..|messages|] == messages;
    DistinctMembers(Senders(messages));
    DistinctMembers(Transcripts(messages));
    if |validatorSet| > |dkg.validators| || |transcriptSet| > |dkg.validators| {
      return Err(TooManyTranscripts(|dkg.validators|, |validatorSet|));
    }
    return Ok(());
  }

  datatype AggregatedTranscript = AggregatedTranscript(aggregate: Transcript, publicKey: G1)

  function FromAggregate(aggregate: Transcript): Result<AggregatedTranscript> {
    if aggregate.coeffs == [] then Err(EmptyTranscript)
    else Ok(AggregatedTranscript(aggregate, aggregate.coeffs[0]))
  }

  method AggregateTranscripts(dkg: Dkg, messages: seq<ValidatorMessage>) returns (r: Result<AggregatedTranscript>)
    ensures r.Ok? <==>
            Acceptable(dkg, messages) && |messages| <= |dkg.validators| && SameShape(Transcripts(messages))
    ensures r.Ok? ==>
              && r.value.aggregate == Aggregated(Transcripts(messages))
              && r.value.aggregate.coeffs != [] && r.value.publicKey == r.value.aggregate.coeffs[0]
    ensures r.Err? ==>
              if !Acceptable(dkg, messages) then exists i :: RefusedAt(dkg, messages, i, r.error)
              else if |messages| > |dkg.validators| then r.error == TooManyTranscripts(|dkg.validators|, |messages|)
              else if messages == [] then r.error == NoTranscriptsToAggregate
              else exists i :: MismatchAt(Transcripts(messages), i, r.error)
  {
    var verified := VerifyTranscripts(dkg, messages);
    if verified.Err? {
      return Err(verified.error);
    }
    var aggregate := Aggregate(Transcripts(messages));
    if aggregate.Err? {
      return Err(aggregate.error);
    }
    assert VerifyOptimistic(messages[0].1);
    return FromAggregate(aggregate.value);
  }
}
