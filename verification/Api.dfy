/** The application interface on top of the core layer. */
module Api {
  import opened Wrappers
  import opened PrimeField
  import opened Sums
  import opened Polynomial
  import opened Interpolation
  import opened EvaluationDomain
  import opened Counting
  import opened Groups
  import opened Combine
  import opened Ciphertext
  import opened DecryptionShares
  import opened Validators
  import opened Pvss
  import opened Aggregation
  import opened Dkg
  import opened EndToEnd
  import opened Sharings

  /** Conversion of a length to a 32-bit unsigned integer */
  function AsU32(n: nat): nat { n % 0x1_0000_0000 }

  function SenderList(messages: seq<ValidatorMessage>): seq<Validator> {
    seq(|messages|, i requires 0 <= i < |messages| => messages[i].0)
  }

  /** Verification of an aggregate on its own, over the domain constructed for the given number of validators */
  function VerifyAggregate(a: AggregatedTranscript, validatorsNum: nat, threshold: nat,
                           messages: seq<ValidatorMessage>): Outcome<bool>
  {
    if messages == [] then Failed(NoTranscriptsToVerify)
    else if validatorsNum < AsU32(|messages|) then
      Failed(InvalidAggregateVerificationParameters(validatorsNum, AsU32(|messages|)))
    else
      var domain := ConstructDomain(validatorsNum);
      if domain.None? then Panicked
      else if !VerifyOptimistic(a.aggregate) then Failed(InvalidTranscriptAggregate)
      else if a.publicKey != a.aggregate.coeffs[0] then Failed(InvalidAggregatePublicKey)
      else OutcomeOf(DoVerifyAggregation(a.aggregate.coeffs, a.aggregate.shares, SenderList(messages), domain.value,
                                         Transcripts(messages), threshold))
  }

  datatype LocatedShare = LocatedShare(share: DecryptionShareSimple, domainPoint: Elem)

  function CreateShareSimple(a: AggregatedTranscript, dkg: Dkg, h: CiphertextHeader, aad: Bytes, decryptionKey: Elem)
    : Result<LocatedShare>
  {
    var share := ShareFrom(a.aggregate, dkg.me.shareIndex, decryptionKey, h, aad);
    if share.Err? then Err(share.error)
    else
      var point := GetDomainPoint(dkg, dkg.me.shareIndex);
      if point.Err? then Err(point.error) else Ok(LocatedShare(share.value, point.value))
  }

  function VerifyShareSimple(a: AggregatedTranscript, dkg: Dkg, s: LocatedShare, index: nat, key: G2, c: Ciphertext)
    : Result<bool>
  {
    var blinded := GetShareForIndexAndPubkey(a.aggregate, index, key);
    if blinded.Err? then Err(blinded.error)
    else
      var expected := GetDomainPoint(dkg, index);
      if expected.Err? then Err(expected.error)
      else Ok(s.domainPoint == expected.value &&
              VerifySimple(s.share, blinded.value.blindedKeyShare, blinded.value.validatorPublicKey, c))
  }

  function CombineSharesSimple(shares: seq<LocatedShare>): Gt {
    ShareCombineSimple(seq(|shares|, i requires 0 <= i < |shares| => shares[i].share.decryptionShare),
                       PrepareCombineSimple(seq(|shares|, i requires 0 <= i < |shares| => shares[i].domainPoint)))
  }

  /** n is r in 32 bits. */
  ghost predicate IsTruncated(n: nat, k: nat, r: nat) {
    n == k * 0x1_0000_0000 + r && r < 0x1_0000_0000
  }

  lemma TruncationIs(n: nat, k: nat, r: nat)
    requires IsTruncated(n, k, r)
    ensures AsU32(n) == r
  {
  }

  /** What the interface accepts, beyond what the core verification does; r is the number of messages in 32 bits. */
  lemma InterfaceVerificationIsExact(a: AggregatedTranscript, validatorsNum: nat, threshold: nat,
                                     messages: seq<ValidatorMessage>, k: nat, r: nat)
    requires IsTruncated(|messages|, k, r)
    ensures VerifyAggregate(a, validatorsNum, threshold, messages) == Returned(true) <==>
            && messages != [] && r <= validatorsNum && ConstructDomain(validatorsNum).Some?
            && AcceptedFull(a.aggregate.coeffs, a.aggregate.shares, SenderList(messages),
                            ConstructDomain(validatorsNum).value, threshold)
            && (forall i :: 0 <= i < |messages| ==> VerifyOptimistic(messages[i].1))
            && a.aggregate.coeffs[0] == SumSeq(Mapped(ConstantTerm, Transcripts(messages)))
            && a.publicKey == a.aggregate.coeffs[0] == a.aggregate.sigma
    ensures VerifyAggregate(a, validatorsNum, threshold, messages) != Returned(false)
    ensures VerifyAggregate(a, validatorsNum, threshold, messages).Panicked? <==>
            messages != [] && r <= validatorsNum && ConstructDomain(validatorsNum).None?
  {
    var t := a.aggregate;
    TruncationIs(|messages|, k, r);
    if ConstructDomain(validatorsNum).Some? {
      AggregationVerificationIsExact(t.coeffs, t.shares, SenderList(messages), ConstructDomain(validatorsNum).value,
                                     Transcripts(messages), threshold);
    }
    PairingWithGenerator(t.sigma);
    PairingWithGenerator(Coeff(t.coeffs, 0));
    assert forall i :: 0 <= i < |messages| ==> Transcripts(messages)[i] == messages[i].1;
  }

  /**
   How the interface refuses: no messages; more messages, as far as 32 bits tell, than
   validators; an aggregate that is not valid by itself; another public key than its constant
   term; and then what aggregate verification refuses, with the same error.
   */
  lemma InterfaceRefuses(a: AggregatedTranscript, validatorsNum: nat, threshold: nat,
                         messages: seq<ValidatorMessage>, k: nat, r: nat)
    requires IsTruncated(|messages|, k, r)
    ensures var o, t := VerifyAggregate(a, validatorsNum, threshold, messages), a.aggregate;
            if messages == [] then o == Failed(NoTranscriptsToVerify)
            else if validatorsNum < r then o == Failed(InvalidAggregateVerificationParameters(validatorsNum, r))
            else if ConstructDomain(validatorsNum).None? then o == Panicked
            else if t.coeffs == [] || t.coeffs[0] == 0 || t.sigma != t.coeffs[0] then o == Failed(InvalidTranscriptAggregate)
            else if a.publicKey != t.coeffs[0] then o == Failed(InvalidAggregatePublicKey)
            else
              var core := DoVerifyAggregation(t.coeffs, t.shares, SenderList(messages), ConstructDomain(validatorsNum).value,
                                              Transcripts(messages), threshold);
              if core.Err? then o == Failed(core.error) else core == Ok(true) && o == Returned(true)
  {
    TruncationIs(|messages|, k, r);
    OptimisticIsExact(a.aggregate);
    if ConstructDomain(validatorsNum).Some? {
      AggregationVerificationIsExact(a.aggregate.coeffs, a.aggregate.shares, SenderList(messages),
                                     ConstructDomain(validatorsNum).value, Transcripts(messages), threshold);
    }
    hide DoVerifyAggregation, VerifyOptimistic;
  }

  /** With fewer validators than messages, verification fails, and the error names both numbers. */
  lemma MoreMessagesThanValidators(a: AggregatedTranscript, validatorsNum: nat, threshold: nat, messages: seq<ValidatorMessage>)
    requires validatorsNum < |messages| < 0x1_0000_0000
    ensures VerifyAggregate(a, validatorsNum, threshold, messages) ==
            Failed(InvalidAggregateVerificationParameters(validatorsNum, |messages|))
  {
    TruncationIs(|messages|, 0, |messages|);
  }

  /** A verified aggregate passes full verification over the constructed domain, with the public key as secret. */
  lemma VerifiedIsAccepted(a: AggregatedTranscript, validatorsNum: nat, threshold: nat, messages: seq<ValidatorMessage>)
    requires VerifyAggregate(a, validatorsNum, threshold, messages) == Returned(true)
    ensures ConstructDomain(validatorsNum).Some?
    ensures AcceptedFull(a.aggregate.coeffs, a.aggregate.shares, SenderList(messages),
                         ConstructDomain(validatorsNum).value, threshold)
    ensures a.aggregate.coeffs != [] && a.publicKey == a.aggregate.coeffs[0]
  {
    InterfaceVerificationIsExact(a, validatorsNum, threshold, messages, |messages| / 0x1_0000_0000, |messages| % 0x1_0000_0000);
  }

  /**
   The interface creates a share exactly for the holder of a slot of the aggregate and of the
   DKG, with a nonzero key and for a header that passes its check.  The errors are reported in
   this order, but for a slot that only the DKG lacks, which comes last.
   */
  lemma ShareCreationIsExact(a: AggregatedTranscript, dkg: Dkg, h: CiphertextHeader, aad: Bytes, decryptionKey: Elem)
    ensures var s, i := CreateShareSimple(a, dkg, h, aad, decryptionKey), dkg.me.shareIndex;
            if i >= |a.aggregate.shares| then s == Err(InvalidShareIndex(i))
            else if decryptionKey == 0 then s == Err(InvalidValidatorDecryptionKey)
            else if Check(h, aad) != Ok(true) then s == Err(CiphertextVerificationFailed)
            else if i >= |dkg.validators| then s == Err(InvalidShareIndex(i))
            else
              && s.Ok? && s.value.domainPoint == Pow(dkg.domain.omega, i)
              && Mul(s.value.share.decryptionShare, decryptionKey) == Mul(h.commitment, a.aggregate.shares[i])
              && Mul(s.value.share.checksum, decryptionKey) == h.commitment
  {
    ShareFromIsExact(a.aggregate, dkg.me.shareIndex, decryptionKey, h, aad);
    DomainPointIsExact(dkg, dkg.me.shareIndex);
    hide ShareFrom, Check, GetDomainPoint;
  }

  /**
   The interface's verifier has an error for a slot that the aggregate or the DKG lacks, and
   otherwise says whether the share is at the slot's point, and is the checksum times the slot,
   with a checksum that the key takes to U.
   */
  lemma ShareVerificationIsExact(a: AggregatedTranscript, dkg: Dkg, s: LocatedShare, index: nat, key: G2, c: Ciphertext)
    ensures VerifyShareSimple(a, dkg, s, index, key, c) ==
            if index >= |a.aggregate.shares| || index >= |dkg.validators| then Err(InvalidShareIndex(index))
            else Ok(&& s.domainPoint == Pow(dkg.domain.omega, index)
                    && s.share.decryptionShare == Mul(s.share.checksum, a.aggregate.shares[index])
                    && Mul(s.share.checksum, key) == c.commitment)
  {
    if index < |a.aggregate.shares| {
      VerifiersAreExact(s.share.decryptionShare, s.share.checksum, index, a.aggregate.shares[index], key, c);
    }
  }

  /**
   The number of validators that the aggregate is verified for lies in the range that the
   DKG's domain serves: this is when both construct the same domain.
   */
  predicate ServedBy(dkg: Dkg, validatorsNum: nat) {
    validatorsNum <= dkg.domain.size && (dkg.domain.size == 1 || dkg.domain.size < 2 * validatorsNum)
  }

  /**
   Shares of any origin that the interface verifies for distinct senders of a verified
   aggregate, threshold many or more, combine to U times the public key.
   */
  lemma VerifiedSharesDecrypt(
      a: AggregatedTranscript, dkg: Dkg, validatorsNum: nat, threshold: nat, messages: seq<ValidatorMessage>,
      chosen: seq<Validator>, shares: seq<LocatedShare>, c: Ciphertext)
    requires ConstructDomain(|dkg.validators|) == Some(dkg.domain) && ServedBy(dkg, validatorsNum)
    requires VerifyAggregate(a, validatorsNum, threshold, messages) == Returned(true)
    requires Selected(chosen, SenderList(messages)) && |chosen| == |shares| >= threshold
    requires forall i :: 0 <= i < |chosen| ==>
               VerifyShareSimple(a, dkg, shares[i], chosen[i].shareIndex, chosen[i].publicKey, c) == Ok(true)
    ensures CombineSharesSimple(shares) == Mul(c.commitment, a.publicKey)
  {
    ServedByIs(dkg, validatorsNum);
    VerifiedIsAccepted(a, validatorsNum, threshold, messages);
    LocatedSharesVerify(a, dkg, chosen, shares, c);
    hide *;
    VerifiedSharesCombine(Unlocated(shares), chosen, SenderList(messages), a.aggregate, dkg.domain, threshold, c);
  }

  /**
   Nothing relates the two numbers.  At threshold 2, verified shares of the senders with
   indices 0 and 1 combine to U times the public key exactly if both construct the same domain.
   */
  lemma DomainsMustAgree(
      a: AggregatedTranscript, dkg: Dkg, validatorsNum: nat, messages: seq<ValidatorMessage>,
      v: Validator, w: Validator, shares: seq<LocatedShare>, c: Ciphertext)
    requires ConstructDomain(|dkg.validators|) == Some(dkg.domain) && c.commitment != 0
    requires VerifyAggregate(a, validatorsNum, 2, messages) == Returned(true)
    requires v in SenderList(messages) && w in SenderList(messages) && v.shareIndex == 0 && w.shareIndex == 1
    requires |shares| == 2
    requires VerifyShareSimple(a, dkg, shares[0], 0, v.publicKey, c) == Ok(true)
    requires VerifyShareSimple(a, dkg, shares[1], 1, w.publicKey, c) == Ok(true)
    ensures CombineSharesSimple(shares) == Mul(c.commitment, a.publicKey) <==> ServedBy(dkg, validatorsNum)
  {
    hide *;
    VerifiedIsAccepted(a, validatorsNum, 2, messages);
    var chosen, d := [v, w], ConstructDomain(validatorsNum).value;
    PairIsSelected(v, w, SenderList(messages));
    SecondPointExists(a, dkg, shares[1], w, c);
    LocatedSharesVerify(a, dkg, chosen, shares, c);
    SharesOverOtherDomain(Unlocated(shares), chosen, SenderList(messages), a.aggregate, d, dkg.domain, c);
    ServedByIs(dkg, validatorsNum);
    DomainsOfOneSize(validatorsNum, |dkg.validators|);
  }

  lemma PairIsSelected(v: Validator, w: Validator, validators: seq<Validator>)
    requires v in validators && w in validators && v.shareIndex == 0 && w.shareIndex == 1
    ensures Selected([v, w], validators) && Indices([v, w]) == [0, 1]
  {
    assert Indices([v, w]) == [0, 1];
  }

  lemma SecondPointExists(a: AggregatedTranscript, dkg: Dkg, s: LocatedShare, w: Validator, c: Ciphertext)
    requires ConstructDomain(|dkg.validators|) == Some(dkg.domain)
    requires VerifyShareSimple(a, dkg, s, 1, w.publicKey, c) == Ok(true)
    ensures dkg.domain.size >= 2
  {
  }

  lemma ServedByIs(dkg: Dkg, validatorsNum: nat)
    requires ConstructDomain(|dkg.validators|) == Some(dkg.domain)
    ensures ServedBy(dkg, validatorsNum) <==> ConstructDomain(validatorsNum) == Some(dkg.domain)
  {
    SameDomain(|dkg.validators|, validatorsNum);
  }

  lemma DomainsOfOneSize(m: nat, n: nat)
    requires ConstructDomain(m).Some? && ConstructDomain(n).Some?
    ensures ConstructDomain(m).value.size == ConstructDomain(n).value.size ==> ConstructDomain(m) == ConstructDomain(n)
  {
    SameDomain(m, n);
  }

  function Unlocated(shares: seq<LocatedShare>): seq<DecryptionShareSimple> {
    seq(|shares|, i requires 0 <= i < |shares| => shares[i].share)
  }

  /** Verification through the interface pins each share's domain point and is the core verification. */
  lemma LocatedSharesVerify(a: AggregatedTranscript, dkg: Dkg, chosen: seq<Validator>, shares: seq<LocatedShare>,
                            c: Ciphertext)
    requires |chosen| == |shares|
    requires forall i :: 0 <= i < |chosen| ==>
               VerifyShareSimple(a, dkg, shares[i], chosen[i].shareIndex, chosen[i].publicKey, c) == Ok(true)
    ensures AllVerify(Unlocated(shares), chosen, a.aggregate, c)
    ensures CombineSharesSimple(shares) == Combined(Unlocated(shares), chosen, dkg.domain)
  {
    assert ShareValues(Unlocated(shares)) == seq(|shares|, i requires 0 <= i < |shares| => shares[i].share.decryptionShare);
    assert PointsOf(chosen, dkg.domain) == seq(|shares|, i requires 0 <= i < |shares| => shares[i].domainPoint);
  }

  /**
   The share that a validator creates through the interface passes verification there, for
   a verified aggregate among whose senders the validator is.
   */
  lemma CreatedShareVerifies(
      a: AggregatedTranscript, dkg: Dkg, validatorsNum: nat, threshold: nat, messages: seq<ValidatorMessage>,
      c: Ciphertext, aad: Bytes, decryptionKey: Elem)
    requires VerifyAggregate(a, validatorsNum, threshold, messages) == Returned(true)
    requires dkg.me in SenderList(messages) && dkg.me.publicKey == PublicKeyOf(decryptionKey)
    requires dkg.me.shareIndex < |dkg.validators|
    requires Check(c.Header(), aad) == Ok(true)
    ensures var s := CreateShareSimple(a, dkg, c.Header(), aad, decryptionKey);
            s.Ok? && VerifyShareSimple(a, dkg, s.value, dkg.me.shareIndex, dkg.me.publicKey, c) == Ok(true)
  {
    VerifiedIsAccepted(a, validatorsNum, threshold, messages);
    HonestSharesVerify([dkg.me], [decryptionKey], SenderList(messages), a.aggregate, ConstructDomain(validatorsNum).value,
                       threshold, c, aad);
    assert [dkg.me][0].shareIndex == dkg.me.shareIndex;
  }

  /** An aggregate built from verified messages is accepted unless a coefficient cancelled out. */
  lemma HonestAggregateVerifies(
      a: AggregatedTranscript, validatorsNum: nat, threshold: nat, messages: seq<ValidatorMessage>, d: Domain)
    requires SameShape(Transcripts(messages)) && a.aggregate == Aggregated(Transcripts(messages))
    requires FromAggregate(a.aggregate) == Ok(a)
    requires |messages| <= validatorsNum && ConstructDomain(validatorsNum) == Some(d)
    requires forall k :: 0 <= k < |messages| ==>
               && VerifyOptimistic(messages[k].1)
               && AcceptedFull(messages[k].1.coeffs, messages[k].1.shares, SenderList(messages), d, threshold)
    ensures VerifyAggregate(a, validatorsNum, threshold, messages) == Returned(true) <==>
            a.publicKey != 0 && a.aggregate.coeffs[|a.aggregate.coeffs| - 1] != 0
  {
    hide AcceptedFull, VerifyOptimistic, DoVerifyAggregation;
    AggregateOfVerified(Transcripts(messages), SenderList(messages), d, threshold);
    hide Aggregated;
    assert a.publicKey == a.aggregate.coeffs[0] && AsU32(|messages|) <= |messages|;
  }

  // ---- A whole ritual -----------------------------------------------------------------------

  /** Distinct members send what they dealt, all different. */
  ghost predicate IsRitual(dkg: Dkg, messages: seq<ValidatorMessage>, secrets: seq<Elem>, randoms: seq<seq<Elem>>) {
    && DealtProperly(dkg, secrets, randoms) && Transcripts(messages) == Dealings(dkg, secrets, randoms)
    && (forall k :: 0 <= k < |messages| ==> messages[k].0 in ValidatorList(dkg))
    && Distinct(Indices(SenderList(messages))) && Distinct(Senders(messages)) && Distinct(Transcripts(messages))
  }

  lemma MembersInRange(dkg: Dkg, v: Validator)
    requires Slotted(dkg) && v in ValidatorList(dkg)
    ensures v.shareIndex in dkg.validators && v.shareIndex < |dkg.validators| && dkg.validators[v.shareIndex] == v
  {
    var i :| 0 <= i < |ValidatorList(dkg)| && ValidatorList(dkg)[i] == v;
    assert i in dkg.validators;
  }

  /** What verifies for a list of validators verifies for any part of it. */
  lemma AcceptedForSome(t: Transcript, all: seq<Validator>, some: seq<Validator>, d: Domain, threshold: nat)
    requires AcceptedFull(t.coeffs, t.shares, all, d, threshold)
    requires some != [] && Distinct(Indices(some)) && forall i :: 0 <= i < |some| ==> some[i] in all
    ensures AcceptedFull(t.coeffs, t.shares, some, d, threshold)
  {
  }

  lemma RitualIsCollected(dkg: Dkg, messages: seq<ValidatorMessage>, secrets: seq<Elem>, randoms: seq<seq<Elem>>)
    requires IsRitual(dkg, messages, secrets, randoms)
    ensures |messages| == |secrets| && |messages| <= |dkg.validators| && Acceptable(dkg, messages)
    ensures ConstructDomain(|dkg.validators|) == Some(dkg.domain) && ServedBy(dkg, |dkg.validators|)
    ensures forall k :: 0 <= k < |messages| ==>
              && VerifyOptimistic(messages[k].1)
              && AcceptedFull(messages[k].1.coeffs, messages[k].1.shares, SenderList(messages), dkg.domain,
                              dkg.params.securityThreshold)
  {
    var indices: seq<int> := Indices(SenderList(messages));
    assert |messages| == |Transcripts(messages)| == |secrets|;
    forall k | 0 <= k < |messages|
      ensures messages[k].0.shareIndex in dkg.validators && VerifyOptimistic(messages[k].1)
      ensures 0 <= indices[k] < |dkg.validators|
      ensures AcceptedFull(messages[k].1.coeffs, messages[k].1.shares, SenderList(messages), dkg.domain,
                           dkg.params.securityThreshold)
    {
      var t := Transcripts(messages)[k];
      MembersInRange(dkg, messages[k].0);
      ProperDealing(dkg, secrets, randoms, k);
      hide AcceptedFull, VerifyOptimistic, Dealings, DealtProperly, ValidatorList;
      AcceptedForSome(t, ValidatorList(dkg), SenderList(messages), dkg.domain, dkg.params.securityThreshold);
    }
    DistinctInRange(indices, 0, |dkg.validators|);
  }

  /** The messages of a ritual are accepted and aggregated, and the aggregate verifies unless something cancels. */
  lemma RitualVerifies(dkg: Dkg, messages: seq<ValidatorMessage>, secrets: seq<Elem>, randoms: seq<seq<Elem>>)
    requires IsRitual(dkg, messages, secrets, randoms)
    ensures Acceptable(dkg, messages) && |messages| <= |dkg.validators| && SameShape(Transcripts(messages))
    ensures var a := FromAggregate(Aggregated(Transcripts(messages)));
            && a.Ok? && a.value.publicKey == SumSeq(secrets)
            && (VerifyAggregate(a.value, |dkg.validators|, dkg.params.securityThreshold, messages) == Returned(true) <==>
                NothingCancels(dkg, secrets, randoms))
  {
    hide *;
    RitualIsCollected(dkg, messages, secrets, randoms);
    RitualAggregate(dkg, messages, secrets, randoms);
    var t := Aggregated(Transcripts(messages));
    FromAggregateIs(t);
    HonestAggregateVerifies(FromAggregate(t).value, |dkg.validators|, dkg.params.securityThreshold, messages, dkg.domain);
  }

  lemma FromAggregateIs(t: Transcript)
    ensures FromAggregate(t) ==
            if t.coeffs == [] then Err(EmptyTranscript) else Ok(AggregatedTranscript(t, t.coeffs[0]))
  {
  }

  lemma RitualAggregate(dkg: Dkg, messages: seq<ValidatorMessage>, secrets: seq<Elem>, randoms: seq<seq<Elem>>)
    requires IsRitual(dkg, messages, secrets, randoms)
    ensures SameShape(Transcripts(messages)) && Transcripts(messages) != []
    ensures var coeffs := Aggregated(Transcripts(messages)).coeffs;
            && coeffs != [] && coeffs[0] == SumSeq(secrets)
            && (coeffs[0] != 0 && coeffs[|coeffs| - 1] != 0 <==> NothingCancels(dkg, secrets, randoms))
  {
    assert DealtProperly(dkg, secrets, randoms) && Transcripts(messages) == Dealings(dkg, secrets, randoms);
    hide *;
    DealingsVerify(dkg, secrets, randoms);
    CeremonyAggregate(dkg, secrets, randoms);
  }

  /** The share that a member creates in its own context of the ritual */
  function ShareOf(a: AggregatedTranscript, dkg: Dkg, member: Validator, key: Elem, h: CiphertextHeader, aad: Bytes)
    : Result<LocatedShare>
  {
    CreateShareSimple(a, dkg.(me := member), h, aad, key)
  }

  function SharesOf(a: AggregatedTranscript, dkg: Dkg, chosen: seq<Validator>, keys: seq<Elem>,
                    h: CiphertextHeader, aad: Bytes): seq<LocatedShare>
    requires |keys| == |chosen|
    requires forall i :: 0 <= i < |chosen| ==> ShareOf(a, dkg, chosen[i], keys[i], h, aad).Ok?
  {
    seq(|chosen|, i requires 0 <= i < |chosen| => ShareOf(a, dkg, chosen[i], keys[i], h, aad).value)
  }

  /**
   A whole ritual through the interface: members deal and send their transcripts, which are
   collected and aggregated; the aggregate verifies; a message is encrypted to its public
   key; and the shares that any threshold or more of the senders create all verify, and
   combine to the secret that decrypts the message.
   */
  lemma RitualDecrypts(
      dkg: Dkg, messages: seq<ValidatorMessage>, secrets: seq<Elem>, randoms: seq<seq<Elem>>,
      chosen: seq<Validator>, keys: seq<Elem>, message: Bytes, aad: Bytes, random: Elem, c: Ciphertext)
    requires IsRitual(dkg, messages, secrets, randoms) && NothingCancels(dkg, secrets, randoms)
    requires Selected(chosen, SenderList(messages)) && HoldsKeys(keys, chosen)
    requires |chosen| >= dkg.params.securityThreshold
    requires Encrypt(message, aad, SumSeq(secrets), random) == Ok(c) && Check(c.Header(), aad) == Ok(true)
    ensures Acceptable(dkg, messages) && |messages| <= |dkg.validators| && SameShape(Transcripts(messages))
    ensures var a := FromAggregate(Aggregated(Transcripts(messages)));
            && a.Ok? && a.value.publicKey == SumSeq(secrets)
            && VerifyAggregate(a.value, |dkg.validators|, dkg.params.securityThreshold, messages) == Returned(true)
            && (forall i :: 0 <= i < |chosen| ==>
                  var s := ShareOf(a.value, dkg, chosen[i], keys[i], c.Header(), aad);
                  s.Ok? && VerifyShareSimple(a.value, dkg, s.value, chosen[i].shareIndex, chosen[i].publicKey, c) == Ok(true))
            && DecryptWithSharedSecret(c, aad, CombineSharesSimple(SharesOf(a.value, dkg, chosen, keys, c.Header(), aad))) == Ok(message)
  {
    RitualVerifies(dkg, messages, secrets, randoms);
    var a := FromAggregate(Aggregated(Transcripts(messages))).value;
    hide *;
    EncryptionShape(message, aad, SumSeq(secrets), random);
    DecryptionUndoesEncryption(message, aad, SumSeq(secrets), random);
    RitualShares(a, dkg, messages, secrets, randoms, chosen, keys, c, aad);
    var shares := SharesOf(a, dkg, chosen, keys, c.Header(), aad);
    SharesOfLength(a, dkg, chosen, keys, c.Header(), aad);
    VerifiedSharesDecrypt(a, dkg, |dkg.validators|, dkg.params.securityThreshold, messages, chosen, shares, c);
  }

  lemma SharesOfLength(a: AggregatedTranscript, dkg: Dkg, chosen: seq<Validator>, keys: seq<Elem>,
                       h: CiphertextHeader, aad: Bytes)
    requires |keys| == |chosen|
    requires forall i :: 0 <= i < |chosen| ==> ShareOf(a, dkg, chosen[i], keys[i], h, aad).Ok?
    ensures |SharesOf(a, dkg, chosen, keys, h, aad)| == |chosen|
    ensures forall i :: 0 <= i < |chosen| ==>
              SharesOf(a, dkg, chosen, keys, h, aad)[i] == ShareOf(a, dkg, chosen[i], keys[i], h, aad).value
  {
  }

  lemma RitualShares(a: AggregatedTranscript, dkg: Dkg, messages: seq<ValidatorMessage>,
                     secrets: seq<Elem>, randoms: seq<seq<Elem>>,
                     chosen: seq<Validator>, keys: seq<Elem>, c: Ciphertext, aad: Bytes)
    requires IsRitual(dkg, messages, secrets, randoms)
    requires VerifyAggregate(a, |dkg.validators|, dkg.params.securityThreshold, messages) == Returned(true)
    requires Selected(chosen, SenderList(messages)) && HoldsKeys(keys, chosen) && Check(c.Header(), aad) == Ok(true)
    ensures |keys| == |chosen|
    ensures forall i :: 0 <= i < |chosen| ==>
              var s := ShareOf(a, dkg, chosen[i], keys[i], c.Header(), aad);
              s.Ok? && VerifyShareSimple(a, dkg, s.value, chosen[i].shareIndex, chosen[i].publicKey, c) == Ok(true)
  {
    forall i | 0 <= i < |chosen|
      ensures var s := ShareOf(a, dkg, chosen[i], keys[i], c.Header(), aad);
              s.Ok? && VerifyShareSimple(a, dkg, s.value, chosen[i].shareIndex, chosen[i].publicKey, c) == Ok(true)
    {
      SenderIsMember(dkg, messages, secrets, randoms, chosen[i]);
      CreatedShareVerifies(a, dkg.(me := chosen[i]), |dkg.validators|, dkg.params.securityThreshold, messages, c, aad, keys[i]);
    }
  }

  lemma SenderIsMember(dkg: Dkg, messages: seq<ValidatorMessage>, secrets: seq<Elem>, randoms: seq<seq<Elem>>, v: Validator)
    requires IsRitual(dkg, messages, secrets, randoms) && v in SenderList(messages)
    ensures v.shareIndex < |dkg.validators|
  {
    var k :| 0 <= k < |messages| && SenderList(messages)[k] == v;
    MembersInRange(dkg, messages[k].0);
  }
}
