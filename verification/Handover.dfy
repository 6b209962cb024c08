/** Handover of one slot from a departing validator to an incoming one. */
module Handover {
  import opened Wrappers
  import opened PrimeField
  import opened Polynomial
  import opened EvaluationDomain
  import opened Groups
  import opened KeyShares
  import opened Pvss
  import opened Sharings

  datatype HandoverTranscript = HandoverTranscript(
    shareIndex: nat,
    doubleBlindShare: G2,
    commitmentToShare: G2,
    commitmentToG1: G1,
    commitmentToG2: G2,
    incomingPubkey: G2,
    outgoingPubkey: G2)

  /** What an incoming validator publishes to take over a slot */
  function NewHandover(index: nat, outgoingShare: BlindedKeyShare, outgoingPubkey: G2, incomingKey: Elem, random: Elem)
    : HandoverTranscript
  {
    HandoverTranscript(
      index,
      Mul(outgoingShare.blindedKeyShare, incomingKey),
      Mul(outgoingPubkey, Mul(incomingKey, random)),
      Mul(G, random),
      Mul(H, random),
      PublicKeyOf(incomingKey),
      outgoingPubkey)
  }

  /** The exponents of what is published */
  lemma NewHandoverIsExact(index: nat, share: BlindedKeyShare, outgoing: G2, incomingKey: Elem, random: Elem)
    ensures var h := NewHandover(index, share, outgoing, incomingKey, random);
            && h.shareIndex == index && h.incomingPubkey == incomingKey && h.outgoingPubkey == outgoing
            && h.doubleBlindShare == Mul(share.blindedKeyShare, incomingKey)
            && h.commitmentToShare == Mul(Mul(random, incomingKey), outgoing)
            && h.commitmentToG1 == h.commitmentToG2 == random
  {
    PublicKeyIs(incomingKey);
    PublicKeyIs(random);
    MulComm(incomingKey, random);
    MulComm(outgoing, Mul(random, incomingKey));
  }

  /** e(-C1, D) * e(A, S) == 1 and e(-C1, H) * e(G, C2) == 1 */
  function Validate(h: HandoverTranscript, shareCommitment: G1): Result<bool> {
    var negated := Neg(h.commitmentToG1);
    if Add(Pairing(negated, h.doubleBlindShare), Pairing(shareCommitment, h.commitmentToShare)) == 0 &&
       Add(Pairing(negated, H), Pairing(G, h.commitmentToG2)) == 0
    then Ok(true)
    else Err(InvalidShareUpdate)
  }

  function Finalize(h: HandoverTranscript, departingKey: Elem, shareCommitment: G1): Outcome<BlindedKeyShare> {
    if Validate(h, shareCommitment).Err? then Panicked
    else if departingKey == 0 then Panicked
    else Returned(BlindedKeyShare(h.incomingPubkey, Mul(h.doubleBlindShare, Inv(departingKey))))
  }

  /**
   Installs the handed-over share, under the domain constructed for the number of shares.  The
   last check's verdict is not used: only its error is passed on.
   */
  function FinalizeHandover(t: Transcript, h: HandoverTranscript, departingKey: Elem): Outcome<Transcript> {
    var domain := SharesDomain(t);
    if domain.None? then Panicked
    else
      var commitments := ShareCommitments(t.coeffs, domain.value);
      if h.shareIndex >= |t.shares| then Failed(InvalidShareIndex(h.shareIndex))
      else if h.outgoingPubkey != PublicKeyOf(departingKey) then Failed(ValidatorPublicKeyMismatch)
      else
        var share := Finalize(h, departingKey, commitments[h.shareIndex]);
        if !share.Returned? then Panicked
        else
          var shares := t.shares[h.shareIndex := share.value.blindedKeyShare];
          var check := VerifyValidatorShare(commitments, shares, h.shareIndex, h.incomingPubkey);
          match check
          case Err(error) => Failed(error)
          case Ok(_) => Returned(Transcript(t.coeffs, shares, t.sigma))
  }

  /** The handover goes through: slot, key and validation are in order. */
  ghost predicate Installable(t: Transcript, h: HandoverTranscript, departingKey: Elem, d: Domain) {
    && SharesDomain(t) == Some(d) && h.shareIndex < |t.shares|
    && departingKey != 0 && PublicKeyOf(departingKey) == h.outgoingPubkey
    && h.commitmentToG1 == h.commitmentToG2
    && Mul(h.commitmentToG1, h.doubleBlindShare) == Mul(ShareCommitments(t.coeffs, d)[h.shareIndex], h.commitmentToShare)
  }

  /** The slot, times the departing key, is the double-blinded share, and nothing else changed. */
  ghost predicate IsInstalled(t: Transcript, h: HandoverTranscript, departingKey: Elem, t': Transcript) {
    && t'.coeffs == t.coeffs && t'.sigma == t.sigma && h.shareIndex < |t'.shares| == |t.shares|
    && Mul(t'.shares[h.shareIndex], departingKey) == h.doubleBlindShare
    && forall i :: 0 <= i < |t.shares| && i != h.shareIndex ==> t'.shares[i] == t.shares[i]
  }

  /**
   The shares are copied, and the slot is overwritten in the copy.  A missing slot and a wrong
   key are errors, in this order; everything else that is wrong is a panic.
   */
  method InstallHandover(t: Transcript, h: HandoverTranscript, departingKey: Elem) returns (o: Outcome<Transcript>)
    ensures o.Returned? <==> SharesDomain(t).Some? && Installable(t, h, departingKey, SharesDomain(t).value)
    ensures o.Returned? ==> IsInstalled(t, h, departingKey, o.value)
    ensures o.Failed? <==>
            SharesDomain(t).Some? && (h.shareIndex >= |t.shares| || PublicKeyOf(departingKey) != h.outgoingPubkey)
    ensures o.Failed? ==>
              o.error == if h.shareIndex >= |t.shares| then InvalidShareIndex(h.shareIndex) else ValidatorPublicKeyMismatch
  {
    var domain := SharesDomain(t);
    if domain.None? {
      return Panicked;
    }
    var commitments := ShareCommitments(t.coeffs, domain.value);
    if h.shareIndex >= |t.shares| {
      return Failed(InvalidShareIndex(h.shareIndex));
    }
    if h.outgoingPubkey != PublicKeyOf(departingKey) {
      return Failed(ValidatorPublicKeyMismatch);
    }
    ValidationIsExact(h, commitments[h.shareIndex]);
    var share := Finalize(h, departingKey, commitments[h.shareIndex]);
    if !share.Returned? {
      return Panicked;
    }
    Rescaled(h.doubleBlindShare, departingKey);
    var shares := new G2[|t.shares|](i requires 0 <= i < |t.shares| => t.shares[i]);
    assert shares[..] == t.shares;
    shares[h.shareIndex] := share.value.blindedKeyShare;
    var check := VerifyValidatorShare(commitments, shares[..], h.shareIndex, h.incomingPubkey);
    match check
    case Err(error) => return Failed(error);
    case Ok(_) => return Returned(Transcript(t.coeffs, shares[..], t.sigma));
  }

  /** These conditions leave no choice: what they describe is the outcome of `FinalizeHandover`. */
  lemma OutcomeIsDetermined(t: Transcript, h: HandoverTranscript, departingKey: Elem, o: Outcome<Transcript>)
    requires o.Returned? <==> SharesDomain(t).Some? && Installable(t, h, departingKey, SharesDomain(t).value)
    requires o.Returned? ==> IsInstalled(t, h, departingKey, o.value)
    requires o.Failed? <==>
             SharesDomain(t).Some? && (h.shareIndex >= |t.shares| || PublicKeyOf(departingKey) != h.outgoingPubkey)
    requires o.Failed? ==>
               o.error == if h.shareIndex >= |t.shares| then InvalidShareIndex(h.shareIndex) else ValidatorPublicKeyMismatch
    ensures o == FinalizeHandover(t, h, departingKey)
  {
    if SharesDomain(t).Some? && h.shareIndex < |t.shares| {
      ValidationIsExact(h, ShareCommitments(t.coeffs, SharesDomain(t).value)[h.shareIndex]);
      if o.Returned? {
        CancelRight(o.value.shares[h.shareIndex], departingKey);
        assert o.value.shares == FinalizeHandover(t, h, departingKey).value.shares;
      }
    }
  }

  // ---- Validation ---------------------------------------------------------------------

  /** The two pairing equations, in the exponent */
  lemma ValidationIsExact(h: HandoverTranscript, a: G1)
    ensures Validate(h, a) == Ok(true) <==>
            && Mul(h.commitmentToG1, h.doubleBlindShare) == Mul(a, h.commitmentToShare)
            && h.commitmentToG1 == h.commitmentToG2
    ensures Validate(h, a) == Ok(true) || Validate(h, a) == Err(InvalidShareUpdate)
  {
    var c1, p, q := h.commitmentToG1, Mul(h.commitmentToG1, h.doubleBlindShare), Mul(a, h.commitmentToShare);
    MulNeg(c1, h.doubleBlindShare);
    MulNeg(c1, H);
    MulOne(c1);
    MulOne(h.commitmentToG2);
    AddComm(Neg(p), q);
    SubZeroIffEqual(q, p);
    AddComm(Neg(c1), h.commitmentToG2);
    SubZeroIffEqual(h.commitmentToG2, c1);
  }

  /**
   Finalizing a transcript by itself returns exactly if it validates and the departing key is
   not zero; the share is for the incoming key, and times the departing key it is the
   double-blinded one.
   */
  lemma FinalizeIsExact(h: HandoverTranscript, departingKey: Elem, a: G1)
    ensures var o := Finalize(h, departingKey, a);
            && !o.Failed?
            && (o.Returned? <==>
                && departingKey != 0 && h.commitmentToG1 == h.commitmentToG2
                && Mul(h.commitmentToG1, h.doubleBlindShare) == Mul(a, h.commitmentToShare))
            && (o.Returned? ==>
                && o.value.validatorPublicKey == h.incomingPubkey
                && Mul(o.value.blindedKeyShare, departingKey) == h.doubleBlindShare)
  {
    ValidationIsExact(h, a);
    if departingKey != 0 {
      Rescaled(h.doubleBlindShare, departingKey);
    }
  }

  /**
   A transcript made by the incoming validator for blinded share y validates exactly when
   y satisfies the slot equation for the departing key, or a factor is zero.
   */
  lemma HonestHandoverValidates(index: nat, y: G2, outgoing: G2, incomingKey: Elem, random: Elem, a: G1)
    ensures Validate(NewHandover(index, BlindedKeyShare(outgoing, y), outgoing, incomingKey, random), a) == Ok(true) <==>
            random == 0 || incomingKey == 0 || y == Mul(a, outgoing)
  {
    var h := NewHandover(index, BlindedKeyShare(outgoing, y), outgoing, incomingKey, random);
    var k := Mul(random, incomingKey);
    MulOne(random);
    ValidationIsExact(h, a);
    calc {
      Mul(random, Mul(y, incomingKey));
      { MulComm(y, incomingKey); MulAssoc(random, incomingKey, y); }
      Mul(k, y);
    }
    calc {
      Mul(a, Mul(outgoing, Mul(incomingKey, random)));
      { MulAssoc(a, outgoing, Mul(incomingKey, random)); MulComm(incomingKey, random); MulComm(Mul(a, outgoing), k); }
      Mul(k, Mul(a, outgoing));
    }
    NoZeroDivisors(random, incomingKey);
    if k == 0 {
      MulZero(y);
      MulZero(Mul(a, outgoing));
    } else if Mul(k, y) == Mul(k, Mul(a, outgoing)) {
      MulCancel(k, y, Mul(a, outgoing));
    }
  }

  // ---- Finalization -------------------------------------------------------------------

  /** What a finalized handover of any origin changes: one slot, and nothing else. */
  lemma FinalizedTranscript(t: Transcript, h: HandoverTranscript, departingKey: Elem, d: Domain)
    requires FinalizeHandover(t, h, departingKey).Returned? && SharesDomain(t) == Some(d)
    ensures var t' := FinalizeHandover(t, h, departingKey).value;
            && h.shareIndex < |t.shares| <= d.size && departingKey != 0
            && h.outgoingPubkey == departingKey
            && Validate(h, ShareCommitments(t.coeffs, d)[h.shareIndex]) == Ok(true)
            && t'.coeffs == t.coeffs && t'.sigma == t.sigma
            && t'.shares == t.shares[h.shareIndex := Mul(h.doubleBlindShare, Inv(departingKey))]
  {
    PublicKeyIs(departingKey);
    ValidationIsExact(h, ShareCommitments(t.coeffs, d)[h.shareIndex]);
  }

  /**
   The installed share is valid for the incoming key exactly when the double-blinded share
   is the committed value times both keys.  Since the final verdict is dropped, this is not
   implied by finalization having returned.
   */
  lemma InstalledSlot(t: Transcript, h: HandoverTranscript, departingKey: Elem, d: Domain)
    requires FinalizeHandover(t, h, departingKey).Returned? && SharesDomain(t) == Some(d)
    ensures var t' := FinalizeHandover(t, h, departingKey).value;
            && h.shareIndex < d.size
            && (SlotValid(t'.coeffs, t'.shares, d, h.shareIndex, h.incomingPubkey) <==>
                h.doubleBlindShare ==
                Mul(Mul(ShareCommitments(t.coeffs, d)[h.shareIndex], h.incomingPubkey), departingKey))
  {
    FinalizedTranscript(t, h, departingKey, d);
    var b, v := h.doubleBlindShare, Mul(ShareCommitments(t.coeffs, d)[h.shareIndex], h.incomingPubkey);
    CancelRight(v, departingKey);
    MulComm(b, Inv(departingKey));
    CancelLeft(departingKey, b);
    MulComm(departingKey, Mul(b, Inv(departingKey)));
  }

  /**
   If the randomness is not zero, validation ties the double-blinded share to the commitment
   to the share, and it is this commitment that decides: nothing else in the transcript binds
   it to the two keys.
   */
  lemma InstalledSlotWithRandomness(t: Transcript, h: HandoverTranscript, departingKey: Elem, d: Domain)
    requires FinalizeHandover(t, h, departingKey).Returned? && SharesDomain(t) == Some(d) && h.commitmentToG1 != 0
    ensures var t' := FinalizeHandover(t, h, departingKey).value;
            && h.shareIndex < d.size
            && (SlotValid(t'.coeffs, t'.shares, d, h.shareIndex, h.incomingPubkey) <==>
                || ShareCommitments(t.coeffs, d)[h.shareIndex] == 0
                || h.commitmentToShare == Mul(Mul(h.commitmentToG1, h.incomingPubkey), departingKey))
  {
    InstalledSlot(t, h, departingKey, d);
    FinalizedTranscript(t, h, departingKey, d);
    var a := ShareCommitments(t.coeffs, d)[h.shareIndex];
    ValidationIsExact(h, a);
    hide *;
    BoundByCommitment(a, h.commitmentToG1, h.doubleBlindShare, h.commitmentToShare, h.incomingPubkey, departingKey);
  }

  /** With c * b == a * s and c nonzero, b == a * in * out exactly when a == 0 or s == c * in * out. */
  lemma BoundByCommitment(a: Elem, c: Elem, b: Elem, s: Elem, incoming: Elem, outgoing: Elem)
    requires c != 0 && Mul(c, b) == Mul(a, s)
    ensures b == Mul(Mul(a, incoming), outgoing) <==> a == 0 || s == Mul(Mul(c, incoming), outgoing)
  {
    var k, l := Mul(Mul(a, incoming), outgoing), Mul(Mul(c, incoming), outgoing);
    calc {
      Mul(c, k);
      { MulAssoc(a, incoming, outgoing); MulAssoc(c, a, Mul(incoming, outgoing)); MulComm(c, a); }
      Mul(Mul(a, c), Mul(incoming, outgoing));
      { MulAssoc(a, c, Mul(incoming, outgoing)); MulAssoc(c, incoming, outgoing); }
      Mul(a, l);
    }
    if b == k && a != 0 {
      MulCancel(a, s, l);
    }
    if a == 0 {
      MulZero(s);
      MulZero(l);
    }
    if a == 0 || s == l {
      MulCancel(c, b, k);
    }
  }

  /** A transcript that carries the given share, with commitments that make it validate */
  function ForgedHandover(index: nat, share: G2, commitment: G1, random: Elem, incoming: G2, outgoing: G2): HandoverTranscript {
    HandoverTranscript(index, share, Mul(Mul(random, share), Inv(commitment)), random, random, incoming, outgoing)
  }

  /**
   Finalization installs whatever share a transcript carries: for every wrong share there is
   a transcript that it returns on, with zero randomness, and also with any other as long as
   the slot's commitment is not the identity.
   */
  lemma ReturnedDoesNotMeanValid(t: Transcript, index: nat, incoming: G2, departingKey: Elem, share: G2, random: Elem,
                                 d: Domain)
    requires SharesDomain(t) == Some(d) && index < |t.shares| && departingKey != 0
    requires random == 0 || ShareCommitments(t.coeffs, d)[index] != 0
    requires share != Mul(Mul(ShareCommitments(t.coeffs, d)[index], incoming), departingKey)
    ensures var h := ForgedHandover(index, share, ShareCommitments(t.coeffs, d)[index], random,
                                    incoming, PublicKeyOf(departingKey));
            && FinalizeHandover(t, h, departingKey).Returned?
            && !SlotValid(t.coeffs, FinalizeHandover(t, h, departingKey).value.shares, d, index, incoming)
  {
    var a := ShareCommitments(t.coeffs, d)[index];
    var h := ForgedHandover(index, share, a, random, incoming, PublicKeyOf(departingKey));
    ForgedValidates(index, share, a, random, incoming, PublicKeyOf(departingKey));
    InstalledSlot(t, h, departingKey, d);
  }

  lemma ForgedValidates(index: nat, share: G2, a: G1, random: Elem, incoming: G2, outgoing: G2)
    requires random == 0 || a != 0
    ensures Validate(ForgedHandover(index, share, a, random, incoming, outgoing), a) == Ok(true)
  {
    ValidationIsExact(ForgedHandover(index, share, a, random, incoming, outgoing), a);
    var p := Mul(random, share);
    if random == 0 {
      MulZero(share);
      MulZero(Inv(a));
      MulZero(a);
    } else {
      MulComm(p, Inv(a));
      CancelLeft(a, p);
    }
  }

  /** A handover of slot `index` between the holders of two keys, as both carry it out */
  function HonestHandover(t: Transcript, index: nat, departingKey: Elem, incomingKey: Elem, random: Elem)
    : HandoverTranscript
    requires index < |t.shares|
  {
    var outgoing := PublicKeyOf(departingKey);
    NewHandover(index, BlindedKeyShare(outgoing, t.shares[index]), outgoing, incomingKey, random)
  }

  /**
   Handover preserves everything but the blinding.  On a slot that is valid for the
   departing key it always goes through; the incoming key then unblinds to the share that
   the departing key held, and the slot is valid for the incoming key.
   */
  lemma HandoverPreservesShare(t: Transcript, index: nat, departingKey: Elem, incomingKey: Elem, random: Elem, d: Domain)
    requires SharesDomain(t) == Some(d) && index < |t.shares| && departingKey != 0 && incomingKey != 0
    requires SlotValid(t.coeffs, t.shares, d, index, PublicKeyOf(departingKey))
    ensures var o := FinalizeHandover(t, HonestHandover(t, index, departingKey, incomingKey, random), departingKey);
            && o.Returned?
            && o.value.coeffs == t.coeffs && o.value.sigma == t.sigma
            && |o.value.shares| == |t.shares|
            && (forall i :: 0 <= i < |t.shares| && i != index ==> o.value.shares[i] == t.shares[i])
            && BlindedKeyShare(PublicKeyOf(incomingKey), o.value.shares[index]).Unblind(incomingKey) ==
               BlindedKeyShare(PublicKeyOf(departingKey), t.shares[index]).Unblind(departingKey)
            && SlotValid(o.value.coeffs, o.value.shares, d, index, PublicKeyOf(incomingKey))
  {
    var h, y := HonestHandover(t, index, departingKey, incomingKey, random), t.shares[index];
    var a := ShareCommitments(t.coeffs, d)[index];
    PublicKeyIs(departingKey);
    PublicKeyIs(incomingKey);
    HonestHandoverValidates(index, y, departingKey, incomingKey, random, a);
    FinalizedTranscript(t, h, departingKey, d);
    Reblinded(y, departingKey, incomingKey);
    CancelRight(a, departingKey);
  }

  /** On an existing slot, an honest handover returns exactly when its transcript validates. */
  lemma HonestHandoverReturns(t: Transcript, index: nat, departingKey: Elem, incomingKey: Elem, random: Elem, d: Domain)
    requires SharesDomain(t) == Some(d) && index < |t.shares| && departingKey != 0
    ensures FinalizeHandover(t, HonestHandover(t, index, departingKey, incomingKey, random), departingKey).Returned? <==>
            random == 0 || incomingKey == 0 || SlotValid(t.coeffs, t.shares, d, index, PublicKeyOf(departingKey))
  {
    var h, a := HonestHandover(t, index, departingKey, incomingKey, random), ShareCommitments(t.coeffs, d)[index];
    HonestHandoverValidates(index, t.shares[index], PublicKeyOf(departingKey), incomingKey, random, a);
    ValidationIsExact(h, a);
  }

  /** (y * in) / out is the unblinded share y / out, blinded by in. */
  lemma Reblinded(y: G2, departingKey: Elem, incomingKey: Elem)
    requires departingKey != 0 && incomingKey != 0
    ensures Mul(Mul(y, incomingKey), Inv(departingKey)) == Mul(Mul(y, Inv(departingKey)), incomingKey)
    ensures Mul(Mul(Mul(y, incomingKey), Inv(departingKey)), Inv(incomingKey)) == Mul(y, Inv(departingKey))
  {
    MulAssoc(y, incomingKey, Inv(departingKey));
    MulComm(incomingKey, Inv(departingKey));
    MulAssoc(y, Inv(departingKey), incomingKey);
    CancelRight(Mul(y, Inv(departingKey)), incomingKey);
  }

  // ---- Handover of a sharing ------------------------------------------------------------

  /**
   With a nonzero incoming key, the double-blinded share times the key of the slot is the
   slot's share times incoming and departing key.
   */
  ghost predicate CarriesShare(h: HandoverTranscript, t: Transcript, slotKey: G2, departingKey: Elem) {
    && h.shareIndex < |t.shares| && h.incomingPubkey != 0
    && Mul(h.doubleBlindShare, slotKey) == Mul(Mul(t.shares[h.shareIndex], h.incomingPubkey), departingKey)
  }

  /**
   A finalized handover of any origin, finalized by whomever, keeps a sharing on the given
   slots, with the incoming key in place of the slot's, exactly when its slot is not among
   them or it carries the slot's share.  Nothing checks that the departing key is the slot's.
   */
  lemma HandoverIsExact(values: Vec, t: Transcript, keys: map<nat, G2>, h: HandoverTranscript, departingKey: Elem,
                        on: set<nat>)
    requires FinalizeHandover(t, h, departingKey).Returned? && IsSharingOf(values, t.shares, keys, on)
    ensures h.shareIndex in keys
    ensures IsSharingOf(values, FinalizeHandover(t, h, departingKey).value.shares, keys[h.shareIndex := h.incomingPubkey], on) <==>
            h.shareIndex !in on || CarriesShare(h, t, keys[h.shareIndex], departingKey)
  {
    var t', i, keys' := FinalizeHandover(t, h, departingKey).value, h.shareIndex, keys[h.shareIndex := h.incomingPubkey];
    FinalizedTranscript(t, h, departingKey, SharesDomain(t).value);
    hide FinalizeHandover, SharesDomain;
    assert IsSharingOf(values, t'.shares, keys', {});
    forall j | j in on && j != i ensures HoldsValue(values, t'.shares, keys', j) {
      assert HoldsValue(values, t.shares, keys, j);
    }
    if i in on {
      assert HoldsValue(values, t.shares, keys, i);
      Reblinding(values[i], keys[i], departingKey, h.incomingPubkey, h.doubleBlindShare);
      assert HoldsValue(values, t'.shares, keys', i) <==> CarriesShare(h, t, keys[i], departingKey);
    }
  }

  /** b / out == v * in exactly when b * k == ((v * k) * in) * out. */
  lemma Reblinding(v: Elem, k: Elem, outgoing: Elem, incoming: Elem, b: Elem)
    requires outgoing != 0 && k != 0
    ensures Mul(b, Inv(outgoing)) == Mul(v, incoming) <==> Mul(b, k) == Mul(Mul(Mul(v, k), incoming), outgoing)
  {
    var c := Mul(Mul(v, incoming), outgoing);
    calc {
      Mul(Mul(Mul(v, k), incoming), outgoing);
      { MulAssoc(Mul(v, k), incoming, outgoing); MulAssoc(v, k, Mul(incoming, outgoing)); }
      Mul(v, Mul(k, Mul(incoming, outgoing)));
      { MulComm(k, Mul(incoming, outgoing)); MulAssoc(v, Mul(incoming, outgoing), k); MulAssoc(v, incoming, outgoing); }
      Mul(c, k);
    }
    CancelRight(Mul(v, incoming), outgoing);
    Rescaled(b, outgoing);
    if Mul(b, k) == Mul(c, k) {
      CancelRight(b, k);
      CancelRight(c, k);
    }
  }

  /** Finalized by the slot's own holder, it carries the share if it is the slot's own, blinded once more. */
  lemma CarriedByHolder(h: HandoverTranscript, t: Transcript, departingKey: Elem)
    requires h.shareIndex < |t.shares| && departingKey != 0
    ensures CarriesShare(h, t, PublicKeyOf(departingKey), departingKey) <==>
            h.incomingPubkey != 0 && h.doubleBlindShare == Mul(t.shares[h.shareIndex], h.incomingPubkey)
  {
    PublicKeyIs(departingKey);
    CancelRight(h.doubleBlindShare, departingKey);
    CancelRight(Mul(t.shares[h.shareIndex], h.incomingPubkey), departingKey);
  }

  /** What the incoming validator makes from the slot's share meets this condition. */
  lemma HonestHandoverCarriesShare(t: Transcript, index: nat, departingKey: Elem, incomingKey: Elem, random: Elem)
    requires index < |t.shares| && departingKey != 0
    ensures var h := HonestHandover(t, index, departingKey, incomingKey, random);
            CarriesShare(h, t, PublicKeyOf(departingKey), departingKey) <==> incomingKey != 0
  {
    PublicKeyIs(incomingKey);
    CarriedByHolder(HonestHandover(t, index, departingKey, incomingKey, random), t, departingKey);
  }

  /**
   Any validator can finalize a transcript for any slot: one that blinds the slot's share with
   a nonzero incoming key returns, with zero randomness, or with any other if the slot's
   commitment is not the identity; but it keeps the sharing only if the departing key is the
   slot's, or the slot is empty.
   */
  lemma HandoverByAnother(values: Vec, t: Transcript, keys: map<nat, G2>, index: nat, incoming: G2, other: Elem,
                          random: Elem, d: Domain, on: set<nat>)
    requires SharesDomain(t) == Some(d) && IsSharingOf(values, t.shares, keys, on) && index in on
    requires incoming != 0 && other != 0
    ensures index < |t.shares| <= d.size && index in keys
    ensures random == 0 || ShareCommitments(t.coeffs, d)[index] != 0 ==>
              var h := ForgedHandover(index, Mul(t.shares[index], incoming), ShareCommitments(t.coeffs, d)[index], random,
                                      incoming, PublicKeyOf(other));
              && FinalizeHandover(t, h, other).Returned?
              && (IsSharingOf(values, FinalizeHandover(t, h, other).value.shares, keys[index := incoming], on) <==>
                  other == keys[index] || t.shares[index] == 0)
  {
    assert HoldsValue(values, t.shares, keys, index);
    var a, y, k := ShareCommitments(t.coeffs, d)[index], t.shares[index], keys[index];
    if random == 0 || a != 0 {
      var h := ForgedHandover(index, Mul(y, incoming), a, random, incoming, PublicKeyOf(other));
      ForgedValidates(index, Mul(y, incoming), a, random, incoming, PublicKeyOf(other));
      HandoverIsExact(values, t, keys, h, other, on);
      assert h.doubleBlindShare == Mul(y, incoming) && h.incomingPubkey == incoming;
      hide FinalizeHandover, IsSharingOf, ForgedHandover;
      var c := Mul(y, incoming);
      NoZeroDivisors(y, incoming);
      if Mul(c, k) == Mul(c, other) && c != 0 {
        MulCancel(c, k, other);
      }
      if c == 0 {
        MulZero(k);
        MulZero(other);
      }
    }
  }
}
