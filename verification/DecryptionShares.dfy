/** Decryption shares of one validator and their public verification. */
module DecryptionShares {
  import opened Wrappers
  import opened PrimeField
  import opened Groups
  import opened Ciphertext

  /** C_i = (1/dk_i) * U */
  function NewChecksum(decryptionKey: Elem, h: CiphertextHeader): Result<G1> {
    if decryptionKey == 0 then
      Err(InvalidValidatorDecryptionKey)
    else
      Ok(Mul(h.commitment, Inv(decryptionKey)))
  }

  predicate VerifyChecksum(checksum: G1, share: Gt, shareAggregate: G2, validatorKey: G2, c: Ciphertext) {
    && share == Pairing(checksum, shareAggregate)
    && Pairing(checksum, validatorKey) == Pairing(c.commitment, H)
  }

  datatype DecryptionShareSimple = DecryptionShareSimple(decryptionShare: Gt, checksum: G1)

  datatype DecryptionSharePrecomputed =
    DecryptionSharePrecomputed(decrypterIndex: nat, decryptionShare: Gt, checksum: G1)

  /** D_i = e(U, Z_i) */
  function CreateSimpleUnchecked(decryptionKey: Elem, privateKeyShare: G2, h: CiphertextHeader)
    : Result<DecryptionShareSimple>
  {
    var share := Pairing(h.commitment, privateKeyShare);
    var checksum := NewChecksum(decryptionKey, h);
    if checksum.Err? then Err(checksum.error) else Ok(DecryptionShareSimple(share, checksum.value))
  }

  function CreateSimple(decryptionKey: Elem, privateKeyShare: G2, h: CiphertextHeader, aad: Bytes)
    : Result<DecryptionShareSimple>
  {
    var check := Check(h, aad);
    if check.Err? then Err(check.error) else CreateSimpleUnchecked(decryptionKey, privateKeyShare, h)
  }

  predicate VerifySimple(s: DecryptionShareSimple, shareAggregate: G2, validatorKey: G2, c: Ciphertext) {
    VerifyChecksum(s.checksum, s.decryptionShare, shareAggregate, validatorKey, c)
  }

  /** D_i = e([lambda_i] U, Z_i) */
  function CreatePrecomputedUnchecked(index: nat, decryptionKey: Elem, privateKeyShare: G2,
                                      h: CiphertextHeader, lagrangeCoeff: Elem)
    : Result<DecryptionSharePrecomputed>
  {
    var share := Pairing(Mul(h.commitment, lagrangeCoeff), privateKeyShare);
    var checksum := NewChecksum(decryptionKey, h);
    if checksum.Err? then Err(checksum.error)
    else Ok(DecryptionSharePrecomputed(index, share, checksum.value))
  }

  function CreatePrecomputed(index: nat, decryptionKey: Elem, privateKeyShare: G2,
                             h: CiphertextHeader, aad: Bytes, lagrangeCoeff: Elem)
    : Result<DecryptionSharePrecomputed>
  {
    var check := Check(h, aad);
    if check.Err? then Err(check.error)
    else CreatePrecomputedUnchecked(index, decryptionKey, privateKeyShare, h, lagrangeCoeff)
  }

  predicate VerifyPrecomputed(s: DecryptionSharePrecomputed, shareAggregate: G2, validatorKey: G2, c: Ciphertext) {
    VerifyChecksum(s.checksum, s.decryptionShare, shareAggregate, validatorKey, c)
  }

  // ---- Creation is exact -----------------------------------------------------------------

  /** Share and checksum of a key holder: U to the unblinded share, and U without the key */
  ghost predicate IsShareOf(share: Gt, checksum: G1, h: CiphertextHeader, decryptionKey: Elem, z: G2) {
    share == Mul(h.commitment, z) && Mul(checksum, decryptionKey) == h.commitment
  }

  /**
   A share is created exactly for a header that passes its check and a nonzero key; the errors
   are reported in this order.  Without the check, only the key matters.
   */
  lemma CreateSimpleIsExact(decryptionKey: Elem, z: G2, h: CiphertextHeader, aad: Bytes)
    ensures var s := CreateSimpleUnchecked(decryptionKey, z, h);
            && (decryptionKey == 0 ==> s == Err(InvalidValidatorDecryptionKey))
            && (decryptionKey != 0 ==> s.Ok? && IsShareOf(s.value.decryptionShare, s.value.checksum, h, decryptionKey, z))
    ensures CreateSimple(decryptionKey, z, h, aad) ==
            if Check(h, aad) == Ok(true) then CreateSimpleUnchecked(decryptionKey, z, h)
            else Err(CiphertextVerificationFailed)
  {
    CheckIsExact(h, aad);
    if decryptionKey != 0 {
      Rescaled(h.commitment, decryptionKey);
    }
  }

  /** The precomputed share is that of U to the coefficient, with the index of its decrypter. */
  lemma CreatePrecomputedIsExact(index: nat, decryptionKey: Elem, z: G2, h: CiphertextHeader, aad: Bytes, lambda: Elem)
    ensures var s := CreatePrecomputedUnchecked(index, decryptionKey, z, h, lambda);
            && (decryptionKey == 0 ==> s == Err(InvalidValidatorDecryptionKey))
            && (decryptionKey != 0 ==>
                && s.Ok? && s.value.decrypterIndex == index
                && s.value.decryptionShare == Mul(lambda, Mul(h.commitment, z))
                && Mul(s.value.checksum, decryptionKey) == h.commitment)
    ensures CreatePrecomputed(index, decryptionKey, z, h, aad, lambda) ==
            if Check(h, aad) == Ok(true) then CreatePrecomputedUnchecked(index, decryptionKey, z, h, lambda)
            else Err(CiphertextVerificationFailed)
  {
    CheckIsExact(h, aad);
    MulComm(h.commitment, lambda);
    MulAssoc(lambda, h.commitment, z);
    if decryptionKey != 0 {
      Rescaled(h.commitment, decryptionKey);
    }
  }

  // ---- Verification is exact ---------------------------------------------------------

  /** The only checksum that passes for a key is the one its owner computes. */
  lemma ChecksumUnique(checksum: G1, key: Elem, u: G1)
    requires key != 0
    ensures Mul(checksum, key) == Mul(u, H) <==> checksum == Mul(u, Inv(key))
  {
    MulOne(u);
    MulComm(checksum, key);
    MulComm(u, Inv(key));
    CancelLeft(key, u);
    CancelLeft(key, checksum);
  }

  /**
   For a nonzero validator key the simple verifier accepts one pair (D, C) only: the
   one that the validator's own decryption key and unblinded share produce.
   */
  lemma SimpleVerifierIsExact(s: DecryptionShareSimple, y: G2, key: Elem, c: Ciphertext)
    requires key != 0
    ensures VerifySimple(s, y, PublicKeyOf(key), c) <==>
            Ok(s) == CreateSimpleUnchecked(key, Mul(y, Inv(key)), c.Header())
    ensures VerifySimple(s, y, PublicKeyOf(key), c) <==>
            IsShareOf(s.decryptionShare, s.checksum, c.Header(), key, Mul(y, Inv(key)))
  {
    var u := c.commitment;
    PublicKeyIs(key);
    MulOne(u);
    ChecksumUnique(s.checksum, key, u);
    UnblindedShare(u, key, y);
  }

  /**
   Whatever the validator's key, both verifiers compare the share with the pairing of checksum
   and slot, and the checksum times the key with U.
   */
  lemma VerifiersAreExact(share: Gt, checksum: G1, index: nat, y: G2, validatorKey: G2, c: Ciphertext)
    ensures VerifySimple(DecryptionShareSimple(share, checksum), y, validatorKey, c) <==>
            share == Mul(checksum, y) && Mul(checksum, validatorKey) == c.commitment
    ensures VerifyPrecomputed(DecryptionSharePrecomputed(index, share, checksum), y, validatorKey, c) <==>
            share == Mul(checksum, y) && Mul(checksum, validatorKey) == c.commitment
  {
    PairingWithGenerator(c.commitment);
  }

  lemma UnblindedShare(u: G1, key: Elem, y: G2)
    ensures Mul(Mul(u, Inv(key)), y) == Mul(u, Mul(y, Inv(key)))
  {
    MulAssoc(u, Inv(key), y);
    MulComm(Inv(key), y);
  }

  /**
   The precomputed verifier compares the weighted share with the unweighted pairing:
   it accepts an honest share exactly when its coefficient is 1 or the pairing e(U, Z)
   is trivial.
   */
  lemma PrecomputedVerifier(index: nat, y: G2, key: Elem, c: Ciphertext, lambda: Elem)
    requires key != 0
    ensures var z := Mul(y, Inv(key));
            var s := CreatePrecomputedUnchecked(index, key, z, c.Header(), lambda);
            && s.Ok?
            && (VerifyPrecomputed(s.value, y, PublicKeyOf(key), c) <==>
                lambda == 1 || Pairing(c.commitment, z) == 0)
  {
    var u, z := c.commitment, Mul(y, Inv(key));
    var e := Mul(u, z);
    PublicKeyIs(key);
    ChecksumUnique(Mul(u, Inv(key)), key, u);
    UnblindedShare(u, key, y);
    MulComm(u, lambda);
    MulAssoc(lambda, u, z);
    MulOne(e);
    MulZero(lambda);
    if Mul(lambda, e) == e && e != 0 {
      MulComm(lambda, e);
      MulCancel(e, lambda, 1);
    }
  }

  // ---- Verifying many shares -----------------------------------------------------------

  datatype PublicContext = PublicContext(blindedKeyShare: G2, validatorKey: G2)

  predicate VerifyAllSimple(contexts: seq<PublicContext>, c: Ciphertext, shares: seq<DecryptionShareSimple>) {
    if contexts == [] || shares == [] then true
    else
      && VerifySimple(shares[0], contexts[0].blindedKeyShare, contexts[0].validatorKey, c)
      && VerifyAllSimple(contexts[1..], c, shares[1..])
  }

  /** All pairs up to the length of the shorter list are checked, and no others. */
  lemma {:induction false} VerifyAllIsPointwise(
      contexts: seq<PublicContext>, c: Ciphertext, shares: seq<DecryptionShareSimple>)
    ensures VerifyAllSimple(contexts, c, shares) <==>
            forall i :: 0 <= i < |contexts| && i < |shares| ==>
              VerifySimple(shares[i], contexts[i].blindedKeyShare, contexts[i].validatorKey, c)
  {
    if contexts != [] && shares != [] {
      VerifyAllIsPointwise(contexts[1..], c, shares[1..]);
      assert forall i :: 1 <= i < |contexts| ==> contexts[i] == contexts[1..][i - 1];
      assert forall i :: 1 <= i < |shares| ==> shares[i] == shares[1..][i - 1];
    }
  }
}
