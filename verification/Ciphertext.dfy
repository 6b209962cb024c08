/** Encryption to the group key, and the validity check of a ciphertext header. */
module Ciphertext {
  import opened Wrappers
  import opened PrimeField
  import opened Groups

  newtype Byte = x: int | 0 <= x < 256
  type Bytes = seq<Byte>

  /**
   What the model takes from its surroundings: the hash functions, the derivation of
   key and nonce, and an authenticated cipher (section 2.8 of RFC 8439) of which only
   this much is known, that opening a sealed message with the same key, nonce and
   associated data returns the message.
   */
  datatype Primitives = Primitives(
    sha256: Bytes -> Bytes,
    hashToG2: (G1, Bytes, Bytes) -> G2,
    keyOf: Gt -> Bytes,
    nonceOf: G1 -> Bytes,
    seal: (Bytes, Bytes, Bytes, Bytes) -> Option<Bytes>,
    open: (Bytes, Bytes, Bytes, Bytes) -> Option<Bytes>)

  ghost predicate OpensWhatItSealed(p: Primitives, key: Bytes, nonce: Bytes, aad: Bytes, msg: Bytes) {
    var sealed := p.seal(key, nonce, aad, msg);
    sealed.Some? ==> p.open(key, nonce, aad, sealed.value) == Some(msg)
  }

  ghost predicate IsSound(p: Primitives) {
    forall key: Bytes, nonce: Bytes, aad: Bytes, msg: Bytes {:trigger OpensWhatItSealed(p, key, nonce, aad, msg)} ::
      OpensWhatItSealed(p, key, nonce, aad, msg)
  }

  type SoundPrimitives = p: Primitives | IsSound(p)
    witness Primitives(b => b, (u: G1, h: Bytes, a: Bytes) => 1, (s: Gt) => [], (u: G1) => [],
                       (k: Bytes, n: Bytes, a: Bytes, m: Bytes) => Some(m),
                       (k: Bytes, n: Bytes, a: Bytes, c: Bytes) => Some(c))

  const CRYPTO: SoundPrimitives

  datatype Ciphertext = Ciphertext(commitment: G1, authTag: G2, ciphertext: Bytes) {
    function Header(): CiphertextHeader {
      CiphertextHeader(commitment, authTag, CRYPTO.sha256(ciphertext))
    }
  }

  datatype CiphertextHeader = CiphertextHeader(commitment: G1, authTag: G2, ciphertextHash: Bytes)

  /** H_G2(U, hash of the payload, aad) */
  function TagHash(h: CiphertextHeader, aad: Bytes): G2 {
    CRYPTO.hashToG2(h.commitment, h.ciphertextHash, aad)
  }

  /** e(U, H_G2(U, hash, aad)) * e(-G, W) == 1, with identity points refused */
  function Check(h: CiphertextHeader, aad: Bytes): Result<bool> {
    if h.commitment == 0 || h.authTag == 0 then
      Err(CiphertextVerificationFailed)
    else if Add(Pairing(h.commitment, TagHash(h, aad)), Pairing(Neg(G), h.authTag)) == 0 then
      Ok(true)
    else
      Err(CiphertextVerificationFailed)
  }

  function Encrypt(message: Bytes, aad: Bytes, pubkey: G1, random: Elem): Result<Ciphertext> {
    if pubkey == 0 then
      Err(IdentityDkgPublicKey)
    else
      var product := Pairing(Mul(pubkey, random), H);
      var commitment := Mul(G, random);
      var sealed := CRYPTO.seal(CRYPTO.keyOf(product), CRYPTO.nonceOf(commitment), aad, message);
      if sealed.None? then
        Err(SymmetricEncryptionError)
      else
        var hash := CRYPTO.sha256(sealed.value);
        var authTag := Mul(CRYPTO.hashToG2(commitment, hash, aad), random);
        Ok(Ciphertext(commitment, authTag, sealed.value))
  }

  function DecryptWithSharedSecret(c: Ciphertext, aad: Bytes, sharedSecret: Gt): Result<Bytes> {
    var check := Check(c.Header(), aad);
    if check.Err? then
      Err(check.error)
    else
      var plaintext := CRYPTO.open(CRYPTO.keyOf(sharedSecret), CRYPTO.nonceOf(c.commitment), aad, c.ciphertext);
      if plaintext.None? then Err(CiphertextVerificationFailed) else Ok(plaintext.value)
  }

  /** Decryption with the undivided private key, the secret times the generator of G2 */
  function DecryptSymmetric(c: Ciphertext, aad: Bytes, privateKey: G2): Result<Bytes> {
    DecryptWithSharedSecret(c, aad, Pairing(c.commitment, privateKey))
  }

  /** The check accepts exactly one tag for a given U, payload hash and aad. */
  lemma CheckIsExact(h: CiphertextHeader, aad: Bytes)
    ensures Check(h, aad) == Ok(true) <==>
            && h.commitment != 0 && h.authTag != 0
            && h.authTag == Mul(h.commitment, CRYPTO.hashToG2(h.commitment, h.ciphertextHash, aad))
    ensures Check(h, aad) != Ok(true) ==> Check(h, aad) == Err(CiphertextVerificationFailed)
  {
    var w := h.authTag;
    MulNeg(1, w);
    MulOne(w);
    SubZeroIffEqual(Mul(h.commitment, TagHash(h, aad)), w);
  }

  /** U and W are not the identity, and W is U's exponent times the hash of U, of the payload's hash and of aad. */
  ghost predicate HasValidTag(c: Ciphertext, aad: Bytes) {
    && c.commitment != 0 && c.authTag != 0
    && c.authTag == Mul(c.commitment, CRYPTO.hashToG2(c.commitment, CRYPTO.sha256(c.ciphertext), aad))
  }

  /**
   A tag that passed for one payload and associated data passes for others, under the same U,
   exactly if the hashes to G2 collide; and for the same ones no other tag passes.
   */
  lemma TagBindsPayload(c: Ciphertext, c': Ciphertext, aad: Bytes, aad': Bytes)
    requires Check(c.Header(), aad) == Ok(true) && c'.commitment == c.commitment
    ensures c'.authTag == c.authTag ==>
              (Check(c'.Header(), aad') == Ok(true) <==>
               CRYPTO.hashToG2(c.commitment, CRYPTO.sha256(c'.ciphertext), aad') ==
               CRYPTO.hashToG2(c.commitment, CRYPTO.sha256(c.ciphertext), aad))
    ensures c'.authTag != c.authTag && c'.ciphertext == c.ciphertext && aad' == aad ==>
              Check(c'.Header(), aad') == Err(CiphertextVerificationFailed)
  {
    var a, b := CRYPTO.hashToG2(c.commitment, CRYPTO.sha256(c.ciphertext), aad),
                CRYPTO.hashToG2(c.commitment, CRYPTO.sha256(c'.ciphertext), aad');
    CheckIsExact(c.Header(), aad);
    CheckIsExact(c'.Header(), aad');
    if Mul(c.commitment, a) == Mul(c.commitment, b) {
      MulCancel(c.commitment, a, b);
    }
  }

  /** What the authenticated cipher opens, or an error */
  function Opened(key: Bytes, c: Ciphertext, aad: Bytes): Result<Bytes> {
    match CRYPTO.open(key, CRYPTO.nonceOf(c.commitment), aad, c.ciphertext)
    case Some(plaintext) => Ok(plaintext)
    case None => Err(CiphertextVerificationFailed)
  }

  /**
   Without a valid tag nothing is opened, whatever the secret.  With one, decryption returns
   what the cipher opens: under the key of the shared secret, or of U times the private key.
   */
  lemma DecryptionIsExact(c: Ciphertext, aad: Bytes, secret: Elem)
    ensures !HasValidTag(c, aad) ==>
              && DecryptWithSharedSecret(c, aad, secret) == Err(CiphertextVerificationFailed)
              && DecryptSymmetric(c, aad, secret) == Err(CiphertextVerificationFailed)
    ensures HasValidTag(c, aad) ==>
              && DecryptWithSharedSecret(c, aad, secret) == Opened(CRYPTO.keyOf(secret), c, aad)
              && DecryptSymmetric(c, aad, secret) == Opened(CRYPTO.keyOf(Mul(c.commitment, secret)), c, aad)
  {
    CheckIsExact(c.Header(), aad);
  }

  /**
   Encryption refuses the identity as public key, and fails if sealing does.  Otherwise U is
   the random exponent, the payload is sealed under the key of r times the public key, and the
   tag is r times the hash of U, the payload's hash and the associated data.
   */
  lemma EncryptIsExact(message: Bytes, aad: Bytes, pubkey: G1, random: Elem)
    ensures var r := Encrypt(message, aad, pubkey, random);
            var sealed := CRYPTO.seal(CRYPTO.keyOf(Mul(random, pubkey)), CRYPTO.nonceOf(random), aad, message);
            && (pubkey == 0 ==> r == Err(IdentityDkgPublicKey))
            && (pubkey != 0 && sealed.None? ==> r == Err(SymmetricEncryptionError))
            && (pubkey != 0 && sealed.Some? ==>
                && r.Ok? && r.value.commitment == random && r.value.ciphertext == sealed.value
                && r.value.authTag == Mul(random, CRYPTO.hashToG2(random, CRYPTO.sha256(sealed.value), aad)))
  {
    MulOne(random);
    MulOne(Mul(pubkey, random));
    MulComm(pubkey, random);
    var sealed := CRYPTO.seal(CRYPTO.keyOf(Mul(random, pubkey)), CRYPTO.nonceOf(random), aad, message);
    if sealed.Some? {
      MulComm(CRYPTO.hashToG2(random, CRYPTO.sha256(sealed.value), aad), random);
    }
  }

  /** What an encryption consists of */
  lemma EncryptionShape(message: Bytes, aad: Bytes, pubkey: G1, random: Elem)
    requires Encrypt(message, aad, pubkey, random).Ok?
    ensures var c := Encrypt(message, aad, pubkey, random).value;
            && c.commitment == random
            && c.authTag == Mul(random, CRYPTO.hashToG2(random, CRYPTO.sha256(c.ciphertext), aad))
            && CRYPTO.open(CRYPTO.keyOf(Mul(random, pubkey)), CRYPTO.nonceOf(c.commitment), aad, c.ciphertext)
               == Some(message)
  {
    var c := Encrypt(message, aad, pubkey, random).value;
    MulOne(random);
    MulOne(Mul(pubkey, random));
    MulComm(pubkey, random);
    MulComm(TagHash(c.Header(), aad), random);
    assert OpensWhatItSealed(CRYPTO, CRYPTO.keyOf(Mul(random, pubkey)), CRYPTO.nonceOf(random), aad, message);
  }

  /** An honest ciphertext passes the check exactly when neither of its points is the identity. */
  lemma EncryptionChecks(message: Bytes, aad: Bytes, pubkey: G1, random: Elem)
    requires Encrypt(message, aad, pubkey, random).Ok?
    ensures var h := Encrypt(message, aad, pubkey, random).value.Header();
            Check(h, aad) == Ok(true) <==> random != 0 && CRYPTO.hashToG2(random, h.ciphertextHash, aad) != 0
  {
    var c := Encrypt(message, aad, pubkey, random).value;
    EncryptionShape(message, aad, pubkey, random);
    CheckIsExact(c.Header(), aad);
    NoZeroDivisors(c.commitment, TagHash(c.Header(), aad));
  }

  /** Decryption with the encryptor's secret returns the message. */
  lemma DecryptionUndoesEncryption(message: Bytes, aad: Bytes, pubkey: G1, random: Elem)
    requires Encrypt(message, aad, pubkey, random).Ok?
    requires Check(Encrypt(message, aad, pubkey, random).value.Header(), aad) == Ok(true)
    ensures var c := Encrypt(message, aad, pubkey, random).value;
            && DecryptWithSharedSecret(c, aad, Mul(random, pubkey)) == Ok(message)
            && DecryptSymmetric(c, aad, pubkey) == Ok(message)
  {
    EncryptionShape(message, aad, pubkey, random);
  }
}
