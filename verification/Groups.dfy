/**
 The pairing groups, in the exponent: an element of G1, G2 or GT is represented by its
 discrete logarithm to the base of the group's generator.  The group operation is
 addition, the identity is 0, a generator is 1, and the pairing is multiplication.
 */
module Groups {
  import opened PrimeField

  type G1 = Elem
  type G2 = Elem
  type Gt = Elem

  const G: G1 := 1
  const H: G2 := 1

  function Pairing(a: G1, b: G2): Gt { Mul(a, b) }

  /** The public key of a validator with the given decryption key */
  function PublicKeyOf(decryptionKey: Elem): G2 { Mul(H, decryptionKey) }

  /** The decryption key that belongs to a public key: its discrete logarithm */
  function DecryptionKeyOf(publicKey: G2): Elem { publicKey }

  lemma PublicKeyIs(decryptionKey: Elem)
    ensures PublicKeyOf(decryptionKey) == decryptionKey
    ensures DecryptionKeyOf(PublicKeyOf(decryptionKey)) == decryptionKey
    ensures PublicKeyOf(DecryptionKeyOf(decryptionKey)) == decryptionKey
  {
    MulOne(decryptionKey);
  }

  lemma PairingWithGenerator(x: Elem)
    ensures Pairing(G, x) == x && Pairing(x, H) == x
  {
    MulOne(x);
  }
}
