/** Blinded key shares, and the two kinds of decryption share made from them. */
module KeyShares {
  import opened Wrappers
  import opened PrimeField
  import opened Sums
  import opened Interpolation
  import opened Counting
  import opened Groups
  import opened Combine
  import opened Ciphertext
  import opened DecryptionShares

  datatype BlindedKeyShare = BlindedKeyShare(validatorPublicKey: G2, blindedKeyShare: G2) {

    function Unblind(decryptionKey: Elem): Result<G2> {
      if decryptionKey == 0 then Err(InvalidValidatorDecryptionKey)
      else Ok(Mul(blindedKeyShare, Inv(decryptionKey)))
    }

    function CreateDecryptionShareSimple(h: CiphertextHeader, aad: Bytes, decryptionKey: Elem)
      : Result<DecryptionShareSimple>
    {
      var z := Unblind(decryptionKey);
      if z.Err? then Err(z.error) else CreateSimple(decryptionKey, z.value, h, aad)
    }
  }

  /** The entries of a map, in the given order of its keys */
  function InOrder(values: map<nat, Elem>, order: seq<nat>): seq<Elem>
    requires Members(order) <= values.Keys
  {
    seq(|order|, i requires 0 <= i < |order| => assert order[i] in Members(order); values[order[i]])
  }

  /** The Lagrange coefficient at 0 of one of the selected participants */
  function OwnCoefficient(points: map<nat, Elem>, shareIndex: nat): Elem
    requires shareIndex in points
  {
    var order := Sorted(points.Keys);
    assert shareIndex in Members(order);
    PrepareCombineSimple(InOrder(points, order))[IndexOf(order, shareIndex)]
  }

  /** What the precomputed variant returns, or with which error it stops */
  function PrecomputedShare(share: BlindedKeyShare, h: CiphertextHeader, aad: Bytes, decryptionKey: Elem,
                            shareIndex: nat, points: map<nat, Elem>): Result<DecryptionSharePrecomputed>
  {
    if shareIndex !in points then Err(InvalidShareIndex(shareIndex))
    else
      var z := share.Unblind(decryptionKey);
      if z.Err? then Err(z.error)
      else CreatePrecomputed(shareIndex, decryptionKey, z.value, h, aad, OwnCoefficient(points, shareIndex))
  }

  /** A key other than zero unblinds, and what it gives is the blinded share without the key. */
  lemma UnblindIsExact(share: BlindedKeyShare, decryptionKey: Elem)
    ensures decryptionKey == 0 ==> share.Unblind(decryptionKey) == Err(InvalidValidatorDecryptionKey)
    ensures decryptionKey != 0 ==>
              share.Unblind(decryptionKey).Ok? &&
              Mul(share.Unblind(decryptionKey).value, decryptionKey) == share.blindedKeyShare
  {
    if decryptionKey != 0 {
      Rescaled(share.blindedKeyShare, decryptionKey);
    }
  }

  /**
   The precomputed share exists exactly for a selected participant with a nonzero key and a
   header that passes its check; the errors are reported in this order.  Times the key, it is
   U to the slot, to the participant's coefficient.
   */
  ghost predicate IsPrecomputed(r: Result<DecryptionSharePrecomputed>, share: BlindedKeyShare, h: CiphertextHeader,
                                aad: Bytes, decryptionKey: Elem, shareIndex: nat, points: map<nat, Elem>)
  {
    if shareIndex !in points then r == Err(InvalidShareIndex(shareIndex))
    else if decryptionKey == 0 then r == Err(InvalidValidatorDecryptionKey)
    else if Check(h, aad) != Ok(true) then r == Err(CiphertextVerificationFailed)
    else
      && r.Ok? && r.value.decrypterIndex == shareIndex
      && Mul(r.value.decryptionShare, decryptionKey) ==
         Mul(OwnCoefficient(points, shareIndex), Mul(h.commitment, share.blindedKeyShare))
      && Mul(r.value.checksum, decryptionKey) == h.commitment
  }

  lemma PrecomputedShareIsExact(share: BlindedKeyShare, h: CiphertextHeader, aad: Bytes, decryptionKey: Elem,
                                shareIndex: nat, points: map<nat, Elem>)
    ensures IsPrecomputed(PrecomputedShare(share, h, aad, decryptionKey, shareIndex, points),
                          share, h, aad, decryptionKey, shareIndex, points)
  {
    if shareIndex in points && decryptionKey != 0 {
      var u, y, lambda := h.commitment, share.blindedKeyShare, OwnCoefficient(points, shareIndex);
      var z := share.Unblind(decryptionKey).value;
      UnblindIsExact(share, decryptionKey);
      CreatePrecomputedIsExact(shareIndex, decryptionKey, z, h, aad, lambda);
      hide OwnCoefficient, Check, CreatePrecomputed, CreatePrecomputedUnchecked;
      MulAssoc(lambda, Mul(u, z), decryptionKey);
      MulAssoc(u, z, decryptionKey);
    }
  }

  /** Maps each entry of a list without repetitions to its position. */
  method Positions(order: seq<nat>) returns (positions: map<nat, nat>)
    requires Distinct(order)
    ensures positions.Keys == Members(order)
    ensures forall k :: k in positions ==> k in order && positions[k] == IndexOf(order, k)
  {
    positions := map[];
    for i := 0 to |order|
      invariant positions.Keys == Members(order[..i])
      invariant forall k :: k in positions ==> positions[k] < i && order[positions[k]] == k
    {
      assert order[..i + 1] == order[..i] + [order[i]];
      positions := positions[order[i] := i];
    }
    assert order[..|order|] == order;
  }

  method CreateDecryptionSharePrecomputed(
      share: BlindedKeyShare, h: CiphertextHeader, aad: Bytes, decryptionKey: Elem,
      shareIndex: nat, points: map<nat, Elem>) returns (r: Result<DecryptionSharePrecomputed>)
    ensures shareIndex !in points ==> r == Err(InvalidShareIndex(shareIndex))
    ensures r.Ok? <==> shareIndex in points && decryptionKey != 0 && Check(h, aad) == Ok(true)
    ensures IsPrecomputed(r, share, h, aad, decryptionKey, shareIndex, points)
    ensures r == PrecomputedShare(share, h, aad, decryptionKey, shareIndex, points)
  {
    PrecomputedShareIsExact(share, h, aad, decryptionKey, shareIndex, points);
    var order := Sorted(points.Keys);
    var lagrangeCoeffs := LagrangeBasisAt(InOrder(points, order), 0);
    var sortedShareIndices := Positions(order);
    assert shareIndex in points <==> shareIndex in Members(order);
    if shareIndex !in sortedShareIndices {
      return Err(InvalidShareIndex(shareIndex));
    }
    var adjusted := sortedShareIndices[shareIndex];
    assert adjusted == IndexOf(order, shareIndex);
    var lagrangeCoeff := lagrangeCoeffs[adjusted];
    var privateKeyShare := share.Unblind(decryptionKey);
    if privateKeyShare.Err? {
      return Err(privateKeyShare.error);
    }
    return CreatePrecomputed(shareIndex, decryptionKey, privateKeyShare.value, h, aad, lagrangeCoeff);
  }

  // ---- The coefficient of a participant does not depend on the order -----------------

  lemma {:induction false} OthersMultiset(u: seq<Elem>, a: Elem)
    ensures multiset(Others(u, a)) == multiset(u)[a := 0]
  {
    if u != [] {
      var n := |u| - 1;
      OthersMultiset(u[..n], a);
      assert u == u[..n] + [u[n]];
    }
  }

  function DifferenceFrom(x: Elem): Elem -> Elem {
    (b: Elem) => Sub(x, b)
  }

  lemma BasisProductPermutes(v: seq<Elem>, w: seq<Elem>, a: Elem, x: Elem)
    requires multiset(v) == multiset(w)
    ensures BasisProduct(v, a, x) == BasisProduct(w, a, x)
  {
    MappedPermutation(DifferenceFrom(x), v, w);
    MappedPermutation(DifferenceFrom(a), v, w);
    assert Mapped(DifferenceFrom(x), v) == Differences(v, x) && Mapped(DifferenceFrom(x), w) == Differences(w, x);
    assert Mapped(DifferenceFrom(a), v) == Differences(v, a) && Mapped(DifferenceFrom(a), w) == Differences(w, a);
  }

  lemma BasisPermutes(u: seq<Elem>, v: seq<Elem>, i: nat, j: nat, x: Elem)
    requires multiset(u) == multiset(v) && i < |u| && j < |v| && u[i] == v[j]
    ensures LagrangeBasis(u, x)[i] == LagrangeBasis(v, x)[j]
  {
    OthersMultiset(u, u[i]);
    OthersMultiset(v, v[j]);
    BasisProductPermutes(Others(u, u[i]), Others(v, v[j]), u[i], x);
  }

  lemma {:induction false} PointsPermute(points: map<nat, Elem>, e: seq<nat>, o: seq<nat>)
    requires Members(e) <= points.Keys && Members(o) <= points.Keys
    requires multiset(e) == multiset(o)
    ensures multiset(InOrder(points, e)) == multiset(InOrder(points, o))
    decreases |e|
  {
    assert |e| == |multiset(e)| == |multiset(o)| == |o|;
    var p, q := InOrder(points, e), InOrder(points, o);
    if e != [] {
      assert e[0] in multiset(o);
      var i :| 0 <= i < |o| && o[i] == e[0];
      var o' := o[..i] + o[i + 1..];
      RemoveOne(e, o, i);
      assert Members(e[1..]) <= points.Keys && Members(o') <= points.Keys;
      PointsPermute(points, e[1..], o');
      assert p == [p[0]] + InOrder(points, e[1..]);
      assert q == q[..i] + ([q[i]] + q[i + 1..]);
      assert q[..i] + q[i + 1..] == InOrder(points, o');
    }
  }

  /** Sort and lookup picks each participant's own coefficient, in any enumeration of the selection. */
  lemma OwnCoefficientInAnyOrder(points: map<nat, Elem>, order: seq<nat>, k: nat)
    requires Distinct(order) && Members(order) == points.Keys && k < |order|
    ensures order[k] in points
    ensures OwnCoefficient(points, order[k]) == PrepareCombineSimple(InOrder(points, order))[k]
  {
    assert order[k] in Members(order);
    var sorted := Sorted(points.Keys);
    assert order[k] in Members(sorted);
    SameMembersPermute(sorted, order);
    PointsPermute(points, sorted, order);
    BasisPermutes(InOrder(points, sorted), InOrder(points, order), IndexOf(sorted, order[k]), k, 0);
  }

  // ---- The precomputed variant refines the simple one --------------------------------

  /**
   The shares that all selected participants precompute, multiplied in any order, give
   what the simple combination gives on the simple shares of the same participants,
   listed in any other order.
   */
  lemma PrecomputedRefinesSimple(
      points: map<nat, Elem>, simple: map<nat, Gt>, precomputed: map<nat, Gt>,
      order: seq<nat>, order': seq<nat>)
    requires simple.Keys == precomputed.Keys == points.Keys
    requires forall i :: i in points ==> precomputed[i] == Mul(OwnCoefficient(points, i), simple[i])
    requires Distinct(order) && Members(order) == points.Keys
    requires Distinct(order') && Members(order') == points.Keys
    ensures ShareCombinePrecomputed(InOrder(precomputed, order)) ==
            ShareCombineSimple(InOrder(simple, order'), PrepareCombineSimple(InOrder(points, order')))
  {
    SameMembersPermute(order, order');
    PointsPermute(precomputed, order, order');
    PermutationInvariant(InOrder(precomputed, order), InOrder(precomputed, order'));
    PrecomputedIsWeighted(points, simple, precomputed, order');
  }

  lemma PrecomputedIsWeighted(
      points: map<nat, Elem>, simple: map<nat, Gt>, precomputed: map<nat, Gt>, order: seq<nat>)
    requires simple.Keys == precomputed.Keys == points.Keys
    requires forall i :: i in points ==> precomputed[i] == Mul(OwnCoefficient(points, i), simple[i])
    requires Distinct(order) && Members(order) == points.Keys
    ensures InOrder(precomputed, order) == Weighted(InOrder(simple, order), PrepareCombineSimple(InOrder(points, order)))
  {
    var coeffs := PrepareCombineSimple(InOrder(points, order));
    assert |coeffs| == |order|;
    hide OwnCoefficient, PrepareCombineSimple;
    forall k | 0 <= k < |order|
      ensures precomputed[order[k]] == Mul(coeffs[k], simple[order[k]])
    {
      OwnCoefficientInAnyOrder(points, order, k);
    }
  }

  /** A precomputed share is the simple share times the participant's own coefficient. */
  lemma PrecomputedIsWeightedSimple(share: BlindedKeyShare, h: CiphertextHeader, aad: Bytes,
                                    decryptionKey: Elem, shareIndex: nat, points: map<nat, Elem>)
    requires shareIndex in points
    ensures var s := share.CreateDecryptionShareSimple(h, aad, decryptionKey);
            var p := PrecomputedShare(share, h, aad, decryptionKey, shareIndex, points);
            && (s.Ok? <==> p.Ok?)
            && (s.Err? ==> s.error == p.error)
            && (s.Ok? ==>
                && p.value.decrypterIndex == shareIndex
                && p.value.checksum == s.value.checksum
                && p.value.decryptionShare == Mul(OwnCoefficient(points, shareIndex), s.value.decryptionShare))
  {
    var z, lambda := Mul(share.blindedKeyShare, Inv(decryptionKey)), OwnCoefficient(points, shareIndex);
    hide OwnCoefficient, Check;
    WeightedByCoefficient(shareIndex, decryptionKey, z, h, aad, lambda);
  }

  lemma WeightedByCoefficient(index: nat, decryptionKey: Elem, z: G2, h: CiphertextHeader, aad: Bytes, lambda: Elem)
    ensures var s, p := CreateSimple(decryptionKey, z, h, aad), CreatePrecomputed(index, decryptionKey, z, h, aad, lambda);
            && (s.Ok? <==> p.Ok?)
            && (s.Err? ==> s.error == p.error)
            && (s.Ok? ==> p.value == DecryptionSharePrecomputed(index, Mul(lambda, s.value.decryptionShare), s.value.checksum))
  {
    MulComm(h.commitment, lambda);
    MulAssoc(lambda, h.commitment, z);
  }
}
