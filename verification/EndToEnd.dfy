/**
 What acceptance of an aggregate guarantees about decryption: from the threshold on, any
 verified shares recover the encryptor's secret, and one share below it they do not.
 */
module EndToEnd {
  import opened Wrappers
  import opened PrimeField
  import opened Sums
  import opened Polynomial
  import opened Interpolation
  import opened EvaluationDomain
  import opened Counting
  import opened Groups
  import opened Combine
  import opened Ciphertext
  import opened DecryptionShares
  import opened KeyShares
  import opened Validators
  import opened Pvss

  /** Distinct validators out of a list */
  ghost predicate Selected(chosen: seq<Validator>, validators: seq<Validator>) {
    Distinct(Indices(chosen)) && forall i :: 0 <= i < |chosen| ==> chosen[i] in validators
  }

  function PointsOf(chosen: seq<Validator>, d: Domain): seq<Elem> {
    seq(|chosen|, i requires 0 <= i < |chosen| => Pow(d.omega, chosen[i].shareIndex))
  }

  function ShareValues(shares: seq<DecryptionShareSimple>): seq<Gt> {
    seq(|shares|, i requires 0 <= i < |shares| => shares[i].decryptionShare)
  }

  /** Shares of any origin that pass verification against the transcript's slots */
  ghost predicate AllVerify(shares: seq<DecryptionShareSimple>, chosen: seq<Validator>, t: Transcript, c: Ciphertext) {
    |shares| == |chosen| && forall i :: 0 <= i < |chosen| ==>
      chosen[i].shareIndex < |t.shares| &&
      VerifySimple(shares[i], t.shares[chosen[i].shareIndex], chosen[i].publicKey, c)
  }

  /** The secret that shares combine to, with the coefficients for their validators' points */
  function Combined(shares: seq<DecryptionShareSimple>, chosen: seq<Validator>, d: Domain): Gt {
    ShareCombineSimple(ShareValues(shares), PrepareCombineSimple(PointsOf(chosen, d)))
  }

  // ---- What a verified share is ---------------------------------------------------------

  /** A share that verifies against a valid slot is U times the committed value at the slot. */
  lemma VerifiedShareValue(s: DecryptionShareSimple, a: G1, key: Elem, c: Ciphertext)
    requires key != 0 && VerifySimple(s, Mul(a, key), key, c)
    ensures s.decryptionShare == Mul(c.commitment, a)
  {
    PublicKeyIs(key);
    SimpleVerifierIsExact(s, Mul(a, key), key, c);
    CancelRight(a, key);
  }

  /** Selected validators of an accepted transcript have distinct points of the domain. */
  lemma PointsOfSelected(chosen: seq<Validator>, validators: seq<Validator>, t: Transcript, d: Domain, threshold: nat)
    requires AcceptedFull(t.coeffs, t.shares, validators, d, threshold) && Selected(chosen, validators)
    ensures |chosen| <= d.size && Distinct(PointsOf(chosen, d))
    ensures forall i :: 0 <= i < |chosen| ==>
              chosen[i].publicKey != 0 &&
              SlotValid(t.coeffs, t.shares, d, chosen[i].shareIndex, chosen[i].publicKey)
  {
    forall i | 0 <= i < |chosen|
      ensures chosen[i].publicKey != 0
      ensures SlotValid(t.coeffs, t.shares, d, chosen[i].shareIndex, chosen[i].publicKey)
    {
      var k :| 0 <= k < |validators| && validators[k] == chosen[i];
    }
    var s: seq<int> := Indices(chosen);
    DistinctInRange(s, 0, d.size);
    forall i, j | 0 <= i < j < |chosen| ensures PointsOf(chosen, d)[i] != PointsOf(chosen, d)[j] {
      var a, b := Indices(chosen)[i], Indices(chosen)[j];
      if a < b {
        PointsDiffer(d, a, b);
      } else {
        PointsDiffer(d, b, a);
      }
    }
  }

  /** The verified shares are U times the values of the committed polynomial, as the domain sees it. */
  lemma VerifiedShareValues(shares: seq<DecryptionShareSimple>, chosen: seq<Validator>, validators: seq<Validator>,
                            t: Transcript, d: Domain, threshold: nat, c: Ciphertext)
    requires AcceptedFull(t.coeffs, t.shares, validators, d, threshold)
    requires Selected(chosen, validators) && AllVerify(shares, chosen, t, c)
    ensures ShareValues(shares) == ScaledBy(c.commitment, Values(Resize(t.coeffs, d.size), PointsOf(chosen, d)))
  {
    PointsOfSelected(chosen, validators, t, d, threshold);
    forall i | 0 <= i < |chosen|
      ensures shares[i].decryptionShare ==
              Mul(c.commitment, Eval(Resize(t.coeffs, d.size), Pow(d.omega, chosen[i].shareIndex)))
    {
      var index := chosen[i].shareIndex;
      assert SlotValid(t.coeffs, t.shares, d, index, chosen[i].publicKey);
      VerifiedShareValue(shares[i], ShareCommitments(t.coeffs, d)[index], chosen[i].publicKey, c);
    }
  }

  lemma ResizedValues(f: Vec, n: nat, u: seq<Elem>)
    requires |f| <= n
    ensures Values(Resize(f, n), u) == Values(f, u)
  {
    forall i | 0 <= i < |u| ensures Values(Resize(f, n), u)[i] == Values(f, u)[i] {
      ResizeEval(f, n, u[i]);
    }
  }

  // ---- At the threshold -------------------------------------------------------------------

  /**
   Any threshold or more of verified shares, whoever made them, combine to U times the
   committed secret.  If the threshold exceeds the size of the domain there are not that many
   distinct slots; `ThresholdIsExact` says how many shares are enough.
   */
  lemma VerifiedSharesCombine(shares: seq<DecryptionShareSimple>, chosen: seq<Validator>, validators: seq<Validator>,
                              t: Transcript, d: Domain, threshold: nat, c: Ciphertext)
    requires AcceptedFull(t.coeffs, t.shares, validators, d, threshold)
    requires Selected(chosen, validators) && |chosen| >= threshold
    requires AllVerify(shares, chosen, t, c)
    ensures Combined(shares, chosen, d) == Mul(c.commitment, t.coeffs[0])
  {
    PointsOfSelected(chosen, validators, t, d, threshold);
    VerifiedShareValues(shares, chosen, validators, t, d, threshold, c);
    ResizedValues(t.coeffs, d.size, PointsOf(chosen, d));
    SharesReconstruct(t.coeffs, PointsOf(chosen, d), c.commitment);
  }

  /** The share that a key holder makes from a transcript */
  function ShareFrom(t: Transcript, index: nat, decryptionKey: Elem, h: CiphertextHeader, aad: Bytes)
    : Result<DecryptionShareSimple>
  {
    var share := GetShareForIndexAndPubkey(t, index, PublicKeyOf(decryptionKey));
    if share.Err? then Err(share.error) else share.value.CreateDecryptionShareSimple(h, aad, decryptionKey)
  }

  ghost predicate HoldsKeys(keys: seq<Elem>, chosen: seq<Validator>) {
    |keys| == |chosen| && forall i :: 0 <= i < |chosen| ==> PublicKeyOf(keys[i]) == chosen[i].publicKey
  }

  /** Honest shares exist and verify, for a ciphertext whose header passes the check. */
  lemma HonestSharesVerify(chosen: seq<Validator>, keys: seq<Elem>, validators: seq<Validator>,
                           t: Transcript, d: Domain, threshold: nat, c: Ciphertext, aad: Bytes)
    requires AcceptedFull(t.coeffs, t.shares, validators, d, threshold)
    requires Selected(chosen, validators) && HoldsKeys(keys, chosen)
    requires Check(c.Header(), aad) == Ok(true)
    ensures forall i :: 0 <= i < |chosen| ==>
              var s := ShareFrom(t, chosen[i].shareIndex, keys[i], c.Header(), aad);
              && s.Ok? && chosen[i].shareIndex < |t.shares|
              && VerifySimple(s.value, t.shares[chosen[i].shareIndex], chosen[i].publicKey, c)
  {
    PointsOfSelected(chosen, validators, t, d, threshold);
    forall i | 0 <= i < |chosen|
      ensures var s := ShareFrom(t, chosen[i].shareIndex, keys[i], c.Header(), aad);
              && s.Ok? && chosen[i].shareIndex < |t.shares|
              && VerifySimple(s.value, t.shares[chosen[i].shareIndex], chosen[i].publicKey, c)
    {
      var index, key := chosen[i].shareIndex, keys[i];
      assert SlotValid(t.coeffs, t.shares, d, index, chosen[i].publicKey);
      PublicKeyIs(key);
      SimpleVerifierIsExact(ShareFrom(t, index, key, c.Header(), aad).value, t.shares[index], key, c);
    }
  }

  function HonestShares(t: Transcript, chosen: seq<Validator>, keys: seq<Elem>, h: CiphertextHeader, aad: Bytes)
    : seq<DecryptionShareSimple>
    requires |keys| == |chosen|
    requires forall i :: 0 <= i < |chosen| ==> ShareFrom(t, chosen[i].shareIndex, keys[i], h, aad).Ok?
  {
    seq(|chosen|, i requires 0 <= i < |chosen| => ShareFrom(t, chosen[i].shareIndex, keys[i], h, aad).value)
  }

  /**
   End to end: for any aggregate that do_verify_aggregation accepts, however it was
   produced, and any message encrypted to its constant term with a header that passes
   the check, the shares of any threshold or more of the listed validators exist, combine
   to the encryptor's secret, and decryption returns the message.
   */
  lemma DecryptionSucceeds(
      t: Transcript, validators: seq<Validator>, d: Domain, pvss: seq<Transcript>, threshold: nat,
      chosen: seq<Validator>, keys: seq<Elem>, message: Bytes, aad: Bytes, random: Elem)
    requires DoVerifyAggregation(t.coeffs, t.shares, validators, d, pvss, threshold) == Ok(true)
    requires Encrypt(message, aad, ConstantTerm(t), random).Ok?
    requires Check(Encrypt(message, aad, ConstantTerm(t), random).value.Header(), aad) == Ok(true)
    requires Selected(chosen, validators) && HoldsKeys(keys, chosen) && |chosen| >= threshold
    ensures var c := Encrypt(message, aad, ConstantTerm(t), random).value;
            && (forall i :: 0 <= i < |chosen| ==> ShareFrom(t, chosen[i].shareIndex, keys[i], c.Header(), aad).Ok?)
            && var secret := Combined(HonestShares(t, chosen, keys, c.Header(), aad), chosen, d);
               && secret == Mul(random, ConstantTerm(t))
               && DecryptWithSharedSecret(c, aad, secret) == Ok(message)
  {
    var c := Encrypt(message, aad, ConstantTerm(t), random).value;
    AggregationVerificationIsExact(t.coeffs, t.shares, validators, d, pvss, threshold);
    HonestSharesVerify(chosen, keys, validators, t, d, threshold, c, aad);
    var shares := HonestShares(t, chosen, keys, c.Header(), aad);
    VerifiedSharesCombine(shares, chosen, validators, t, d, threshold, c);
    EncryptionShape(message, aad, ConstantTerm(t), random);
    DecryptionUndoesEncryption(message, aad, ConstantTerm(t), random);
  }

  // ---- Shares combined over another domain ------------------------------------------------

  /** Values of s + b x that were taken over the domain d combine over e to s only if the second points agree. */
  lemma MisplacedShares(values: seq<Gt>, s: Elem, b: Elem, d: Domain, e: Domain, u: Elem)
    requires values == ScaledBy(u, Values([s, b], [1, Pow(d.omega, 1)]))
    requires e.size >= 2 && u != 0 && b != 0
    ensures ShareCombineSimple(values, PrepareCombineSimple([1, Pow(e.omega, 1)])) == Mul(u, s) <==>
            Pow(d.omega, 1) == Pow(e.omega, 1)
  {
    var x, y := Pow(e.omega, 1), Pow(d.omega, 1);
    var v := Values([s, b], [1, y]);
    assert x != 1 && Distinct([1, x]) && |v| == 2 && PrepareCombineSimple([1, x]) == LagrangeBasis([1, x], 0);
    hide *;
    CombineScaled(u, v, LagrangeBasis([1, x], 0));
    CombineIsLagrangeSum([1, x], v, 0);
    MisplacedPair(s, b, x, y);
    if Mul(u, LagrangeSum([1, x], v, 0)) == Mul(u, s) {
      MulCancel(u, LagrangeSum([1, x], v, 0), s);
    }
  }

  lemma PairOfPoints(chosen: seq<Validator>, d: Domain)
    requires Indices(chosen) == [0, 1]
    ensures PointsOf(chosen, d) == [1, Pow(d.omega, 1)] && |chosen| == 2
  {
    assert |Indices(chosen)| == |chosen| && Indices(chosen)[0] == 0 && Indices(chosen)[1] == 1;
    assert chosen[0].shareIndex == 0 && chosen[1].shareIndex == 1;
  }

  /**
   The shares have to be combined over the domain for which the transcript was verified: at
   threshold 2, those of the slots 0 and 1 combine over another to the secret only if it has
   the same points.
   */
  lemma SharesOverOtherDomain(shares: seq<DecryptionShareSimple>, chosen: seq<Validator>, validators: seq<Validator>,
                              t: Transcript, d: Domain, e: Domain, c: Ciphertext)
    requires AcceptedFull(t.coeffs, t.shares, validators, d, 2) && Selected(chosen, validators)
    requires AllVerify(shares, chosen, t, c) && Indices(chosen) == [0, 1] && c.commitment != 0 && e.size >= 2
    ensures Combined(shares, chosen, e) == Mul(c.commitment, t.coeffs[0]) <==> Pow(d.omega, 1) == Pow(e.omega, 1)
    ensures d.size != e.size ==> Pow(d.omega, 1) != Pow(e.omega, 1)
  {
    assert |t.coeffs| == 2 && t.coeffs[1] != 0;
    assert Combined(shares, chosen, e) == ShareCombineSimple(ShareValues(shares), PrepareCombineSimple(PointsOf(chosen, e)));
    PairOfPoints(chosen, d);
    PairOfPoints(chosen, e);
    hide *;
    PointsOfSelected(chosen, validators, t, d, 2);
    VerifiedShareValues(shares, chosen, validators, t, d, 2, c);
    ResizedValues(t.coeffs, d.size, PointsOf(chosen, d));
    assert t.coeffs == [t.coeffs[0], t.coeffs[1]];
    MisplacedShares(ShareValues(shares), t.coeffs[0], t.coeffs[1], d, e, c.commitment);
    if d.size != e.size {
      OmegasDiffer(d, e);
    }
  }

  // ---- The precomputed variant ------------------------------------------------------------

  /** The map of indices and domain points of the selected validators */
  function SelectedPoints(chosen: seq<Validator>, d: Domain): map<nat, Elem> {
    map i | i in Members(Indices(chosen)) :: Pow(d.omega, i)
  }

  function PrecomputedFrom(t: Transcript, index: nat, decryptionKey: Elem, h: CiphertextHeader, aad: Bytes,
                           points: map<nat, Elem>): Result<DecryptionSharePrecomputed>
  {
    var share := GetShareForIndexAndPubkey(t, index, PublicKeyOf(decryptionKey));
    if share.Err? then Err(share.error)
    else PrecomputedShare(share.value, h, aad, decryptionKey, index, points)
  }

  /**
   A precomputed share needs a slot, then a selected participant, a nonzero key and a header
   that passes its check.
   */
  lemma PrecomputedFromIsExact(t: Transcript, index: nat, key: Elem, h: CiphertextHeader, aad: Bytes, points: map<nat, Elem>)
    ensures var r := PrecomputedFrom(t, index, key, h, aad, points);
            if index >= |t.shares| then r == Err(InvalidShareIndex(index))
            else IsPrecomputed(r, BlindedKeyShare(PublicKeyOf(key), t.shares[index]), h, aad, key, index, points)
  {
    if index < |t.shares| {
      PrecomputedShareIsExact(BlindedKeyShare(PublicKeyOf(key), t.shares[index]), h, aad, key, index, points);
    }
  }

  ghost predicate AllCreated(t: Transcript, chosen: seq<Validator>, keys: seq<Elem>, h: CiphertextHeader, aad: Bytes) {
    |keys| == |chosen| && forall i :: 0 <= i < |chosen| ==> ShareFrom(t, chosen[i].shareIndex, keys[i], h, aad).Ok?
  }

  /** A participant precomputes a share exactly if it can make a simple one, which it weights. */
  lemma WeightedShare(t: Transcript, index: nat, key: Elem, h: CiphertextHeader, aad: Bytes, points: map<nat, Elem>)
    requires index in points && ShareFrom(t, index, key, h, aad).Ok?
    ensures var p := PrecomputedFrom(t, index, key, h, aad, points);
            p.Ok? && p.value.decryptionShare ==
                     Mul(OwnCoefficient(points, index), ShareFrom(t, index, key, h, aad).value.decryptionShare)
  {
    var share := GetShareForIndexAndPubkey(t, index, PublicKeyOf(key));
    PrecomputedIsWeightedSimple(share.value, h, aad, key, index, points);
  }

  /** The simple shares by share index */
  ghost function SimpleByIndex(t: Transcript, chosen: seq<Validator>, keys: seq<Elem>, h: CiphertextHeader, aad: Bytes)
    : map<nat, Gt>
    requires AllCreated(t, chosen, keys, h, aad)
  {
    map i | i in Members(Indices(chosen)) ::
      ShareFrom(t, i, keys[IndexOf(Indices(chosen), i)], h, aad).value.decryptionShare
  }

  /** The precomputed shares by share index */
  ghost function PrecomputedByIndex(t: Transcript, chosen: seq<Validator>, keys: seq<Elem>,
                                    h: CiphertextHeader, aad: Bytes, d: Domain): (m: map<nat, Gt>)
    requires AllCreated(t, chosen, keys, h, aad)
  {
    map i | i in Members(Indices(chosen)) ::
      WeightedShare(t, i, keys[IndexOf(Indices(chosen), i)], h, aad, SelectedPoints(chosen, d));
      PrecomputedFrom(t, i, keys[IndexOf(Indices(chosen), i)], h, aad, SelectedPoints(chosen, d)).value.decryptionShare
  }

  lemma PrecomputedAreWeighted(t: Transcript, chosen: seq<Validator>, keys: seq<Elem>,
                               h: CiphertextHeader, aad: Bytes, d: Domain)
    requires AllCreated(t, chosen, keys, h, aad)
    ensures forall i :: i in SelectedPoints(chosen, d) ==>
              PrecomputedByIndex(t, chosen, keys, h, aad, d)[i] ==
              Mul(OwnCoefficient(SelectedPoints(chosen, d), i), SimpleByIndex(t, chosen, keys, h, aad)[i])
  {
    forall i | i in SelectedPoints(chosen, d)
      ensures PrecomputedByIndex(t, chosen, keys, h, aad, d)[i] ==
              Mul(OwnCoefficient(SelectedPoints(chosen, d), i), SimpleByIndex(t, chosen, keys, h, aad)[i])
    {
      WeightedShare(t, i, keys[IndexOf(Indices(chosen), i)], h, aad, SelectedPoints(chosen, d));
    }
  }

  lemma {:induction false} IndexOfDistinct<T>(s: seq<T>, i: nat)
    requires Distinct(s) && i < |s|
    ensures IndexOf(s, s[i]) == i
  {
  }

  lemma SimpleInSlotOrder(t: Transcript, chosen: seq<Validator>, keys: seq<Elem>,
                          h: CiphertextHeader, aad: Bytes, d: Domain)
    requires AllCreated(t, chosen, keys, h, aad) && Distinct(Indices(chosen))
    ensures InOrder(SimpleByIndex(t, chosen, keys, h, aad), Indices(chosen)) ==
            ShareValues(HonestShares(t, chosen, keys, h, aad))
    ensures InOrder(SelectedPoints(chosen, d), Indices(chosen)) == PointsOf(chosen, d)
  {
    var simple, indices := SimpleByIndex(t, chosen, keys, h, aad), Indices(chosen);
    forall i | 0 <= i < |chosen|
      ensures InOrder(simple, indices)[i] == ShareValues(HonestShares(t, chosen, keys, h, aad))[i]
    {
      IndexOfDistinct(indices, i);
      assert indices[i] in Members(indices);
    }
  }

  /**
   The shares that a selection of threshold or more validators precompute for each other all
   exist, and their product, taken in any order, is U times the committed secret.
   */
  lemma PrecomputedSharesCombine(
      chosen: seq<Validator>, keys: seq<Elem>, validators: seq<Validator>, t: Transcript, d: Domain, threshold: nat,
      c: Ciphertext, aad: Bytes, order: seq<nat>)
    requires AcceptedFull(t.coeffs, t.shares, validators, d, threshold)
    requires Selected(chosen, validators) && HoldsKeys(keys, chosen) && |chosen| >= threshold
    requires Check(c.Header(), aad) == Ok(true)
    requires Distinct(order) && Members(order) == Members(Indices(chosen))
    ensures AllCreated(t, chosen, keys, c.Header(), aad)
    ensures ShareCombinePrecomputed(InOrder(PrecomputedByIndex(t, chosen, keys, c.Header(), aad, d), order)) ==
            Mul(c.commitment, t.coeffs[0])
  {
    HonestSharesVerify(chosen, keys, validators, t, d, threshold, c, aad);
    var h := c.Header();
    assert AllCreated(t, chosen, keys, h, aad);
    VerifiedSharesCombine(HonestShares(t, chosen, keys, h, aad), chosen, validators, t, d, threshold, c);
    PrecomputedAreWeighted(t, chosen, keys, h, aad, d);
    SimpleInSlotOrder(t, chosen, keys, h, aad, d);
    PrecomputedRefinesSimple(SelectedPoints(chosen, d), SimpleByIndex(t, chosen, keys, h, aad),
                             PrecomputedByIndex(t, chosen, keys, h, aad, d), order, Indices(chosen));
  }

  // ---- One share below the threshold ------------------------------------------------------

  /** With the threshold within the domain, one share too few misses by exactly this much. */
  lemma MissedBy(shares: seq<DecryptionShareSimple>, chosen: seq<Validator>, validators: seq<Validator>,
                 t: Transcript, d: Domain, threshold: nat, c: Ciphertext)
    requires AcceptedFull(t.coeffs, t.shares, validators, d, threshold) && threshold <= d.size
    requires Selected(chosen, validators) && |chosen| == threshold - 1
    requires AllVerify(shares, chosen, t, c)
    ensures Sub(Mul(c.commitment, t.coeffs[0]), Combined(shares, chosen, d)) ==
            Mul(c.commitment, Mul(t.coeffs[threshold - 1], ProductSeq(Differences(PointsOf(chosen, d), 0))))
  {
    PointsOfSelected(chosen, validators, t, d, threshold);
    VerifiedShareValues(shares, chosen, validators, t, d, threshold, c);
    ResizedValues(t.coeffs, d.size, PointsOf(chosen, d));
    OneShareShort(t.coeffs, PointsOf(chosen, d), c.commitment);
  }

  lemma PointProductNonzero(chosen: seq<Validator>, d: Domain)
    ensures ProductSeq(Differences(PointsOf(chosen, d), 0)) != 0
  {
    var u := PointsOf(chosen, d);
    forall i | 0 <= i < |u| ensures Differences(u, 0)[i] != 0 {
      PointNonzero(d, chosen[i].shareIndex);
      SubZeroIffEqual(0, u[i]);
    }
    ProductSeqNonzero(Differences(u, 0));
  }

  /**
   The number of shares that recover the secret: the committed polynomial has this many
   coefficients when those beyond the size of the domain, which the transform drops, and the
   zeros above the last other one are left out.
   */
  function EffectiveThreshold(coeffs: seq<G1>, d: Domain): nat {
    PinnedLength(Resize(coeffs, d.size))
  }

  /** The coefficients that the shares depend on */
  function EffectiveCoefficients(coeffs: seq<G1>, d: Domain): Vec {
    Resize(coeffs, EffectiveThreshold(coeffs, d))
  }

  lemma EffectiveShape(coeffs: seq<G1>, d: Domain)
    requires coeffs != [] && coeffs[0] != 0 && coeffs[|coeffs| - 1] != 0
    ensures var m, f := EffectiveThreshold(coeffs, d), EffectiveCoefficients(coeffs, d);
            && 1 <= m <= |coeffs| && m <= d.size && (m == |coeffs| <==> |coeffs| <= d.size)
            && |f| == m && f[0] == coeffs[0] && f[m - 1] != 0
    ensures forall x :: Eval(EffectiveCoefficients(coeffs, d), x) == Eval(Resize(coeffs, d.size), x)
  {
    var whole, m, f := Resize(coeffs, d.size), EffectiveThreshold(coeffs, d), EffectiveCoefficients(coeffs, d);
    SizePositive(d);
    PinnedLengthBound(whole);
    PinnedLengthIs(whole, m);
    assert whole[0] == coeffs[0];
    if |coeffs| <= d.size {
      PinnedLengthIs(whole, |coeffs|);
    }
    forall x ensures Eval(f, x) == Eval(whole, x) {
      EvalExt(f, whole, x);
    }
  }

  /**
   With the threshold within the domain, verified shares of an accepted transcript combine to
   the secret from the threshold on, and one below it they never do.  Without it, the same
   holds of a smaller number, which does not exceed the size of the domain; one share below
   the threshold then suffices.
   */
  lemma ThresholdIsExact(shares: seq<DecryptionShareSimple>, chosen: seq<Validator>, validators: seq<Validator>,
                         t: Transcript, d: Domain, threshold: nat, c: Ciphertext)
    requires AcceptedFull(t.coeffs, t.shares, validators, d, threshold)
    requires Selected(chosen, validators) && AllVerify(shares, chosen, t, c) && c.commitment != 0
    ensures var m := EffectiveThreshold(t.coeffs, d);
            && 1 <= m <= threshold && m <= d.size && (m == threshold <==> threshold <= d.size)
            && (|chosen| >= m ==> Combined(shares, chosen, d) == Mul(c.commitment, t.coeffs[0]))
            && (|chosen| == m - 1 ==> Combined(shares, chosen, d) != Mul(c.commitment, t.coeffs[0]))
    ensures |chosen| == threshold - 1 ==>
              (Combined(shares, chosen, d) != Mul(c.commitment, t.coeffs[0]) <==> threshold <= d.size)
  {
    var u, f, m := PointsOf(chosen, d), EffectiveCoefficients(t.coeffs, d), EffectiveThreshold(t.coeffs, d);
    var secret := Mul(c.commitment, t.coeffs[0]);
    assert |t.coeffs| == threshold;
    EffectiveShape(t.coeffs, d);
    PointsOfSelected(chosen, validators, t, d, threshold);
    VerifiedShareValues(shares, chosen, validators, t, d, threshold, c);
    assert Values(Resize(t.coeffs, d.size), u) == Values(f, u) && |u| == |chosen|;
    PointProductNonzero(chosen, d);
    assert Combined(shares, chosen, d) == ShareCombineSimple(ScaledBy(c.commitment, Values(f, u)), PrepareCombineSimple(u));
    assert Coeff(f, 0) == f[0];
    hide *;
    if |chosen| >= m {
      SharesReconstruct(f, u, c.commitment);
    } else if |chosen| == m - 1 {
      OneShareShort(f, u, c.commitment);
      NoZeroDivisors(f[m - 1], ProductSeq(Differences(u, 0)));
      NoZeroDivisors(c.commitment, Mul(f[m - 1], ProductSeq(Differences(u, 0))));
      SubZeroIffEqual(secret, Combined(shares, chosen, d));
    }
  }

  /** Such a transcript exists: threshold 2 over the domain with one point. */
  lemma AcceptedBeyondDomain()
    ensures IsDomain(DomainParameters(1, 1))
    ensures DoVerifyFull([1, 1], [1], [Validator("", 1, 0)], DomainParameters(1, 1), 2) == Ok(true)
  {
    TrivialDomain();
    var d: Domain, coeffs, validators := DomainParameters(1, 1), [1, 1], [Validator("", 1, 0)];
    assert Resize(coeffs, 1) == [1];
    EvalConst(1, Pow(d.omega, 0));
    MulOne(1);
    FullVerificationIsExact(coeffs, [1], validators, d, 2);
  }
}
