/**
 Sharings of values, usually those of a polynomial, among the holders of a transcript's
 slots, and what the decryption shares combine to that they create.
 */
module Sharings {
  import opened Wrappers
  import opened PrimeField
  import opened Sums
  import opened Polynomial
  import opened Interpolation
  import opened EvaluationDomain
  import opened Counting
  import opened Groups
  import opened Combine
  import opened Ciphertext
  import opened DecryptionShares
  import opened Pvss
  import opened EndToEnd

  function PublicKeys(holders: map<nat, Elem>): map<nat, G2> {
    map i | i in holders :: PublicKeyOf(holders[i])
  }

  /** Slot i has a nonzero key and holds the i-th value, blinded with that key. */
  ghost predicate HoldsValue(values: Vec, shares: seq<G2>, keys: map<nat, G2>, i: nat) {
    && i < |values| == |shares|
    && i in keys && keys[i] != 0 && shares[i] == Mul(values[i], keys[i])
  }

  /** There are a key and a value for each of the slots 0..n-1, and the slots in the given set hold theirs. */
  ghost predicate IsSharingOf(values: Vec, shares: seq<G2>, keys: map<nat, G2>, on: set<nat>) {
    && |values| == |shares|
    && (forall i :: i in keys <==> 0 <= i < |shares|)
    && forall i :: i in on ==> HoldsValue(values, shares, keys, i)
  }

  /** The values of g that the slots 0..n-1 hold if g is shared over the domain d */
  function ValuesOver(g: Vec, d: Domain, n: nat): Vec {
    Values(g, Elements(d, n))
  }

  // ---- The shares that the holders create ---------------------------------------------------

  /**
   A holder creates a share exactly for an existing slot, with a nonzero key and for a header
   that passes its check; the errors are reported in this order.  The share is U to the
   unblinded slot, and the checksum is U without the key.
   */
  lemma ShareFromIsExact(t: Transcript, index: nat, key: Elem, h: CiphertextHeader, aad: Bytes)
    ensures var s := ShareFrom(t, index, key, h, aad);
            && (s.Ok? <==> index < |t.shares| && key != 0 && Check(h, aad) == Ok(true))
            && (s.Ok? ==>
                && Mul(s.value.decryptionShare, key) == Mul(h.commitment, t.shares[index])
                && Mul(s.value.checksum, key) == h.commitment)
            && (s.Err? ==>
                s.error == if index >= |t.shares| then InvalidShareIndex(index)
                           else if key == 0 then InvalidValidatorDecryptionKey
                           else CiphertextVerificationFailed)
  {
    CheckIsExact(h, aad);
    if index < |t.shares| && key != 0 {
      var u, y := h.commitment, t.shares[index];
      hide *;
      Rescaled(y, key);
      MulAssoc(u, Mul(y, Inv(key)), key);
      Rescaled(u, key);
    }
  }

  /** The share created for a slot that holds a value is U to that value. */
  lemma CreatedShareValue(values: Vec, t: Transcript, holders: map<nat, Elem>, i: nat, h: CiphertextHeader, aad: Bytes)
    requires HoldsValue(values, t.shares, PublicKeys(holders), i) && Check(h, aad) == Ok(true)
    ensures i in holders && ShareFrom(t, i, holders[i], h, aad).Ok?
    ensures ShareFrom(t, i, holders[i], h, aad).value.decryptionShare == Mul(h.commitment, values[i])
  {
    var key, v := holders[i], values[i];
    PublicKeyIs(key);
    ShareFromIsExact(t, i, key, h, aad);
    var s := ShareFrom(t, i, key, h, aad).value.decryptionShare;
    assert Mul(s, key) == Mul(h.commitment, Mul(v, key));
    hide *;
    MulAssoc(h.commitment, v, key);
    CancelRight(s, key);
    CancelRight(Mul(h.commitment, v), key);
  }

  function SlotPoints(slots: seq<nat>, d: Domain): seq<Elem> {
    seq(|slots|, k requires 0 <= k < |slots| => Pow(d.omega, slots[k]))
  }

  ghost predicate AllCreate(t: Transcript, slots: seq<nat>, holders: map<nat, Elem>, h: CiphertextHeader, aad: Bytes) {
    forall k :: 0 <= k < |slots| ==> slots[k] in holders && ShareFrom(t, slots[k], holders[slots[k]], h, aad).Ok?
  }

  function SlotShares(t: Transcript, slots: seq<nat>, holders: map<nat, Elem>, h: CiphertextHeader, aad: Bytes)
    : seq<DecryptionShareSimple>
    requires AllCreate(t, slots, holders, h, aad)
  {
    seq(|slots|, k requires 0 <= k < |slots| => ShareFrom(t, slots[k], holders[slots[k]], h, aad).value)
  }

  /** What the shares that the holders of some slots create combine to */
  function CombinedSlots(t: Transcript, slots: seq<nat>, holders: map<nat, Elem>, d: Domain,
                         h: CiphertextHeader, aad: Bytes): Gt
    requires AllCreate(t, slots, holders, h, aad)
  {
    ShareCombineSimple(ShareValues(SlotShares(t, slots, holders, h, aad)), PrepareCombineSimple(SlotPoints(slots, d)))
  }

  /** The values of the given slots */
  function SlotValues(values: Vec, slots: seq<nat>): Vec {
    seq(|slots|, k requires 0 <= k < |slots| => Coeff(values, slots[k]))
  }

  lemma SlotSharesAreValues(values: Vec, t: Transcript, holders: map<nat, Elem>, slots: seq<nat>,
                            h: CiphertextHeader, aad: Bytes)
    requires IsSharingOf(values, t.shares, PublicKeys(holders), Members(slots)) && Check(h, aad) == Ok(true)
    ensures AllCreate(t, slots, holders, h, aad)
    ensures ShareValues(SlotShares(t, slots, holders, h, aad)) == ScaledBy(h.commitment, SlotValues(values, slots))
  {
    forall k | 0 <= k < |slots|
      ensures slots[k] in holders && ShareFrom(t, slots[k], holders[slots[k]], h, aad).Ok?
      ensures ShareFrom(t, slots[k], holders[slots[k]], h, aad).value.decryptionShare ==
              Mul(h.commitment, SlotValues(values, slots)[k])
    {
      assert slots[k] in Members(slots);
      CreatedShareValue(values, t, holders, slots[k], h, aad);
    }
    hide ShareFrom;
    assert AllCreate(t, slots, holders, h, aad);
  }

  /** Distinct slots, at points of the domain */
  ghost predicate DistinctSlots(slots: seq<nat>, d: Domain) {
    Distinct(slots) && forall k :: 0 <= k < |slots| ==> slots[k] < d.size
  }

  lemma SlotPointsDistinct(slots: seq<nat>, d: Domain)
    requires DistinctSlots(slots, d)
    ensures Distinct(SlotPoints(slots, d)) && 0 !in SlotPoints(slots, d)
  {
    forall i, j | 0 <= i < j < |slots| ensures SlotPoints(slots, d)[i] != SlotPoints(slots, d)[j] {
      if slots[i] < slots[j] {
        PointsDiffer(d, slots[i], slots[j]);
      } else {
        PointsDiffer(d, slots[j], slots[i]);
      }
    }
    forall k | 0 <= k < |slots| ensures SlotPoints(slots, d)[k] != 0 {
      PointNonzero(d, slots[k]);
    }
  }

  lemma SlotsWithin(slots: seq<nat>, d: Domain)
    requires DistinctSlots(slots, d)
    ensures |slots| <= d.size
  {
    var s: seq<int> := slots;
    DistinctInRange(s, 0, d.size);
  }

  // ---- Reconstruction -----------------------------------------------------------------------

  /**
   Whatever values distinct slots hold, over whatever domain they were made: their holders
   can all create their shares, and these combine to U to the values' Lagrange sum at 0, over
   the points of the domain used for combining.
   */
  lemma SharingCombines(values: Vec, t: Transcript, holders: map<nat, Elem>, d: Domain, slots: seq<nat>,
                        h: CiphertextHeader, aad: Bytes)
    requires IsSharingOf(values, t.shares, PublicKeys(holders), Members(slots)) && Check(h, aad) == Ok(true)
    requires DistinctSlots(slots, d)
    ensures AllCreate(t, slots, holders, h, aad)
    ensures CombinedSlots(t, slots, holders, d, h, aad) ==
            Mul(h.commitment, LagrangeSum(SlotPoints(slots, d), SlotValues(values, slots), 0))
  {
    var u, v := SlotPoints(slots, d), SlotValues(values, slots);
    SlotPointsDistinct(slots, d);
    SlotSharesAreValues(values, t, holders, slots, h, aad);
    assert |u| == |v| && CombinedSlots(t, slots, holders, d, h, aad) ==
                         ShareCombineSimple(ScaledBy(h.commitment, v), LagrangeBasis(u, 0));
    hide *;
    CombineScaled(h.commitment, v, LagrangeBasis(u, 0));
    CombineIsLagrangeSum(u, v, 0);
  }

  /** The values of g over the domain, at the given slots */
  lemma SlotValuesOver(g: Vec, slots: seq<nat>, d: Domain, n: nat)
    requires forall k :: 0 <= k < |slots| ==> slots[k] < n
    ensures SlotValues(ValuesOver(g, d, n), slots) == Values(g, SlotPoints(slots, d))
  {
  }

  lemma HoldingSlotsExist(values: Vec, shares: seq<G2>, keys: map<nat, G2>, slots: seq<nat>)
    requires IsSharingOf(values, shares, keys, Members(slots))
    ensures forall k :: 0 <= k < |slots| ==> slots[k] < |shares|
  {
    forall k | 0 <= k < |slots| ensures slots[k] < |shares| {
      assert slots[k] in Members(slots);
    }
  }

  /** Reconstruction from the values of f is exact at 0 if and only if the quotient vanishes there. */
  lemma ReconstructionAtZeroIsExact(f: Vec, u: seq<Elem>)
    requires Distinct(u) && 0 !in u
    ensures LagrangeSum(u, Values(f, u), 0) == Eval(f, 0) <==> Eval(Quotients(f, u), 0) == 0
  {
    var l, q, p := LagrangeSum(u, Values(f, u), 0), Eval(Quotients(f, u), 0), ProductSeq(Differences(u, 0));
    RootPolyVanishes(u, 0);
    EvalRootPoly(u, 0);
    ReconstructionDefect(f, u, 0);
    hide *;
    NoZeroDivisors(q, p);
    AddZero(l);
    if l == Eval(f, 0) {
      AddComm(l, Mul(q, p));
      AddComm(l, 0);
      AddCancel(Mul(q, p), 0, l);
    }
  }

  /**
   The secret is missed by the quotient of g by the polynomial that vanishes on the chosen
   points: the holders of distinct slots can all create their shares, and these combine to
   U to the value of g at 0 exactly when that quotient is zero at 0.
   */
  lemma SharingIsExact(g: Vec, t: Transcript, holders: map<nat, Elem>, d: Domain, slots: seq<nat>,
                       h: CiphertextHeader, aad: Bytes)
    requires IsSharingOf(ValuesOver(g, d, |t.shares|), t.shares, PublicKeys(holders), Members(slots))
    requires DistinctSlots(slots, d) && Check(h, aad) == Ok(true)
    ensures AllCreate(t, slots, holders, h, aad)
    ensures CombinedSlots(t, slots, holders, d, h, aad) == Mul(h.commitment, Eval(g, 0)) <==>
            Eval(Quotients(g, SlotPoints(slots, d)), 0) == 0
  {
    var u, values := SlotPoints(slots, d), ValuesOver(g, d, |t.shares|);
    CheckIsExact(h, aad);
    assert h.commitment != 0;
    hide *;
    HoldingSlotsExist(values, t.shares, PublicKeys(holders), slots);
    SlotPointsDistinct(slots, d);
    SlotValuesOver(g, slots, d, |t.shares|);
    SharingCombines(values, t, holders, d, slots, h, aad);
    ReconstructionAtZeroIsExact(g, u);
    if Mul(h.commitment, LagrangeSum(u, Values(g, u), 0)) == Mul(h.commitment, Eval(g, 0)) {
      MulCancel(h.commitment, LagrangeSum(u, Values(g, u), 0), Eval(g, 0));
    }
  }

  /** From as many slots as g has coefficients, the shares combine to U to its value at 0. */
  lemma SharingReconstructs(g: Vec, t: Transcript, holders: map<nat, Elem>, d: Domain, slots: seq<nat>,
                            h: CiphertextHeader, aad: Bytes)
    requires IsSharingOf(ValuesOver(g, d, |t.shares|), t.shares, PublicKeys(holders), Members(slots))
    requires DistinctSlots(slots, d) && |slots| >= |g| && Check(h, aad) == Ok(true)
    ensures AllCreate(t, slots, holders, h, aad)
    ensures CombinedSlots(t, slots, holders, d, h, aad) == Mul(h.commitment, Eval(g, 0))
  {
    QuotientsShape(g, SlotPoints(slots, d));
    SharingIsExact(g, t, holders, d, slots, h, aad);
  }

  /**
   From one slot too few, they do so exactly when the top coefficient of g is zero, which
   then was not needed.
   */
  lemma SharingOneSlotShort(g: Vec, t: Transcript, holders: map<nat, Elem>, d: Domain, slots: seq<nat>,
                            h: CiphertextHeader, aad: Bytes)
    requires IsSharingOf(ValuesOver(g, d, |t.shares|), t.shares, PublicKeys(holders), Members(slots))
    requires DistinctSlots(slots, d) && |g| == |slots| + 1 && Check(h, aad) == Ok(true)
    ensures AllCreate(t, slots, holders, h, aad)
    ensures CombinedSlots(t, slots, holders, d, h, aad) == Mul(h.commitment, Eval(g, 0)) <==> g[|slots|] == 0
  {
    QuotientsShape(g, SlotPoints(slots, d));
    EvalConst(g[|slots|], 0);
    SharingIsExact(g, t, holders, d, slots, h, aad);
  }
}
