/**
 Share refresh: update transcripts, their verification, and their application to an
 aggregate.  A failed assertion or unwrapping in the source is a panic here.
 */
module Refresh {
  import opened Wrappers
  import opened PrimeField
  import opened Sums
  import opened Polynomial
  import opened Interpolation
  import opened EvaluationDomain
  import opened VectorSums
  import opened Counting
  import opened Groups
  import opened Ciphertext
  import opened Validators
  import opened KeyShares
  import opened Pvss
  import opened Sharings

  datatype ShareUpdate = ShareUpdate(update: G2, commitment: G1) {
    /** e(G, update) == e(commitment, ek) */
    predicate Verify(key: G2) {
      Pairing(G, update) == Pairing(commitment, key)
    }
  }

  datatype UpdateTranscript = UpdateTranscript(coeffs: seq<G1>, updates: map<nat, ShareUpdate>)

  // ---- Verification -----------------------------------------------------------------

  /** Every update is the committed polynomial at its slot, blinded for the slot's key. */
  ghost predicate UpdatesConsistent(t: UpdateTranscript, keys: map<nat, G2>, d: Domain) {
    forall i :: i in t.updates ==>
      && i in keys && i < d.size
      && t.updates[i].commitment == Fft(d, t.coeffs)[i]
      && t.updates[i].update == Mul(t.updates[i].commitment, keys[i])
  }

  ghost predicate UpdateAccepted(t: UpdateTranscript, keys: map<nat, G2>, d: Domain, root: Elem) {
    UpdatesConsistent(t, keys, d) && t.coeffs != [] && Eval(t.coeffs, root) == 0
  }

  /** The only fault of the updates is that some are for slots beyond the domain. */
  ghost predicate OnlyBeyondDomain(t: UpdateTranscript, keys: map<nat, G2>, d: Domain) {
    && (exists i :: i in t.updates && i >= d.size)
    && forall i :: i in t.updates ==>
         && i in keys && t.updates[i].update == Mul(t.updates[i].commitment, keys[i])
         && (i < d.size ==> t.updates[i].commitment == Fft(d, t.coeffs)[i])
  }

  /** An update is valid for a key if it is the commitment's exponent times the key. */
  lemma UpdateCheckIsExact(u: ShareUpdate, key: G2)
    ensures u.Verify(key) <==> u.update == Mul(u.commitment, key)
  {
    PairingWithGenerator(u.update);
  }

  /** Evaluates the commitments at the root, from the top coefficient down. */
  method Horner(coeffs: seq<G1>, root: Elem) returns (acc: G1)
    requires coeffs != []
    ensures acc == Eval(coeffs, root)
  {
    var i := |coeffs| - 1;
    acc := coeffs[i];
    assert coeffs[i..] == [coeffs[i]];
    EvalConst(coeffs[i], root);
    while i > 0
      invariant 0 <= i < |coeffs| && acc == Eval(coeffs[i..], root)
    {
      i := i - 1;
      assert coeffs[i..][1..] == coeffs[i + 1..];
      MulComm(acc, root);
      acc := Add(coeffs[i], Mul(acc, root));
    }
    assert coeffs[0..] == coeffs;
  }

  /** The updates are visited in an arbitrary order. */
  method VerifyRecovery(t: UpdateTranscript, keys: map<nat, G2>, d: Domain, root: Elem) returns (o: Outcome<bool>)
    ensures o == Returned(true) <==> UpdateAccepted(t, keys, d, root)
    ensures o.Returned? ==> o.value
    ensures o.Failed? ==> exists i :: i in t.updates && i >= d.size && o.error == InvalidShareIndex(i)
    ensures OnlyBeyondDomain(t, keys, d) ==> o.Failed?
  {
    var reconstructed := Fft(d, t.coeffs);
    var todo: set<nat> := t.updates.Keys;
    while todo != {}
      invariant todo <= t.updates.Keys
      invariant forall i :: i in t.updates && i !in todo ==>
                  && i in keys && i < d.size
                  && t.updates[i].commitment == reconstructed[i]
                  && t.updates[i].update == Mul(t.updates[i].commitment, keys[i])
      decreases |todo|
    {
      var index: nat :| index in todo;
      var update := t.updates[index];
      PairingWithGenerator(update.update);
      if index !in keys {
        return Panicked;
      }
      if !update.Verify(keys[index]) {
        return Panicked;
      }
      if index >= |reconstructed| {
        return Failed(InvalidShareIndex(index));
      }
      if reconstructed[index] != update.commitment {
        return Panicked;
      }
      todo := todo - {index};
    }
    if t.coeffs == [] {
      return Panicked;
    }
    if root == 0 {
      EvalAtZero(t.coeffs);
      if t.coeffs[0] != 0 {
        return Panicked;
      }
    } else {
      var acc := Horner(t.coeffs, root);
      if acc != 0 {
        return Panicked;
      }
    }
    return Returned(true);
  }

  method VerifyRefresh(t: UpdateTranscript, keys: map<nat, G2>, d: Domain) returns (o: Outcome<bool>)
    ensures o == Returned(true) <==> UpdateAccepted(t, keys, d, 0)
    ensures o.Returned? ==> o.value
    ensures o.Failed? ==> exists i :: i in t.updates && i >= d.size && o.error == InvalidShareIndex(i)
    ensures OnlyBeyondDomain(t, keys, d) ==> o.Failed?
  {
    o := VerifyRecovery(t, keys, d, 0);
  }

  // ---- Creating updates ---------------------------------------------------------------

  /** The random polynomial with its constant term replaced so that it vanishes at the root */
  function RootedPolynomial(random: seq<Elem>, root: Elem): Option<Vec> {
    var p := Trim(random);
    if p == [] then None else Some(p[0 := Neg(Eval(p[0 := 0], root))])
  }

  method MakeRandomPolynomialWithRoot(random: seq<Elem>, root: Elem) returns (r: Option<Vec>)
    ensures r == RootedPolynomial(random, root)
    ensures r.Some? <==> exists i :: 0 <= i < |random| && random[i] != 0
    ensures r.Some? ==> Eval(r.value, root) == 0
    ensures r.Some? ==> 0 < |r.value| <= |random| && forall i :: 1 <= i < |random| ==> Coeff(r.value, i) == random[i]
  {
    RootedPolynomialShape(random, root);
    var poly: Vec := Trim(random);
    if poly == [] {
      return None;
    }
    poly := poly[0 := 0];
    var rest := Eval(poly, root);
    var newC0 := Sub(0, rest);
    AddZero(Neg(rest));
    ConstantReplaced(poly, newC0, root);
    assert poly[0 := newC0] == Trim(random)[0 := newC0];
    poly := poly[0 := newC0];
    return Some(poly);
  }

  lemma ConstantReplaced(p: Vec, c: Elem, x: Elem)
    requires p != [] && p[0] == 0 && c == Neg(Eval(p, x))
    ensures Eval(p[0 := c], x) == 0
  {
    var q := p[0 := c];
    assert q[1..] == p[1..];
    AddZero(Mul(x, Eval(p[1..], x)));
    SubSelf(Eval(p, x));
  }

  /** There is a polynomial unless all random coefficients are zero, and it has all of them but the constant one. */
  lemma RootedPolynomialShape(random: seq<Elem>, root: Elem)
    ensures RootedPolynomial(random, root).Some? <==> exists i :: 0 <= i < |random| && random[i] != 0
    ensures RootedPolynomial(random, root).Some? ==>
              var p := RootedPolynomial(random, root).value;
              0 < |p| <= |random| && forall i :: 1 <= i < |random| ==> Coeff(p, i) == random[i]
  {
    TrimmedAway(random);
    TrimLength(random);
    forall i | 0 <= i < |random| ensures Coeff(Trim(random), i) == random[i] {
      CoeffTrim(random, i);
    }
  }

  lemma RootedPolynomialVanishes(random: seq<Elem>, root: Elem)
    requires RootedPolynomial(random, root).Some?
    ensures Eval(RootedPolynomial(random, root).value, root) == 0
  {
    var p := Trim(random)[0 := 0];
    ConstantReplaced(p, Neg(Eval(p, root)), root);
    assert p[0 := Neg(Eval(p, root))] == Trim(random)[0 := Neg(Eval(p, root))];
  }

  /** Commitments to the polynomial and an update for every listed participant */
  function PrepareShareUpdates(participants: map<nat, (Elem, G2)>, poly: Vec): UpdateTranscript {
    UpdateTranscript(
      seq(|poly|, i requires 0 <= i < |poly| => Mul(G, poly[i])),
      map i | i in participants ::
        ShareUpdate(Mul(participants[i].1, Eval(poly, participants[i].0)), Mul(G, Eval(poly, participants[i].0))))
  }

  /**
   The commitments are to the given polynomial, and there is an update for each participant:
   the polynomial's value at its point, and this value times its key.
   */
  lemma PreparedUpdatesAreValues(participants: map<nat, (Elem, G2)>, poly: Vec)
    ensures var t := PrepareShareUpdates(participants, poly);
            && t.coeffs == poly && t.updates.Keys == participants.Keys
            && forall i :: i in participants ==>
                 var e := Eval(poly, participants[i].0);
                 t.updates[i].commitment == e && t.updates[i].update == Mul(e, participants[i].1)
  {
    var t := PrepareShareUpdates(participants, poly);
    forall i | 0 <= i < |poly| ensures t.coeffs[i] == poly[i] {
      MulOne(poly[i]);
    }
    forall i | i in participants
      ensures t.updates[i].commitment == Eval(poly, participants[i].0)
      ensures t.updates[i].update == Mul(Eval(poly, participants[i].0), participants[i].1)
    {
      MulOne(Eval(poly, participants[i].0));
      MulComm(participants[i].1, Eval(poly, participants[i].0));
    }
  }

  /**
   For any root, zero or not, and any random coefficients, the transcript prepared for
   participants at the points of the domain passes verification with that root.
   */
  lemma PreparedUpdatesVerify(participants: map<nat, (Elem, G2)>, keys: map<nat, G2>, d: Domain,
                              random: seq<Elem>, root: Elem)
    requires RootedPolynomial(random, root).Some? && |random| <= d.size
    requires forall i :: i in participants ==>
               && i < d.size && participants[i].0 == Pow(d.omega, i)
               && i in keys && keys[i] == participants[i].1
    ensures var t := PrepareShareUpdates(participants, RootedPolynomial(random, root).value);
            UpdateAccepted(t, keys, d, root) && t.updates.Keys == participants.Keys
  {
    var poly := RootedPolynomial(random, root).value;
    var t := PrepareShareUpdates(participants, poly);
    TrimLength(random);
    RootedPolynomialVanishes(random, root);
    PreparedUpdatesAreValues(participants, poly);
    forall i | i in t.updates
      ensures t.updates[i].commitment == Fft(d, t.coeffs)[i]
      ensures t.updates[i].update == Mul(t.updates[i].commitment, keys[i])
    {
      FftEvaluates(d, poly, i);
    }
  }

  // ---- Applying updates ---------------------------------------------------------------

  function UpdateAt(i: nat): UpdateTranscript -> Elem {
    (t: UpdateTranscript) => if i in t.updates then t.updates[i].update else 0
  }

  /** The share plus all updates for its slot; None stands for a panic. */
  function ApplyShareUpdates(share: BlindedKeyShare, updates: seq<UpdateTranscript>, index: nat)
    : Option<BlindedKeyShare>
  {
    if forall k :: 0 <= k < |updates| ==>
         index in updates[k].updates && updates[k].updates[index].Verify(share.validatorPublicKey)
    then
      Some(BlindedKeyShare(share.validatorPublicKey,
                           Add(share.blindedKeyShare, SumSeq(Mapped(UpdateAt(index), updates)))))
    else None
  }

  /**
   Applying updates by itself, to any transcripts: every one needs an update for the slot that
   is valid for the share's key; only then the share gains their sum.
   */
  lemma ApplyIsExact(share: BlindedKeyShare, updates: seq<UpdateTranscript>, index: nat)
    ensures var r := ApplyShareUpdates(share, updates, index);
            && (r.Some? <==> forall k :: 0 <= k < |updates| ==>
                  && index in updates[k].updates
                  && updates[k].updates[index].update == Mul(updates[k].updates[index].commitment, share.validatorPublicKey))
            && (r.Some? ==>
                && r.value.validatorPublicKey == share.validatorPublicKey
                && r.value.blindedKeyShare == Add(share.blindedKeyShare, SumSeq(UpdatesFor(updates, index))))
  {
    forall k | 0 <= k < |updates| && index in updates[k].updates
      ensures updates[k].updates[index].Verify(share.validatorPublicKey) <==>
              updates[k].updates[index].update == Mul(updates[k].updates[index].commitment, share.validatorPublicKey)
    {
      UpdateCheckIsExact(updates[k].updates[index], share.validatorPublicKey);
    }
    if ApplyShareUpdates(share, updates, index).Some? {
      assert Mapped(UpdateAt(index), updates) == UpdatesFor(updates, index);
    }
  }

  /** The updates that some transcripts have for one slot */
  ghost function UpdatesFor(updates: seq<UpdateTranscript>, index: nat): seq<G2> {
    seq(|updates|, k requires 0 <= k < |updates| =>
          if index in updates[k].updates then updates[k].updates[index].update else 0)
  }

  ghost predicate Covers(u: UpdateTranscript, keys: map<nat, G2>) {
    forall i :: i in keys ==> i in u.updates
  }

  /** All updates are accepted, over the domain for the transcript's shares, and cover every listed slot of it. */
  ghost predicate Refreshable(t: Transcript, updates: seq<UpdateTranscript>, keys: map<nat, G2>) {
    && SharesDomain(t).Some?
    && (forall u :: u in updates ==> UpdateAccepted(u, keys, SharesDomain(t).value, 0) && Covers(u, keys))
    && (forall i :: i in keys ==> i < |t.shares|)
  }

  /** The listed shares, updated, in the order of their slots; coefficients and sigma stay as they were. */
  function Refreshed(t: Transcript, updates: seq<UpdateTranscript>, keys: map<nat, G2>): Transcript {
    var indices := Sorted(keys.Keys);
    Transcript(
      t.coeffs,
      seq(|indices|, k requires 0 <= k < |indices| => UpdatedShare(t, updates, indices[k])),
      t.sigma)
  }

  /** One share for each key, in the order of the slots: the old share plus the updates for the slot */
  ghost predicate AreUpdatedShares(shares: seq<G2>, t: Transcript, updates: seq<UpdateTranscript>, keys: map<nat, G2>) {
    exists slots: seq<nat> ::
      && Increasing(slots) && Members(slots) == keys.Keys && |shares| == |slots|
      && forall k :: 0 <= k < |slots| ==>
           shares[k] == Add(Coeff(t.shares, slots[k]), SumSeq(UpdatesFor(updates, slots[k])))
  }

  lemma RefreshedIsUpdated(t: Transcript, updates: seq<UpdateTranscript>, keys: map<nat, G2>)
    ensures AreUpdatedShares(Refreshed(t, updates, keys).shares, t, updates, keys)
  {
    var slots := Sorted(keys.Keys);
    forall k | 0 <= k < |slots|
      ensures Refreshed(t, updates, keys).shares[k] == Add(Coeff(t.shares, slots[k]), SumSeq(UpdatesFor(updates, slots[k])))
    {
      assert Mapped(UpdateAt(slots[k]), updates) == UpdatesFor(updates, slots[k]);
    }
  }

  function UpdatedShare(t: Transcript, updates: seq<UpdateTranscript>, i: nat): G2 {
    Add(Coeff(t.shares, i), SumSeq(Mapped(UpdateAt(i), updates)))
  }

  lemma AcceptedUpdateApplies(t: UpdateTranscript, keys: map<nat, G2>, d: Domain, i: nat)
    requires UpdateAccepted(t, keys, d, 0) && i in t.updates
    ensures i in keys && t.updates[i].Verify(keys[i])
  {
    PairingWithGenerator(t.updates[i].update);
  }

  /** The update transcripts are given in the order in which the map is iterated. */
  method RefreshTranscript(t: Transcript, updates: seq<UpdateTranscript>, keys: map<nat, G2>)
    returns (r: Option<Transcript>)
    ensures r.Some? <==> Refreshable(t, updates, keys)
    ensures r.Some? ==>
              && r.value.coeffs == t.coeffs && r.value.sigma == t.sigma
              && AreUpdatedShares(r.value.shares, t, updates, keys)
    ensures r.Some? ==> r.value == Refreshed(t, updates, keys)
  {
    hide AreUpdatedShares, UpdatedShare, UpdateAccepted, Covers, Sorted;
    RefreshedIsUpdated(t, updates, keys);
    var constructed := SharesDomain(t);
    if constructed.None? {
      return None;
    }
    var d := constructed.value;
    for k := 0 to |updates|
      invariant forall u :: u in updates[..k] ==> UpdateAccepted(u, keys, d, 0)
    {
      var o := VerifyRefresh(updates[k], keys, d);
      if o != Returned(true) {
        return None;
      }
      assert updates[..k + 1] == updates[..k] + [updates[k]];
    }
    assert updates[..|updates|] == updates;
    var shares := UpdateShares(t, updates, keys, d);
    if shares.None? {
      return None;
    }
    return Some(Transcript(t.coeffs, shares.value, t.sigma));
  }

  method UpdateShares(t: Transcript, updates: seq<UpdateTranscript>, keys: map<nat, G2>, ghost d: Domain)
    returns (r: Option<seq<G2>>)
    requires SharesDomain(t) == Some(d) && forall u :: u in updates ==> UpdateAccepted(u, keys, d, 0)
    ensures r.Some? <==> Refreshable(t, updates, keys)
    ensures r.Some? ==> r.value == Refreshed(t, updates, keys).shares
  {
    hide Refreshable, SlotRefreshable, UpdatedShare, UpdateAccepted, Refreshed, Sorted;
    AllSlotsApply(t, updates, keys, d);
    var indices := Sorted(keys.Keys);
    var shares: seq<G2> := [];
    for k := 0 to |indices|
      invariant |shares| == k && forall j :: 0 <= j < k ==> shares[j] == UpdatedShare(t, updates, indices[j])
      invariant forall j :: 0 <= j < k ==> SlotRefreshable(t, updates, indices[j])
    {
      assert indices[k] in Members(indices);
      var share := UpdateShare(t, updates, keys, d, indices[k]);
      if share.None? {
        return None;
      }
      shares := shares + [share.value];
    }
    RefreshedFromSorted(t, updates, keys, shares);
    return Some(shares);
  }

  lemma RefreshedFromSorted(t: Transcript, updates: seq<UpdateTranscript>, keys: map<nat, G2>, shares: seq<G2>)
    requires |shares| == |Sorted(keys.Keys)|
    requires forall j :: 0 <= j < |shares| ==> shares[j] == UpdatedShare(t, updates, Sorted(keys.Keys)[j])
    ensures shares == Refreshed(t, updates, keys).shares
    ensures forall i :: i in keys ==> i in Sorted(keys.Keys)
  {
    hide UpdatedShare;
    assert forall i :: i in keys ==> i in Members(Sorted(keys.Keys));
  }

  method UpdateShare(t: Transcript, updates: seq<UpdateTranscript>, keys: map<nat, G2>, ghost d: Domain, index: nat)
    returns (r: Option<G2>)
    requires index in keys && forall u :: u in updates ==> UpdateAccepted(u, keys, d, 0)
    ensures r.Some? <==> SlotRefreshable(t, updates, index)
    ensures r.Some? ==> r.value == UpdatedShare(t, updates, index)
  {
    SlotApplies(t, updates, keys, d, index);
    var share := GetShareForIndexAndPubkey(t, index, keys[index]);
    if share.Err? {
      return None;
    }
    var updated := ApplyShareUpdates(share.value, updates, index);
    if updated.None? {
      return None;
    }
    return Some(updated.value.blindedKeyShare);
  }

  ghost predicate SlotRefreshable(t: Transcript, updates: seq<UpdateTranscript>, i: nat) {
    i < |t.shares| && forall u :: u in updates ==> i in u.updates
  }

  lemma AllSlotsApply(t: Transcript, updates: seq<UpdateTranscript>, keys: map<nat, G2>, d: Domain)
    requires SharesDomain(t) == Some(d) && forall u :: u in updates ==> UpdateAccepted(u, keys, d, 0)
    ensures Refreshable(t, updates, keys) <==> forall i :: i in keys ==> SlotRefreshable(t, updates, i)
  {
    if forall i :: i in keys ==> SlotRefreshable(t, updates, i) {
      forall u | u in updates ensures Covers(u, keys) {
        forall i | i in keys ensures i in u.updates {
          assert SlotRefreshable(t, updates, i);
        }
      }
    }
  }

  /** Applying the updates to one slot goes through exactly when the slot exists and all updates cover it. */
  lemma SlotApplies(t: Transcript, updates: seq<UpdateTranscript>, keys: map<nat, G2>, d: Domain, i: nat)
    requires forall u :: u in updates ==> UpdateAccepted(u, keys, d, 0)
    requires i in keys
    ensures SlotRefreshable(t, updates, i) <==>
            i < |t.shares| && ApplyShareUpdates(BlindedKeyShare(keys[i], t.shares[i]), updates, i).Some?
  {
    forall u | u in updates && i in u.updates ensures u.updates[i].Verify(keys[i]) {
      AcceptedUpdateApplies(u, keys, d, i);
    }
  }

  // ---- The result does not depend on the iteration order ------------------------------

  lemma RefreshPermutes(t: Transcript, updates: seq<UpdateTranscript>, updates': seq<UpdateTranscript>,
                        keys: map<nat, G2>)
    requires multiset(updates) == multiset(updates')
    ensures Refreshable(t, updates, keys) <==> Refreshable(t, updates', keys)
    ensures Refreshed(t, updates, keys) == Refreshed(t, updates', keys)
  {
    forall u ensures u in updates <==> u in updates' {
      assert u in multiset(updates) <==> u in multiset(updates');
    }
    hide UpdateAccepted, Covers;
    forall i: nat ensures UpdatedShare(t, updates, i) == UpdatedShare(t, updates', i) {
      MappedPermutation(UpdateAt(i), updates, updates');
    }
    assert Refreshed(t, updates, keys).shares == Refreshed(t, updates', keys).shares;
  }

  // ---- What the refreshed shares are --------------------------------------------------

  lemma SortedRange(s: set<nat>, n: nat)
    requires forall i :: i in s <==> 0 <= i < n
    ensures Sorted(s) == seq(n, i => i)
  {
    var range := seq(n, i => i);
    forall i ensures i in Members(range) <==> i in s {
      if 0 <= i < n {
        assert range[i] == i;
      }
    }
    SortedUnique(Sorted(s), range);
  }

  function UpdateVectors(updates: seq<UpdateTranscript>): seq<Vec> {
    seq(|updates|, k requires 0 <= k < |updates| => updates[k].coeffs)
  }

  lemma UpdateVectorLengths(updates: seq<UpdateTranscript>, m: nat)
    requires forall u :: u in updates ==> |u.coeffs| <= m
    ensures forall k :: 0 <= k < |updates| ==> |UpdateVectors(updates)[k]| <= m
  {
    forall k | 0 <= k < |updates| ensures |UpdateVectors(updates)[k]| <= m {
      assert updates[k] in updates;
    }
  }

  /** What slot i receives is the blinded sum of the update polynomials at its point. */
  lemma UpdateSum(t: Transcript, updates: seq<UpdateTranscript>, keys: map<nat, G2>, e: Domain, i: nat)
    requires Refreshable(t, updates, keys) && SharesDomain(t) == Some(e) && i in keys
    ensures i < e.size
    ensures SumSeq(Mapped(UpdateAt(i), updates)) == Mul(SumSeq(Mapped(FftAt(e, i), UpdateVectors(updates))), keys[i])
  {
    var commitment := (u: UpdateTranscript) => Fft(e, u.coeffs)[i];
    forall k | 0 <= k < |updates| ensures UpdateAt(i)(updates[k]) == Mul(commitment(updates[k]), keys[i]) {
      assert updates[k] in updates;
    }
    MappedScale(commitment, UpdateAt(i), keys[i], updates);
    MappedExt(commitment, FftAt(e, i), updates, UpdateVectors(updates));
  }

  lemma RefreshedShare(t: Transcript, updates: seq<UpdateTranscript>, keys: map<nat, G2>, i: nat)
    requires (forall j :: j in keys <==> 0 <= j < |t.shares|) && i < |t.shares|
    ensures |Refreshed(t, updates, keys).shares| == |t.shares|
    ensures Refreshed(t, updates, keys).shares[i] == Add(t.shares[i], SumSeq(Mapped(UpdateAt(i), updates)))
  {
    SortedRange(keys.Keys, |t.shares|);
  }

  /**
   Against F plus all update commitments, the slot is valid exactly when the domain that the
   refresh constructed and the domain of the verification give the updates the same value there.
   */
  lemma RefreshedSlot(t: Transcript, updates: seq<UpdateTranscript>, keys: map<nat, G2>, d: Domain, e: Domain,
                      i: nat, m: nat)
    requires Refreshable(t, updates, keys) && SharesDomain(t) == Some(e)
    requires forall j :: j in keys <==> 0 <= j < |t.shares|
    requires i < |t.shares| && SlotValid(t.coeffs, t.shares, d, i, keys[i]) && keys[i] != 0
    requires |t.coeffs| <= m && forall u :: u in updates ==> |u.coeffs| <= m
    ensures SlotValid(SumOf([t.coeffs] + UpdateVectors(updates), m), Refreshed(t, updates, keys).shares, d, i, keys[i]) <==>
            SumSeq(Mapped(FftAt(d, i), UpdateVectors(updates))) == SumSeq(Mapped(FftAt(e, i), UpdateVectors(updates)))
  {
    var cs := UpdateVectors(updates);
    RefreshedShare(t, updates, keys, i);
    UpdateSum(t, updates, keys, e, i);
    UpdateVectorLengths(updates, m);
    FftOfSum(d, [t.coeffs] + cs, m, i);
    MappedCons(FftAt(d, i), t.coeffs, cs);
    SumOfBlinded(Fft(d, t.coeffs)[i], keys[i], SumSeq(Mapped(FftAt(e, i), cs)), keys[i],
                 SumSeq(Mapped(FftAt(d, i), cs)));
  }

  /** v k + u l == (v + w) k exactly when u l == w k. */
  lemma SumOfBlinded(v: Elem, k: Elem, u: Elem, l: Elem, w: Elem)
    requires k != 0
    ensures Add(Mul(v, k), Mul(u, l)) == Mul(Add(v, w), k) <==> Mul(u, l) == Mul(w, k)
    ensures Mul(u, k) == Mul(w, k) <==> u == w
  {
    MulComm(Add(v, w), k);
    Distrib(k, v, w);
    MulComm(v, k);
    MulComm(w, k);
    MulComm(u, k);
    if Add(Mul(v, k), Mul(u, l)) == Add(Mul(v, k), Mul(w, k)) {
      AddComm(Mul(v, k), Mul(u, l));
      AddComm(Mul(v, k), Mul(w, k));
      AddCancel(Mul(u, l), Mul(w, k), Mul(v, k));
    }
    if Mul(u, k) == Mul(w, k) {
      MulCancel(k, u, w);
    }
  }

  /** Against the unchanged F it is valid exactly when the updates of the slot add up to zero. */
  lemma RefreshedSlotAgainstOldCoeffs(t: Transcript, updates: seq<UpdateTranscript>, keys: map<nat, G2>,
                                      d: Domain, e: Domain, i: nat)
    requires Refreshable(t, updates, keys) && SharesDomain(t) == Some(e)
    requires forall j :: j in keys <==> 0 <= j < |t.shares|
    requires i < |t.shares| && SlotValid(t.coeffs, t.shares, d, i, keys[i]) && keys[i] != 0
    ensures SlotValid(Refreshed(t, updates, keys).coeffs, Refreshed(t, updates, keys).shares, d, i, keys[i]) <==>
            SumSeq(Mapped(FftAt(e, i), UpdateVectors(updates))) == 0
  {
    var u, a := SumSeq(Mapped(FftAt(e, i), UpdateVectors(updates))), Fft(d, t.coeffs)[i];
    RefreshedShare(t, updates, keys, i);
    UpdateSum(t, updates, keys, e, i);
    SumOfBlinded(a, keys[i], u, keys[i], 0);
    AddComm(a, 0);
    AddZero(a);
  }

  // ---- Whether a refreshed transcript verifies ------------------------------------------

  /** The keys by slot are those of the listed validators, and every slot is listed. */
  ghost predicate AreKeysOf(keys: map<nat, G2>, validators: seq<Validator>, n: nat) {
    && (forall i :: i in keys <==> 0 <= i < n)
    && (forall k :: 0 <= k < |validators| ==>
          validators[k].shareIndex in keys && keys[validators[k].shareIndex] == validators[k].publicKey)
    && forall i :: i in keys ==> i in Indices(validators)
  }

  /** The slots of an accepted transcript, by index rather than by validator */
  lemma SlotsByIndex(coeffs: seq<G1>, shares: seq<G2>, validators: seq<Validator>, keys: map<nat, G2>, d: Domain)
    requires AreKeysOf(keys, validators, |shares|) && forall i :: i in keys ==> keys[i] != 0
    ensures (forall k :: 0 <= k < |validators| ==>
               validators[k].publicKey != 0 &&
               SlotValid(coeffs, shares, d, validators[k].shareIndex, validators[k].publicKey)) <==>
            (forall i :: 0 <= i < |shares| ==> SlotValid(coeffs, shares, d, i, keys[i]))
  {
    if forall k :: 0 <= k < |validators| ==>
        validators[k].publicKey != 0 && SlotValid(coeffs, shares, d, validators[k].shareIndex, validators[k].publicKey)
    {
      forall i | 0 <= i < |shares| ensures SlotValid(coeffs, shares, d, i, keys[i]) {
        assert i in keys;
        var k := IndexOf(Indices(validators), i);
        assert validators[k].shareIndex == i;
      }
    }
  }

  lemma ListedKeysNonzero(t: Transcript, validators: seq<Validator>, keys: map<nat, G2>, d: Domain, threshold: nat)
    requires AcceptedFull(t.coeffs, t.shares, validators, d, threshold) && AreKeysOf(keys, validators, |t.shares|)
    ensures forall i :: i in keys ==> keys[i] != 0
    ensures forall i :: 0 <= i < |t.shares| ==> SlotValid(t.coeffs, t.shares, d, i, keys[i])
    ensures |t.shares| <= d.size
  {
    forall i | i in keys ensures keys[i] != 0 && i < d.size {
      var k := IndexOf(Indices(validators), i);
      assert validators[k].shareIndex == i;
    }
    SlotsByIndex(t.coeffs, t.shares, validators, keys, d);
    if |t.shares| > 0 {
      assert |t.shares| - 1 in keys;
    }
  }

  /**
   The commitments of a refreshed transcript are the old ones: it passes full verification,
   over whatever domain the original did, exactly when the updates of every slot add up to zero.
   */
  lemma RefreshedAgainstOldCoeffs(t: Transcript, updates: seq<UpdateTranscript>, validators: seq<Validator>,
                                  keys: map<nat, G2>, d: Domain, e: Domain, threshold: nat)
    requires AcceptedFull(t.coeffs, t.shares, validators, d, threshold) && AreKeysOf(keys, validators, |t.shares|)
    requires Refreshable(t, updates, keys) && SharesDomain(t) == Some(e)
    ensures var t' := Refreshed(t, updates, keys);
            DoVerifyFull(t'.coeffs, t'.shares, validators, d, threshold) == Ok(true) <==>
            forall i :: 0 <= i < |t.shares| ==> SumSeq(Mapped(FftAt(e, i), UpdateVectors(updates))) == 0
  {
    var t' := Refreshed(t, updates, keys);
    ListedKeysNonzero(t, validators, keys, d, threshold);
    RefreshedLength(t, updates, keys);
    forall i | 0 <= i < |t.shares|
      ensures SlotValid(t'.coeffs, t'.shares, d, i, keys[i]) <==>
              SumSeq(Mapped(FftAt(e, i), UpdateVectors(updates))) == 0
    {
      RefreshedSlotAgainstOldCoeffs(t, updates, keys, d, e, i);
    }
    SlotsByIndex(t'.coeffs, t'.shares, validators, keys, d);
    FullVerificationIsExact(t'.coeffs, t'.shares, validators, d, threshold);
    hide SlotValid, Refreshable, DoVerifyFull, FftAt, Mapped;
  }

  /** With no more coefficients than slots, that is when the update polynomials cancel out altogether. */
  lemma RefreshedVerifiesIfUnchanged(t: Transcript, updates: seq<UpdateTranscript>, validators: seq<Validator>,
                                     keys: map<nat, G2>, d: Domain, threshold: nat)
    requires AcceptedFull(t.coeffs, t.shares, validators, d, threshold) && AreKeysOf(keys, validators, |t.shares|)
    requires Refreshable(t, updates, keys) && forall u :: u in updates ==> |u.coeffs| <= |t.shares|
    ensures var t' := Refreshed(t, updates, keys);
            DoVerifyFull(t'.coeffs, t'.shares, validators, d, threshold) == Ok(true) <==>
            IsZero(SumOf(UpdateVectors(updates), |t.shares|))
  {
    var n, cs, e := |t.shares|, UpdateVectors(updates), SharesDomain(t).value;
    RefreshedAgainstOldCoeffs(t, updates, validators, keys, d, e, threshold);
    UpdateVectorLengths(updates, n);
    hide DoVerifyFull, Refreshed, Refreshable, AcceptedFull, AreKeysOf;
    VanishesOnDomain(cs, n, e);
  }

  lemma VanishesOnDomain(cs: seq<Vec>, n: nat, d: Domain)
    requires n <= d.size && forall k :: 0 <= k < |cs| ==> |cs[k]| <= n
    ensures (forall i :: 0 <= i < n ==> SumSeq(Mapped(FftAt(d, i), cs)) == 0) <==> IsZero(SumOf(cs, n))
  {
    var f, u := SumOf(cs, n), Elements(d, n);
    forall i | 0 <= i < n ensures SumSeq(Mapped(FftAt(d, i), cs)) == Eval(f, u[i]) {
      FftOfSum(d, cs, n, i);
      FftEvaluates(d, f, i);
    }
    ElementsDistinct(d, n);
    hide SumOf, Fft, FftAt;
    if IsZero(f) {
      forall i | 0 <= i < n ensures Eval(f, u[i]) == 0 {
        EvalZero(f, u[i]);
      }
    } else if forall i :: 0 <= i < n ==> SumSeq(Mapped(FftAt(d, i), cs)) == 0 {
      forall i | 0 <= i < |u| ensures Eval(f, u[i]) == 0 {
        assert SumSeq(Mapped(FftAt(d, i), cs)) == 0;
      }
      RootCount(f, u);
    }
  }

  /**
   With the update commitments added to the old ones, the refreshed transcript keeps the
   constant term that sigma belongs to.  It verifies unless the top coefficients cancel, if
   the domain of the verification is the one that the refresh constructed, or at least gives
   the updates the same values.
   */
  lemma RefreshedWithNewCoeffs(t: Transcript, updates: seq<UpdateTranscript>, validators: seq<Validator>,
                               keys: map<nat, G2>, d: Domain, e: Domain, threshold: nat)
    requires AcceptedFull(t.coeffs, t.shares, validators, d, threshold) && AreKeysOf(keys, validators, |t.shares|)
    requires Refreshable(t, updates, keys) && SharesDomain(t) == Some(e)
    requires forall u :: u in updates ==> |u.coeffs| <= threshold
    ensures |t.shares| <= d.size
    ensures var cs, coeffs := UpdateVectors(updates), SumOf([t.coeffs] + UpdateVectors(updates), threshold);
            && coeffs[0] == t.coeffs[0]
            && (DoVerifyFull(coeffs, Refreshed(t, updates, keys).shares, validators, d, threshold) == Ok(true) <==>
                && coeffs[threshold - 1] != 0
                && (d != e ==> forall i :: 0 <= i < |t.shares| ==>
                      SumSeq(Mapped(FftAt(d, i), cs)) == SumSeq(Mapped(FftAt(e, i), cs))))
  {
    var cs, shares, coeffs := UpdateVectors(updates), Refreshed(t, updates, keys).shares,
                              SumOf([t.coeffs] + UpdateVectors(updates), threshold);
    ListedKeysNonzero(t, validators, keys, d, threshold);
    RefreshedLength(t, updates, keys);
    forall i | 0 <= i < |t.shares|
      ensures SlotValid(coeffs, shares, d, i, keys[i]) <==>
              SumSeq(Mapped(FftAt(d, i), cs)) == SumSeq(Mapped(FftAt(e, i), cs))
    {
      RefreshedSlot(t, updates, keys, d, e, i, threshold);
    }
    SlotsByIndex(coeffs, shares, validators, keys, d);
    RefreshableUpdates(t, updates, keys);
    ConstantTermsVanish(updates);
    MappedCons(CoeffOf(0), t.coeffs, cs);
    AddZero(t.coeffs[0]);
    assert |coeffs| == threshold && coeffs[0] == t.coeffs[0];
    FullVerificationIsExact(coeffs, shares, validators, d, threshold);
    hide SlotValid, Refreshable, DoVerifyFull, Refreshed, SumOf, FftAt, Mapped;
  }

  /** The update polynomials vanish at zero, as those of accepted refresh transcripts do. */
  ghost predicate AllVanishAtZero(updates: seq<UpdateTranscript>) {
    forall u :: u in updates ==> u.coeffs != [] && Eval(u.coeffs, 0) == 0
  }

  lemma RefreshableUpdates(t: Transcript, updates: seq<UpdateTranscript>, keys: map<nat, G2>)
    requires Refreshable(t, updates, keys)
    ensures AllVanishAtZero(updates)
  {
  }

  lemma ConstantTermsVanish(updates: seq<UpdateTranscript>)
    requires AllVanishAtZero(updates)
    ensures SumSeq(Mapped(CoeffOf(0), UpdateVectors(updates))) == 0
  {
    var cs := UpdateVectors(updates);
    forall k | 0 <= k < |cs| ensures CoeffOf(0)(cs[k]) == 0 {
      assert updates[k] in updates;
      EvalAtZero(cs[k]);
    }
    MappedZero(CoeffOf(0), cs);
  }

  // ---- Refreshing a sharing ---------------------------------------------------------------

  /** The sum of the update polynomials, as the domain sees them: coefficients beyond its size are dropped. */
  function TotalUpdate(updates: seq<UpdateTranscript>, e: Domain): Vec {
    SumOf(UpdateVectors(updates), e.size)
  }

  /** What the slots 0..n-1 receive in a refresh over the domain e */
  function UpdateValues(updates: seq<UpdateTranscript>, e: Domain, n: nat): Vec {
    ValuesOver(TotalUpdate(updates, e), e, n)
  }

  function Plus(v: Vec, w: Vec): Vec
    requires |v| == |w|
  {
    seq(|v|, i requires 0 <= i < |v| => Add(v[i], w[i]))
  }

  lemma RefreshedLength(t: Transcript, updates: seq<UpdateTranscript>, keys: map<nat, G2>)
    requires forall j :: j in keys <==> 0 <= j < |t.shares|
    ensures |Refreshed(t, updates, keys).shares| == |t.shares|
  {
    SortedRange(keys.Keys, |t.shares|);
  }

  lemma TransformsAreValues(cs: seq<Vec>, d: Domain, i: nat)
    requires i < d.size
    ensures SumSeq(Mapped(FftAt(d, i), cs)) == Eval(SumOf(cs, d.size), Pow(d.omega, i))
  {
    var x := Pow(d.omega, i);
    EvalSumOf(cs, d.size, x);
    MappedExt(FftAt(d, i), ResizedEvalAt(d.size, x), cs, cs);
  }

  /** All keys are there, and those of the given slots are the holders', or make no difference. */
  ghost predicate KeysServe(keys: map<nat, G2>, held: map<nat, G2>, received: Vec, on: set<nat>) {
    && |keys| == |received|
    && forall i :: i in on ==>
         i < |received| && i in keys && i in held && (keys[i] == held[i] || received[i] == 0)
  }

  lemma AllKeysOrFewer(t: Transcript, updates: seq<UpdateTranscript>, keys: map<nat, G2>)
    requires forall i :: i in keys ==> i < |t.shares|
    ensures |Refreshed(t, updates, keys).shares| == |keys|
    ensures |keys| == |t.shares| <==> forall i :: i in keys <==> 0 <= i < |t.shares|
  {
    var s, n := Sorted(keys.Keys), |t.shares|;
    DistinctMembers(s);
    assert |s| == |Members(s)| == |keys.Keys| == |keys|;
    var indices: seq<int> := s;
    forall k | 0 <= k < |s| ensures 0 <= s[k] < n {
      assert s[k] in Members(s);
    }
    if |keys| == n {
      DistinctInRange(indices, 0, n);
      forall i: nat | i < n ensures i in keys {
        IntRangeLaw(0, n);
        assert (i as int) in Members(indices);
        assert i in Members(s);
      }
    } else if forall i :: i in keys <==> 0 <= i < n {
      SortedRange(keys.Keys, n);
    }
  }

  /** What a slot holds after a refresh with any keys */
  lemma RefreshedValue(values: Vec, t: Transcript, updates: seq<UpdateTranscript>, keys: map<nat, G2>,
                       held: map<nat, G2>, e: Domain, i: nat)
    requires Refreshable(t, updates, keys) && SharesDomain(t) == Some(e)
    requires forall j :: j in keys <==> 0 <= j < |t.shares|
    requires HoldsValue(values, t.shares, held, i)
    ensures var received := UpdateValues(updates, e, |values|);
            HoldsValue(Plus(values, received), Refreshed(t, updates, keys).shares, held, i) <==>
            keys[i] == held[i] || received[i] == 0
  {
    var cs, received := UpdateVectors(updates), UpdateValues(updates, e, |values|);
    var u := received[i];
    assert i in keys;
    RefreshedShare(t, updates, keys, i);
    UpdateSum(t, updates, keys, e, i);
    TransformsAreValues(cs, e, i);
    assert u == Eval(TotalUpdate(updates, e), Pow(e.omega, i));
    SumOfBlinded(values[i], held[i], u, keys[i], u);
    MulComm(0, held[i]);
    MulZero(keys[i]);
    MulZero(held[i]);
    if u != 0 && Mul(u, keys[i]) == Mul(u, held[i]) {
      MulCancel(u, keys[i], held[i]);
    }
  }

  /**
   A refresh that returns, with updates of any length, turns a sharing into a sharing of the
   values plus the updates, over the domain that the refresh constructs, exactly when the
   caller's keys serve: there is one for every slot, and those of the slots in question are
   the holders', unless the slot receives zero.
   */
  lemma RefreshKeepsSharing(values: Vec, t: Transcript, updates: seq<UpdateTranscript>, keys: map<nat, G2>,
                            held: map<nat, G2>, e: Domain, on: set<nat>)
    requires Refreshable(t, updates, keys) && SharesDomain(t) == Some(e)
    requires IsSharingOf(values, t.shares, held, on)
    ensures var received := UpdateValues(updates, e, |values|);
            IsSharingOf(Plus(values, received), Refreshed(t, updates, keys).shares, held, on) <==>
            KeysServe(keys, held, received, on)
  {
    var received, shares := UpdateValues(updates, e, |values|), Refreshed(t, updates, keys).shares;
    var values' := Plus(values, received);
    assert |received| == |values| == |values'| == |t.shares|;
    SharingGives(values, t.shares, held, on);
    RefreshableKeys(t, updates, keys);
    hide *;
    AllKeysOrFewer(t, updates, keys);
    if |keys| == |t.shares| {
      forall i | i in on
        ensures i in keys
        ensures HoldsValue(values', shares, held, i) <==> keys[i] == held[i] || received[i] == 0
      {
        RefreshedValue(values, t, updates, keys, held, e, i);
      }
    }
    SharingOrNot(values', shares, keys, held, received, on);
  }

  lemma RefreshableKeys(t: Transcript, updates: seq<UpdateTranscript>, keys: map<nat, G2>)
    requires Refreshable(t, updates, keys)
    ensures forall i :: i in keys ==> i < |t.shares|
  {
  }

  lemma SharingGives(values: Vec, shares: seq<G2>, held: map<nat, G2>, on: set<nat>)
    requires IsSharingOf(values, shares, held, on)
    ensures forall i :: i in held <==> 0 <= i < |shares|
    ensures forall i :: i in on ==> HoldsValue(values, shares, held, i) && i < |shares|
  {
  }

  lemma SharingOrNot(values: Vec, shares: seq<G2>, keys: map<nat, G2>, held: map<nat, G2>, received: Vec, on: set<nat>)
    requires |values| == |received| && |shares| == |keys|
    requires forall i :: i in held <==> 0 <= i < |received|
    requires forall i :: i in on ==> i < |received|
    requires |keys| == |received| ==> forall i :: i in on ==>
               i in keys && (HoldsValue(values, shares, held, i) <==> keys[i] == held[i] || received[i] == 0)
    ensures IsSharingOf(values, shares, held, on) <==> KeysServe(keys, held, received, on)
  {
  }

  /** With the holders' own keys, the refreshed slots hold the values plus the updates. */
  lemma RefreshWithHeldKeys(values: Vec, t: Transcript, updates: seq<UpdateTranscript>, keys: map<nat, G2>,
                            e: Domain, on: set<nat>)
    requires Refreshable(t, updates, keys) && SharesDomain(t) == Some(e)
    requires IsSharingOf(values, t.shares, keys, on)
    ensures |UpdateValues(updates, e, |values|)| == |values|
    ensures IsSharingOf(Plus(values, UpdateValues(updates, e, |values|)), Refreshed(t, updates, keys).shares, keys, on)
  {
    RefreshKeepsSharing(values, t, updates, keys, keys, e, on);
    hide UpdateValues, Refreshed, Refreshable;
    AllKeysOrFewer(t, updates, keys);
    SharingGives(values, t.shares, keys, on);
  }

  /** The polynomial g plus the updates */
  function Updated(g: Vec, updates: seq<UpdateTranscript>, d: Domain): Vec {
    SumOf([g] + UpdateVectors(updates), d.size)
  }

  /** Over one and the same domain, the slots then share g plus the update polynomials, with the same secret. */
  lemma RefreshAddsPolynomials(g: Vec, t: Transcript, updates: seq<UpdateTranscript>, keys: map<nat, G2>, d: Domain,
                               on: set<nat>)
    requires Refreshable(t, updates, keys) && SharesDomain(t) == Some(d) && |g| <= d.size
    requires IsSharingOf(ValuesOver(g, d, |t.shares|), t.shares, keys, on)
    ensures IsSharingOf(ValuesOver(Updated(g, updates, d), d, |t.shares|), Refreshed(t, updates, keys).shares, keys, on)
    ensures Eval(Updated(g, updates, d), 0) == Eval(g, 0)
  {
    var n, values := |t.shares|, ValuesOver(g, d, |t.shares|);
    assert |values| == n;
    RefreshWithHeldKeys(values, t, updates, keys, d, on);
    forall i | 0 <= i < n
      ensures ValuesOver(Updated(g, updates, d), d, n)[i] == Plus(values, UpdateValues(updates, d, n))[i]
    {
      EvalSumSplit(g, UpdateVectors(updates), d.size, Pow(d.omega, i));
    }
    assert ValuesOver(Updated(g, updates, d), d, n) == Plus(values, UpdateValues(updates, d, n));
    EvalUpdatedAtZero(g, t, updates, keys, d);
  }

  lemma EvalUpdatedAtZero(g: Vec, t: Transcript, updates: seq<UpdateTranscript>, keys: map<nat, G2>, d: Domain)
    requires Refreshable(t, updates, keys) && |g| <= d.size
    ensures Eval(Updated(g, updates, d), 0) == Eval(g, 0)
  {
    RefreshableUpdates(t, updates, keys);
    TotalVanishesAtZero(updates, d);
    EvalSumSplit(g, UpdateVectors(updates), d.size, 0);
    AddZero(Eval(g, 0));
  }

  lemma TotalVanishesAtZero(updates: seq<UpdateTranscript>, e: Domain)
    requires AllVanishAtZero(updates)
    ensures Eval(TotalUpdate(updates, e), 0) == 0
  {
    SizePositive(e);
    ConstantTermsVanish(updates);
    EvalAtZero(TotalUpdate(updates, e));
  }

  // ---- Reconstruction after a refresh -------------------------------------------------------

  /**
   How far the updates push what the shares of the given slots combine to: the Lagrange sum,
   over the slots' points in the domain d used for combining, of the values that the updates
   have at the slots' points in the domain e of the refresh.  It is linear in the update
   coefficients, so it can be computed from the commitments before the refresh.
   */
  ghost function UpdateDefect(updates: seq<UpdateTranscript>, slots: seq<nat>, d: Domain, e: Domain): Elem {
    LagrangeSum(SlotPoints(slots, d), Values(TotalUpdate(updates, e), SlotPoints(slots, e)), 0)
  }

  /** The Lagrange sum of values plus updates is that of the values plus the defect. */
  lemma DefectIsAdded(values: Vec, updates: seq<UpdateTranscript>, slots: seq<nat>, d: Domain, e: Domain)
    requires forall k :: 0 <= k < |slots| ==> slots[k] < |values|
    ensures |UpdateValues(updates, e, |values|)| == |values|
    ensures LagrangeSum(SlotPoints(slots, d), SlotValues(Plus(values, UpdateValues(updates, e, |values|)), slots), 0) ==
            Add(LagrangeSum(SlotPoints(slots, d), SlotValues(values, slots), 0), UpdateDefect(updates, slots, d, e))
  {
    var received := UpdateValues(updates, e, |values|);
    SlotValuesOver(TotalUpdate(updates, e), slots, e, |values|);
    LagrangeSumAdd(SlotPoints(slots, d), SlotValues(values, slots), SlotValues(received, slots),
                   SlotValues(Plus(values, received), slots), 0);
  }

  /** U to a sum of values and a defect is off by U to the defect, which is nothing exactly if it is zero. */
  lemma ShiftedBy(u: Elem, l: Elem, defect: Elem)
    requires u != 0
    ensures Mul(u, Add(l, defect)) == Add(Mul(u, l), Mul(u, defect))
    ensures Mul(u, Add(l, defect)) == Mul(u, l) <==> defect == 0
  {
    Distrib(u, l, defect);
    NoZeroDivisors(u, defect);
    AddZero(Mul(u, l));
    if Add(Mul(u, l), Mul(u, defect)) == Mul(u, l) {
      AddComm(Mul(u, l), Mul(u, defect));
      AddComm(0, Mul(u, l));
      AddCancel(Mul(u, defect), 0, Mul(u, l));
    }
  }

  /**
   Whatever the slots shared, over whatever domain, and whatever the number and length of the
   accepted updates: after a refresh with the holders' keys, the holders of distinct slots all
   create shares as before, and what these combine to has moved by U to the defect.
   */
  lemma RefreshIsExact(values: Vec, t: Transcript, updates: seq<UpdateTranscript>, holders: map<nat, Elem>,
                       d: Domain, e: Domain, slots: seq<nat>, h: CiphertextHeader, aad: Bytes)
    requires Refreshable(t, updates, PublicKeys(holders)) && SharesDomain(t) == Some(e)
    requires IsSharingOf(values, t.shares, PublicKeys(holders), Members(slots))
    requires DistinctSlots(slots, d) && Check(h, aad) == Ok(true)
    ensures var t' := Refreshed(t, updates, PublicKeys(holders));
            && AllCreate(t, slots, holders, h, aad) && AllCreate(t', slots, holders, h, aad)
            && CombinedSlots(t', slots, holders, d, h, aad) ==
               Add(CombinedSlots(t, slots, holders, d, h, aad), Mul(h.commitment, UpdateDefect(updates, slots, d, e)))
            && (CombinedSlots(t', slots, holders, d, h, aad) == CombinedSlots(t, slots, holders, d, h, aad) <==>
                UpdateDefect(updates, slots, d, e) == 0)
  {
    var t', keys := Refreshed(t, updates, PublicKeys(holders)), PublicKeys(holders);
    CheckIsExact(h, aad);
    assert h.commitment != 0 && |values| == |t.shares|;
    hide *;
    HoldingSlotsExist(values, t.shares, keys, slots);
    RefreshWithHeldKeys(values, t, updates, keys, e, Members(slots));
    SharingCombines(values, t, holders, d, slots, h, aad);
    SharingCombines(Plus(values, UpdateValues(updates, e, |values|)), t', holders, d, slots, h, aad);
    DefectIsAdded(values, updates, slots, d, e);
    ShiftedBy(h.commitment, LagrangeSum(SlotPoints(slots, d), SlotValues(values, slots), 0),
              UpdateDefect(updates, slots, d, e));
  }

  // ---- The defect over one domain -----------------------------------------------------------

  /**
   If the refresh constructs the domain that is used for combining, there is a defect exactly
   if the quotient of the updates by the polynomial vanishing on the slots' points is not zero at 0.
   */
  lemma DefectOverOneDomain(updates: seq<UpdateTranscript>, slots: seq<nat>, d: Domain)
    requires DistinctSlots(slots, d) && AllVanishAtZero(updates)
    ensures UpdateDefect(updates, slots, d, d) == 0 <==>
            Eval(Quotients(TotalUpdate(updates, d), SlotPoints(slots, d)), 0) == 0
  {
    SlotPointsDistinct(slots, d);
    TotalVanishesAtZero(updates, d);
    hide AllVanishAtZero, TotalUpdate, SlotPoints;
    ReconstructionAtZeroIsExact(TotalUpdate(updates, d), SlotPoints(slots, d));
  }

  /** Updates of at most m coefficients add up to a polynomial of m coefficients. */
  lemma TotalOfShort(updates: seq<UpdateTranscript>, d: Domain, m: nat, x: Elem)
    requires m <= d.size && forall u :: u in updates ==> |u.coeffs| <= m
    ensures Eval(TotalUpdate(updates, d), x) == Eval(SumOf(UpdateVectors(updates), m), x)
  {
    var cs := UpdateVectors(updates);
    UpdateVectorLengths(updates, m);
    forall j: nat ensures Coeff(SumOf(cs, m), j) == Coeff(SumOf(cs, d.size), j) {
      SumOfPadded(cs, m, j);
      SumOfPadded(cs, d.size, j);
    }
    EvalExt(SumOf(cs, m), SumOf(cs, d.size), x);
  }

  lemma DefectOfShort(updates: seq<UpdateTranscript>, slots: seq<nat>, d: Domain, m: nat)
    requires DistinctSlots(slots, d) && AllVanishAtZero(updates)
    requires m <= d.size && forall u :: u in updates ==> |u.coeffs| <= m
    ensures UpdateDefect(updates, slots, d, d) == 0 <==>
            Eval(Quotients(SumOf(UpdateVectors(updates), m), SlotPoints(slots, d)), 0) == 0
  {
    var short, u := SumOf(UpdateVectors(updates), m), SlotPoints(slots, d);
    forall x ensures Eval(TotalUpdate(updates, d), x) == Eval(short, x) {
      TotalOfShort(updates, d, m, x);
    }
    assert Values(TotalUpdate(updates, d), u) == Values(short, u);
    SlotPointsDistinct(slots, d);
    TotalVanishesAtZero(updates, d);
    hide AllVanishAtZero, TotalUpdate, SlotPoints, SumOf;
    ReconstructionAtZeroIsExact(short, u);
  }

  /** Updates with no more coefficients than there are slots have no defect on them. */
  lemma ShortUpdatesHaveNoDefect(updates: seq<UpdateTranscript>, slots: seq<nat>, d: Domain)
    requires DistinctSlots(slots, d) && AllVanishAtZero(updates)
    requires forall u :: u in updates ==> |u.coeffs| <= |slots|
    ensures UpdateDefect(updates, slots, d, d) == 0
  {
    SlotsWithin(slots, d);
    hide AllVanishAtZero, DistinctSlots;
    DefectOfShort(updates, slots, d, |slots|);
    QuotientsShape(SumOf(UpdateVectors(updates), |slots|), SlotPoints(slots, d));
  }

  lemma DefectOfOneMore(updates: seq<UpdateTranscript>, slots: seq<nat>, d: Domain)
    requires DistinctSlots(slots, d) && AllVanishAtZero(updates)
    requires |slots| < d.size && forall u :: u in updates ==> |u.coeffs| <= |slots| + 1
    ensures UpdateDefect(updates, slots, d, d) == 0 <==> SumSeq(Mapped(CoeffOf(|slots|), UpdateVectors(updates))) == 0
  {
    var s, u := SumOf(UpdateVectors(updates), |slots| + 1), SlotPoints(slots, d);
    assert |s| == |u| + 1 && s[|slots|] == SumSeq(Mapped(CoeffOf(|slots|), UpdateVectors(updates)));
    hide *;
    DefectOfShort(updates, slots, d, |slots| + 1);
    QuotientsShape(s, u);
    EvalConst(s[|slots|], 0);
  }

  /** Over the domain of the sharing, updates with no more coefficients than there are slots preserve the secret. */
  lemma RefreshPreservesSecret(g: Vec, t: Transcript, updates: seq<UpdateTranscript>, holders: map<nat, Elem>, d: Domain,
                               slots: seq<nat>, h: CiphertextHeader, aad: Bytes)
    requires Refreshable(t, updates, PublicKeys(holders)) && SharesDomain(t) == Some(d)
    requires IsSharingOf(ValuesOver(g, d, |t.shares|), t.shares, PublicKeys(holders), Members(slots))
    requires DistinctSlots(slots, d) && |g| <= |slots| && Check(h, aad) == Ok(true)
    requires forall u :: u in updates ==> |u.coeffs| <= |slots|
    ensures var t' := Refreshed(t, updates, PublicKeys(holders));
            && AllCreate(t', slots, holders, h, aad)
            && CombinedSlots(t', slots, holders, d, h, aad) == Mul(h.commitment, Eval(g, 0))
  {
    hide *;
    RefreshableUpdates(t, updates, PublicKeys(holders));
    ShortUpdatesHaveNoDefect(updates, slots, d);
    RefreshIsExact(ValuesOver(g, d, |t.shares|), t, updates, holders, d, d, slots, h, aad);
    SharingReconstructs(g, t, holders, d, slots, h, aad);
  }

  /** Updates of one coefficient more do so exactly when these coefficients add up to zero. */
  lemma LongUpdatesRaiseThreshold(g: Vec, t: Transcript, updates: seq<UpdateTranscript>, holders: map<nat, Elem>, d: Domain,
                                  slots: seq<nat>, h: CiphertextHeader, aad: Bytes)
    requires Refreshable(t, updates, PublicKeys(holders)) && SharesDomain(t) == Some(d)
    requires IsSharingOf(ValuesOver(g, d, |t.shares|), t.shares, PublicKeys(holders), Members(slots))
    requires DistinctSlots(slots, d) && |g| <= |slots| < d.size && Check(h, aad) == Ok(true)
    requires forall u :: u in updates ==> |u.coeffs| <= |slots| + 1
    ensures var t' := Refreshed(t, updates, PublicKeys(holders));
            && AllCreate(t', slots, holders, h, aad)
            && (CombinedSlots(t', slots, holders, d, h, aad) == Mul(h.commitment, Eval(g, 0)) <==>
                SumSeq(Mapped(CoeffOf(|slots|), UpdateVectors(updates))) == 0)
  {
    hide *;
    RefreshableUpdates(t, updates, PublicKeys(holders));
    DefectOfOneMore(updates, slots, d);
    RefreshIsExact(ValuesOver(g, d, |t.shares|), t, updates, holders, d, d, slots, h, aad);
    SharingReconstructs(g, t, holders, d, slots, h, aad);
  }
}
