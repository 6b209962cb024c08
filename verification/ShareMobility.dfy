/**
 Refresh and handover over whole runs: a state is an aggregate transcript together with
 the decryption keys of the current holders of its slots, and a run is any sequence of
 refreshes and handovers.
 */
module ShareMobility {
  import opened Wrappers
  import opened PrimeField
  import opened Sums
  import opened Polynomial
  import opened Interpolation
  import opened EvaluationDomain
  import opened VectorSums
  import opened Counting
  import opened Groups
  import opened Ciphertext
  import opened Validators
  import opened Pvss
  import opened Dkg
  import opened Sharings
  import opened Refresh
  import opened Handover

  datatype State = State(transcript: Transcript, holders: map<nat, Elem>)

  /**
   A refresh with the keys that its caller passes, or a handover with the key of whoever
   finalizes it: neither has to be the holders'.
   */
  datatype Step =
    | RefreshBy(updates: seq<UpdateTranscript>, keys: map<nat, G2>)
    | HandOver(handover: HandoverTranscript, departingKey: Elem)

  /**
   One step, or None if the source panics or returns an error.  After a handover, whoever has
   the decryption key of the incoming public key holds the slot.
   */
  ghost function Next(s: State, step: Step): Option<State> {
    match step
    case RefreshBy(updates, keys) =>
      if Refreshable(s.transcript, updates, keys)
      then Some(State(Refreshed(s.transcript, updates, keys), s.holders))
      else None
    case HandOver(h, departingKey) =>
      var o := FinalizeHandover(s.transcript, h, departingKey);
      if o.Returned?
      then Some(State(o.value, s.holders[h.shareIndex := DecryptionKeyOf(h.incomingPubkey)]))
      else None
  }

  ghost function Run(s: State, steps: seq<Step>): Option<State>
    decreases |steps|
  {
    if steps == [] then Some(s)
    else
      var next := Next(s, steps[0]);
      if next.None? then None else Run(next.value, steps[1..])
  }

  function UpdatesIn(step: Step): seq<UpdateTranscript> {
    match step
    case RefreshBy(updates, _) => updates
    case HandOver(_, _) => []
  }

  /** All updates that a run applies */
  function UpdatesOf(steps: seq<Step>): seq<UpdateTranscript> {
    if steps == [] then [] else UpdatesIn(steps[0]) + UpdatesOf(steps[1..])
  }

  /**
   For the given slots, a refresh uses the holders' keys, or others that make no difference,
   and a handover carries the slot's share.  Other slots may be handed over as one pleases.
   */
  ghost predicate Sound(s: State, step: Step, on: set<nat>, e: Domain) {
    match step
    case RefreshBy(updates, keys) =>
      KeysServe(keys, PublicKeys(s.holders), UpdateValues(updates, e, |s.transcript.shares|), on)
    case HandOver(h, departingKey) =>
      h.shareIndex in on ==>
        h.shareIndex in s.holders && CarriesShare(h, s.transcript, PublicKeyOf(s.holders[h.shareIndex]), departingKey)
  }

  ghost predicate SoundRun(s: State, steps: seq<Step>, on: set<nat>, e: Domain)
    decreases |steps|
  {
    steps != [] && Next(s, steps[0]).Some? ==>
      Sound(s, steps[0], on, e) && SoundRun(Next(s, steps[0]).value, steps[1..], on, e)
  }

  /** The holders of the given slots share the values. */
  ghost predicate Shares(s: State, values: Vec, on: set<nat>) {
    IsSharingOf(values, s.transcript.shares, PublicKeys(s.holders), on)
  }

  ghost predicate SameFrame(s: State, s': State) {
    s'.transcript.coeffs == s.transcript.coeffs && s'.transcript.sigma == s.transcript.sigma
  }

  /** Steps are possible exactly if the source returns from them, and this is what they change. */
  lemma NextIsExact(s: State, updates: seq<UpdateTranscript>, keys: map<nat, G2>, h: HandoverTranscript, departingKey: Elem)
    ensures Next(s, RefreshBy(updates, keys)).Some? <==> Refreshable(s.transcript, updates, keys)
    ensures Next(s, RefreshBy(updates, keys)).Some? ==>
              var s' := Next(s, RefreshBy(updates, keys)).value;
              && s'.holders == s.holders && SameFrame(s, s')
              && AreUpdatedShares(s'.transcript.shares, s.transcript, updates, keys)
    ensures Next(s, HandOver(h, departingKey)).Some? <==>
            SharesDomain(s.transcript).Some? && Installable(s.transcript, h, departingKey, SharesDomain(s.transcript).value)
    ensures Next(s, HandOver(h, departingKey)).Some? ==>
              var s' := Next(s, HandOver(h, departingKey)).value;
              && s'.holders == s.holders[h.shareIndex := h.incomingPubkey]
              && IsInstalled(s.transcript, h, departingKey, s'.transcript)
  {
    RefreshedIsUpdated(s.transcript, updates, keys);
    hide AreUpdatedShares, Refreshable;
    if SharesDomain(s.transcript).Some? && h.shareIndex < |s.transcript.shares| {
      ValidationIsExact(h, ShareCommitments(s.transcript.coeffs, SharesDomain(s.transcript).value)[h.shareIndex]);
      if departingKey != 0 {
        Rescaled(h.doubleBlindShare, departingKey);
      }
    }
  }

  // ---- One step -----------------------------------------------------------------------------

  lemma NoUpdates(values: Vec, e: Domain)
    ensures |UpdateValues([], e, |values|)| == |values| && Plus(values, UpdateValues([], e, |values|)) == values
  {
    var received, zero := UpdateValues([], e, |values|), TotalUpdate([], e);
    assert UpdateVectors([]) == [];
    assert forall j :: 0 <= j < e.size ==> Mapped(CoeffOf(j), []) == [];
    forall i | 0 <= i < |values| ensures Add(values[i], received[i]) == values[i] {
      EvalZero(zero, Pow(e.omega, i));
      AddZero(values[i]);
    }
  }

  lemma HandoverStep(s: State, h: HandoverTranscript, departingKey: Elem, values: Vec, on: set<nat>, e: Domain)
    requires Shares(s, values, on) && Next(s, HandOver(h, departingKey)).Some?
    ensures var s' := Next(s, HandOver(h, departingKey)).value;
            && SameFrame(s, s') && |s'.transcript.shares| == |s.transcript.shares|
            && (Shares(s', values, on) <==> Sound(s, HandOver(h, departingKey), on, e))
  {
    var keys, i := PublicKeys(s.holders), h.shareIndex;
    FinalizedTranscript(s.transcript, h, departingKey, SharesDomain(s.transcript).value);
    HandoverIsExact(values, s.transcript, keys, h, departingKey, on);
    PublicKeyIs(h.incomingPubkey);
    assert PublicKeys(s.holders[i := DecryptionKeyOf(h.incomingPubkey)]) == keys[i := h.incomingPubkey];
  }

  /**
   A step turns a sharing of values into a sharing of these values plus the step's updates,
   over the domain that the transcript constructs, exactly when it is sound; commitments and
   proof of knowledge stay in any case.
   */
  lemma StepIsExact(s: State, step: Step, values: Vec, on: set<nat>, e: Domain)
    requires Shares(s, values, on) && Next(s, step).Some? && SharesDomain(s.transcript) == Some(e)
    ensures |UpdateValues(UpdatesIn(step), e, |values|)| == |values|
    ensures var s' := Next(s, step).value;
            && SameFrame(s, s') && (Sound(s, step, on, e) ==> |s'.transcript.shares| == |s.transcript.shares|)
            && (Shares(s', Plus(values, UpdateValues(UpdatesIn(step), e, |values|)), on) <==> Sound(s, step, on, e))
  {
    assert |values| == |s.transcript.shares|;
    match step
    case RefreshBy(updates, keys) =>
      RefreshKeepsSharing(values, s.transcript, updates, keys, PublicKeys(s.holders), e, on);
    case HandOver(h, departingKey) =>
      HandoverStep(s, h, departingKey, values, on, e);
      NoUpdates(values, e);
  }

  // ---- Whole runs ---------------------------------------------------------------------------

  lemma OneStep(s: State, step: Step, on: set<nat>, e: Domain)
    ensures Run(s, [step]) == Next(s, step)
    ensures SoundRun(s, [step], on, e) <==> (Next(s, step).Some? ==> Sound(s, step, on, e))
  {
    assert [step][1..] == [];
    hide Next, Sound;
    if Next(s, step).Some? {
      assert Run(Next(s, step).value, []) == Some(Next(s, step).value);
      assert SoundRun(Next(s, step).value, [], on, e);
    }
  }

  /** A run is its steps, one after the other, and so is its soundness. */
  lemma {:induction false} RunsCompose(s: State, steps: seq<Step>, step: Step, on: set<nat>, e: Domain)
    ensures Run(s, []) == Some(s) && SoundRun(s, [], on, e)
    ensures var r := Run(s, steps);
            && Run(s, steps + [step]) == (if r.None? then None else Next(r.value, step))
            && (r.Some? ==>
                (SoundRun(s, steps + [step], on, e) <==>
                 SoundRun(s, steps, on, e) && (Next(r.value, step).Some? ==> Sound(r.value, step, on, e))))
    decreases |steps|
  {
    hide Next, Sound;
    if steps == [] {
      assert [] + [step] == [step];
      OneStep(s, step, on, e);
    } else {
      var all := steps + [step];
      assert all[1..] == steps[1..] + [step] && all[0] == steps[0];
      if Next(s, steps[0]).Some? {
        RunsCompose(Next(s, steps[0]).value, steps[1..], step, on, e);
      }
    }
  }

  lemma {:induction false} UpdatesCompose(steps: seq<Step>, step: Step)
    ensures UpdatesOf([]) == [] && UpdatesOf(steps + [step]) == UpdatesOf(steps) + UpdatesIn(step)
    decreases |steps|
  {
    hide UpdatesIn;
    var all, last := steps + [step], UpdatesIn(step);
    if steps == [] {
      assert all == [step] && all[1..] == [];
      assert last + [] == [] + last;
    } else {
      var first, rest := UpdatesIn(steps[0]), UpdatesOf(steps[1..]);
      UpdatesCompose(steps[1..], step);
      assert all[1..] == steps[1..] + [step] && all[0] == steps[0];
      assert first + (rest + last) == (first + rest) + last;
    }
  }

  lemma UpdateValuesConcat(first: seq<UpdateTranscript>, second: seq<UpdateTranscript>, e: Domain, n: nat, i: nat)
    requires i < n
    ensures UpdateValues(first + second, e, n)[i] == Add(UpdateValues(first, e, n)[i], UpdateValues(second, e, n)[i])
  {
    var vs, ws := UpdateVectors(first), UpdateVectors(second);
    assert UpdateVectors(first + second) == vs + ws;
    EvalSumConcat(vs, ws, e.size, Pow(e.omega, i));
  }

  /** Adding updates in two rounds is adding them at once. */
  lemma UpdatesInRounds(values: Vec, first: seq<UpdateTranscript>, second: seq<UpdateTranscript>, e: Domain)
    ensures |UpdateValues(first, e, |values|)| == |UpdateValues(second, e, |values|)| ==
            |UpdateValues(first + second, e, |values|)| == |values|
    ensures Plus(Plus(values, UpdateValues(first, e, |values|)), UpdateValues(second, e, |values|)) ==
            Plus(values, UpdateValues(first + second, e, |values|))
  {
    var n := |values|;
    var v, w, u := UpdateValues(first, e, n), UpdateValues(second, e, n), UpdateValues(first + second, e, n);
    assert |v| == |w| == |u| == n;
    forall i | 0 <= i < n ensures Plus(Plus(values, v), w)[i] == Plus(values, u)[i] {
      UpdateValuesConcat(first, second, e, n, i);
      AddAssoc(values[i], v[i], w[i]);
    }
  }

  /** After every sound run, the holders share the values plus all updates of the run. */
  lemma {:induction false} RunKeepsSharing(s: State, steps: seq<Step>, values: Vec, on: set<nat>, e: Domain)
    requires Shares(s, values, on) && SharesDomain(s.transcript) == Some(e)
    requires Run(s, steps).Some? && SoundRun(s, steps, on, e)
    ensures SameFrame(s, Run(s, steps).value) && |Run(s, steps).value.transcript.shares| == |s.transcript.shares|
    ensures |UpdateValues(UpdatesOf(steps), e, |values|)| == |values|
    ensures Shares(Run(s, steps).value, Plus(values, UpdateValues(UpdatesOf(steps), e, |values|)), on)
    decreases |steps|
  {
    if steps == [] {
      NoUpdates(values, e);
    } else {
      var s' := Next(s, steps[0]).value;
      StepIsExact(s, steps[0], values, on, e);
      var values' := Plus(values, UpdateValues(UpdatesIn(steps[0]), e, |values|));
      assert |s'.transcript.shares| == |values'| == |values| == |s.transcript.shares|;
      UpdatesInRounds(values, UpdatesIn(steps[0]), UpdatesOf(steps[1..]), e);
      hide UpdateValues, Plus, Shares, Next, Sound;
      RunKeepsSharing(s', steps[1..], values', on, e);
    }
  }

  /** The holder of a slot has the decryption key of the validator listed for it. */
  ghost predicate SlotHeld(s: State, validators: seq<Validator>, i: nat) {
    && i in s.holders
    && exists k :: 0 <= k < |validators| &&
         validators[k].shareIndex == i && validators[k].publicKey == PublicKeyOf(s.holders[i])
  }

  /** Every slot has a holder, and those of the given slots have the listed keys. */
  ghost predicate SlotsHeld(s: State, validators: seq<Validator>, on: set<nat>) {
    && (forall i :: i in s.holders <==> 0 <= i < |s.transcript.shares|)
    && forall i :: i in on ==> SlotHeld(s, validators, i)
  }

  lemma HeldSlot(s: State, validators: seq<Validator>, d: Domain, threshold: nat, i: nat)
    requires AcceptedFull(s.transcript.coeffs, s.transcript.shares, validators, d, threshold) && SlotHeld(s, validators, i)
    ensures i < d.size
    ensures threshold <= d.size ==>
              HoldsValue(ValuesOver(s.transcript.coeffs, d, |s.transcript.shares|), s.transcript.shares,
                         PublicKeys(s.holders), i)
  {
    var k :| 0 <= k < |validators| &&
      validators[k].shareIndex == i && validators[k].publicKey == PublicKeyOf(s.holders[i]);
    assert SlotValid(s.transcript.coeffs, s.transcript.shares, d, i, validators[k].publicKey);
    if threshold <= d.size {
      FftEvaluates(d, s.transcript.coeffs, i);
    }
  }

  /** In an accepted aggregate, the holders of listed keys share the committed polynomial. */
  lemma AcceptedIsSharing(s: State, validators: seq<Validator>, d: Domain, threshold: nat, on: set<nat>)
    requires AcceptedFull(s.transcript.coeffs, s.transcript.shares, validators, d, threshold)
    requires threshold <= d.size && SlotsHeld(s, validators, on)
    ensures Shares(s, ValuesOver(s.transcript.coeffs, d, |s.transcript.shares|), on)
  {
    var values := ValuesOver(s.transcript.coeffs, d, |s.transcript.shares|);
    assert |values| == |s.transcript.shares|;
    forall i | i in on ensures HoldsValue(values, s.transcript.shares, PublicKeys(s.holders), i) {
      HeldSlot(s, validators, d, threshold, i);
    }
    hide HoldsValue, AcceptedFull, SlotHeld, ValuesOver;
  }

  /** Held slots of an accepted aggregate are slots of the domain it was verified over. */
  lemma HeldSlotsInDomain(s: State, validators: seq<Validator>, d: Domain, threshold: nat, slots: seq<nat>)
    requires AcceptedFull(s.transcript.coeffs, s.transcript.shares, validators, d, threshold)
    requires SlotsHeld(s, validators, Members(slots)) && Distinct(slots)
    ensures DistinctSlots(slots, d)
  {
    forall k | 0 <= k < |slots| ensures slots[k] < d.size {
      assert slots[k] in Members(slots);
      HeldSlot(s, validators, d, threshold, slots[k]);
    }
  }

  lemma SharesIs(s: State, values: Vec, on: set<nat>)
    requires Shares(s, values, on)
    ensures IsSharingOf(values, s.transcript.shares, PublicKeys(s.holders), on)
    ensures |values| == |s.transcript.shares|
  {
  }

  /**
   Safety over whole runs: however an accepted aggregate was refreshed and handed over, as
   long as this was sound for the given slots, threshold or more, their current holders can
   all create their decryption shares.  What these combine to differs from U to the secret
   originally committed to by U to the defect of all updates together, so it is the same
   exactly when this defect is zero.  The aggregate was verified over the domain d, which is
   also used for combining; the steps work over the domain e that they construct.
   */
  lemma RunPreservesDecryption(s: State, validators: seq<Validator>, d: Domain, e: Domain, threshold: nat,
                               steps: seq<Step>, slots: seq<nat>, h: CiphertextHeader, aad: Bytes)
    requires AcceptedFull(s.transcript.coeffs, s.transcript.shares, validators, d, threshold)
    requires SlotsHeld(s, validators, Members(slots)) && SharesDomain(s.transcript) == Some(e)
    requires Run(s, steps).Some? && SoundRun(s, steps, Members(slots), e)
    requires Distinct(slots) && |slots| >= threshold && Check(h, aad) == Ok(true)
    ensures var s', secret := Run(s, steps).value, Mul(h.commitment, s.transcript.coeffs[0]);
            && AllCreate(s'.transcript, slots, s'.holders, h, aad)
            && CombinedSlots(s'.transcript, slots, s'.holders, d, h, aad) ==
               Add(secret, Mul(h.commitment, UpdateDefect(UpdatesOf(steps), slots, d, e)))
            && (CombinedSlots(s'.transcript, slots, s'.holders, d, h, aad) == secret <==>
                UpdateDefect(UpdatesOf(steps), slots, d, e) == 0)
  {
    var g, s', updates := s.transcript.coeffs, Run(s, steps).value, UpdatesOf(steps);
    CheckIsExact(h, aad);
    assert |g| == threshold > 0 && h.commitment != 0;
    hide *;
    HeldSlotsInDomain(s, validators, d, threshold, slots);
    SlotsWithin(slots, d);
    var values := ValuesOver(g, d, |s.transcript.shares|);
    AcceptedIsSharing(s, validators, d, threshold, Members(slots));
    SharesIs(s, values, Members(slots));
    RunKeepsSharing(s, steps, values, Members(slots), e);
    SharesIs(s', Plus(values, UpdateValues(updates, e, |values|)), Members(slots));
    SharingCombines(Plus(values, UpdateValues(updates, e, |values|)), s'.transcript, s'.holders, d, slots, h, aad);
    HoldingSlotsExist(values, s.transcript.shares, PublicKeys(s.holders), slots);
    DefectIsAdded(values, updates, slots, d, e);
    SharedSecret(g, slots, d, |values|);
    ShiftedBy(h.commitment, g[0], UpdateDefect(updates, slots, d, e));
  }

  /** As many values as g has coefficients determine its constant term. */
  lemma SharedSecret(g: Vec, slots: seq<nat>, d: Domain, n: nat)
    requires DistinctSlots(slots, d) && 0 < |g| <= |slots| && forall k :: 0 <= k < |slots| ==> slots[k] < n
    ensures LagrangeSum(SlotPoints(slots, d), SlotValues(ValuesOver(g, d, n), slots), 0) == g[0]
  {
    SlotPointsDistinct(slots, d);
    SlotValuesOver(g, slots, d, n);
    Reconstruction(g, SlotPoints(slots, d), 0);
    EvalAtZero(g);
  }

  /**
   So a message encrypted before the run is decrypted by whoever holds a threshold of the
   slots after it.
   */
  lemma MessageSurvivesRun(s: State, validators: seq<Validator>, d: Domain, e: Domain, threshold: nat,
                           steps: seq<Step>, slots: seq<nat>, message: Bytes, aad: Bytes, random: Elem)
    requires AcceptedFull(s.transcript.coeffs, s.transcript.shares, validators, d, threshold)
    requires SlotsHeld(s, validators, Members(slots)) && SharesDomain(s.transcript) == Some(e)
    requires Encrypt(message, aad, ConstantTerm(s.transcript), random).Ok?
    requires Check(Encrypt(message, aad, ConstantTerm(s.transcript), random).value.Header(), aad) == Ok(true)
    requires Run(s, steps).Some? && SoundRun(s, steps, Members(slots), e)
    requires Distinct(slots) && |slots| >= threshold && UpdateDefect(UpdatesOf(steps), slots, d, e) == 0
    ensures var c, s' := Encrypt(message, aad, ConstantTerm(s.transcript), random).value, Run(s, steps).value;
            && AllCreate(s'.transcript, slots, s'.holders, c.Header(), aad)
            && DecryptWithSharedSecret(c, aad, CombinedSlots(s'.transcript, slots, s'.holders, d, c.Header(), aad)) == Ok(message)
  {
    var c := Encrypt(message, aad, ConstantTerm(s.transcript), random).value;
    assert ConstantTerm(s.transcript) == s.transcript.coeffs[0] && c.Header().commitment == c.commitment;
    hide *;
    EncryptionShape(message, aad, ConstantTerm(s.transcript), random);
    DecryptionUndoesEncryption(message, aad, ConstantTerm(s.transcript), random);
    RunPreservesDecryption(s, validators, d, e, threshold, steps, slots, c.Header(), aad);
  }

  // ---- Runs over the domain of the verification ---------------------------------------------

  lemma StepVanishes(s: State, step: Step)
    requires Next(s, step).Some?
    ensures AllVanishAtZero(UpdatesIn(step))
  {
    match step
    case RefreshBy(updates, keys) =>
      RefreshableUpdates(s.transcript, updates, keys);
    case HandOver(_, _) =>
  }

  lemma {:induction false} RunVanishes(s: State, steps: seq<Step>)
    requires Run(s, steps).Some?
    ensures AllVanishAtZero(UpdatesOf(steps))
    decreases |steps|
  {
    if steps != [] {
      StepVanishes(s, steps[0]);
      RunVanishes(Next(s, steps[0]).value, steps[1..]);
    }
  }

  /**
   The steps work over the domain of the verification, constructed for n validators, exactly
   if the number of shares lies in the range that this domain serves.  Then updates with no
   more coefficients than there are slots have no defect, and the run preserves the secret.
   */
  lemma ShortUpdatesPreserveDecryption(
      s: State, validators: seq<Validator>, n: nat, d: Domain, threshold: nat,
      steps: seq<Step>, slots: seq<nat>, h: CiphertextHeader, aad: Bytes)
    requires ConstructDomain(n) == Some(d)
    requires AcceptedFull(s.transcript.coeffs, s.transcript.shares, validators, d, threshold)
    requires SlotsHeld(s, validators, Members(slots))
    requires |s.transcript.shares| <= d.size && (d.size == 1 || d.size < 2 * |s.transcript.shares|)
    requires Run(s, steps).Some? && SoundRun(s, steps, Members(slots), d)
    requires Distinct(slots) && |slots| >= threshold && Check(h, aad) == Ok(true)
    requires forall u :: u in UpdatesOf(steps) ==> |u.coeffs| <= |slots|
    ensures var s' := Run(s, steps).value;
            && AllCreate(s'.transcript, slots, s'.holders, h, aad)
            && CombinedSlots(s'.transcript, slots, s'.holders, d, h, aad) == Mul(h.commitment, s.transcript.coeffs[0])
  {
    assert |s.transcript.coeffs| > 0;
    hide *;
    ConstructedAlike(s.transcript, n, d);
    RunVanishes(s, steps);
    HeldSlotsInDomain(s, validators, d, threshold, slots);
    ShortUpdatesHaveNoDefect(UpdatesOf(steps), slots, d);
    RunPreservesDecryption(s, validators, d, d, threshold, steps, slots, h, aad);
  }

  lemma ConstructedAlike(t: Transcript, n: nat, d: Domain)
    requires ConstructDomain(n) == Some(d)
    ensures SharesDomain(t) == Some(d) <==> |t.shares| <= d.size && (d.size == 1 || d.size < 2 * |t.shares|)
  {
    SameDomain(n, |t.shares|);
  }

  // ---- Runs over another domain -------------------------------------------------------------

  /** Updates of two coefficients, applied over another domain, have a defect on the first two slots. */
  lemma DefectOverOtherDomain(updates: seq<UpdateTranscript>, d: Domain, e: Domain)
    requires d.size >= 2 && e.size >= 2 && d.size != e.size
    requires AllVanishAtZero(updates) && forall u :: u in updates ==> |u.coeffs| <= 2
    ensures UpdateDefect(updates, [0, 1], d, e) == 0 <==> SumSeq(Mapped(CoeffOf(1), UpdateVectors(updates))) == 0
  {
    var b, x, y := SumSeq(Mapped(CoeffOf(1), UpdateVectors(updates))), Pow(d.omega, 1), Pow(e.omega, 1);
    ConstantTermsVanish(updates);
    assert SumOf(UpdateVectors(updates), 2) == [0, b];
    assert SlotPoints([0, 1], d) == [1, x] && SlotPoints([0, 1], e) == [1, y];
    assert x != 1;
    hide *;
    OmegasDiffer(d, e);
    TotalOfShort(updates, e, 2, 1);
    TotalOfShort(updates, e, 2, y);
    PairOfValues(TotalUpdate(updates, e), [0, b], y);
    DefectIs(updates, d, e);
    MisplacedPair(0, b, x, y);
  }

  lemma PairOfValues(f: Vec, g: Vec, y: Elem)
    requires Eval(f, 1) == Eval(g, 1) && Eval(f, y) == Eval(g, y)
    ensures Values(f, [1, y]) == Values(g, [1, y])
  {
  }

  lemma DefectIs(updates: seq<UpdateTranscript>, d: Domain, e: Domain)
    ensures UpdateDefect(updates, [0, 1], d, e) ==
            LagrangeSum(SlotPoints([0, 1], d), Values(TotalUpdate(updates, e), SlotPoints([0, 1], e)), 0)
  {
  }

  /**
   Over another domain than that of the verification, a sound run with such updates moves what
   the first two slots combine to away from the secret, unless the updates cancel out.
   */
  lemma OtherDomainMovesSecret(s: State, validators: seq<Validator>, d: Domain, e: Domain, threshold: nat,
                               steps: seq<Step>, h: CiphertextHeader, aad: Bytes)
    requires AcceptedFull(s.transcript.coeffs, s.transcript.shares, validators, d, threshold) && threshold <= 2
    requires SlotsHeld(s, validators, Members([0, 1])) && SharesDomain(s.transcript) == Some(e) && d.size != e.size
    requires Run(s, steps).Some? && SoundRun(s, steps, Members([0, 1]), e) && Check(h, aad) == Ok(true)
    requires forall u :: u in UpdatesOf(steps) ==> |u.coeffs| <= 2
    ensures var s' := Run(s, steps).value;
            && AllCreate(s'.transcript, [0, 1], s'.holders, h, aad)
            && (CombinedSlots(s'.transcript, [0, 1], s'.holders, d, h, aad) == Mul(h.commitment, s.transcript.coeffs[0]) <==>
                SumSeq(Mapped(CoeffOf(1), UpdateVectors(UpdatesOf(steps)))) == 0)
  {
    var slots: seq<nat> := [0, 1];
    assert |s.transcript.coeffs| > 0 && Distinct(slots) && |slots| == 2;
    SecondSlotExists(s, validators, d, e, threshold);
    hide *;
    RunVanishes(s, steps);
    DefectOverOtherDomain(UpdatesOf(steps), d, e);
    RunPreservesDecryption(s, validators, d, e, threshold, steps, slots, h, aad);
  }

  lemma SecondSlotExists(s: State, validators: seq<Validator>, d: Domain, e: Domain, threshold: nat)
    requires AcceptedFull(s.transcript.coeffs, s.transcript.shares, validators, d, threshold)
    requires SlotsHeld(s, validators, Members([0, 1])) && SharesDomain(s.transcript) == Some(e)
    ensures d.size >= 2 && e.size >= 2
  {
    assert [0, 1][1] in Members([0, 1]);
    HeldSlot(s, validators, d, threshold, 1);
  }

  function TwoHolders(key0: Elem, key1: Elem): map<nat, Elem> {
    map[0 := key0, 1 := key1]
  }

  function TwoValidators(key0: Elem, key1: Elem): seq<Validator> {
    [Validator("0", key0, 0), Validator("1", key1, 1)]
  }

  /** Two key holders with the shares of secret + a x, over the domain d */
  function CutState(secret: Elem, a: Elem, key0: Elem, key1: Elem, d: Domain): State
    requires d.size >= 2
  {
    var commitments := ShareCommitments([secret, a], d);
    State(Transcript([secret, a], [Mul(commitments[0], key0), Mul(commitments[1], key1)], secret), TwoHolders(key0, key1))
  }

  /** An update b x for the two, over the domain e */
  function CutUpdate(b: Elem, key0: Elem, key1: Elem, e: Domain): UpdateTranscript
    requires RootedPolynomial([0, b], 0).Some?
  {
    PrepareShareUpdates(map[0 := (Pow(e.omega, 0), key0), 1 := (Pow(e.omega, 1), key1)],
                        RootedPolynomial([0, b], 0).value)
  }

  /** Transcripts that are valid by themselves, for secrets that add up to the given one */
  ghost predicate AddUpTo(pvss: seq<Transcript>, secret: Elem) {
    && pvss != [] && (forall i :: 0 <= i < |pvss| ==> VerifyOptimistic(pvss[i]))
    && SumSeq(Mapped(ConstantTerm, pvss)) == secret
  }

  lemma CutTranscriptVerifies(secret: Elem, a: Elem, key0: Elem, key1: Elem, d: Domain, pvss: seq<Transcript>)
    requires d.size >= 2 && secret != 0 && a != 0 && key0 != 0 && key1 != 0 && AddUpTo(pvss, secret)
    ensures var t, validators := CutState(secret, a, key0, key1, d).transcript, TwoValidators(key0, key1);
            && AcceptedFull(t.coeffs, t.shares, validators, d, 2)
            && DoVerifyAggregation(t.coeffs, t.shares, validators, d, pvss, 2) == Ok(true)
  {
    var t, validators := CutState(secret, a, key0, key1, d).transcript, TwoValidators(key0, key1);
    assert Indices(validators) == [0, 1];
    assert AcceptedFull(t.coeffs, t.shares, validators, d, 2);
    hide AcceptedFull, VerifyOptimistic, DoVerifyAggregation;
    AggregationVerificationIsExact(t.coeffs, t.shares, validators, d, pvss, 2);
  }

  lemma CutSlotsAreHeld(secret: Elem, a: Elem, key0: Elem, key1: Elem, d: Domain)
    requires d.size >= 2
    ensures var s := CutState(secret, a, key0, key1, d);
            && SlotsHeld(s, TwoValidators(key0, key1), Members([0, 1])) && |s.transcript.shares| == 2
            && s.transcript.coeffs == [secret, a] && PublicKeys(s.holders) == TwoHolders(key0, key1)
            && SharesDomain(s.transcript) == ConstructDomain(2)
  {
    var s, validators := CutState(secret, a, key0, key1, d), TwoValidators(key0, key1);
    PublicKeyIs(key0);
    PublicKeyIs(key1);
    assert PublicKeys(s.holders) == s.holders == TwoHolders(key0, key1);
    assert validators[0].shareIndex == 0 && validators[1].shareIndex == 1;
    assert SlotHeld(s, validators, 0) && SlotHeld(s, validators, 1);
  }

  lemma CutUpdateIsAccepted(b: Elem, key0: Elem, key1: Elem, e: Domain)
    requires e.size >= 2 && b != 0
    ensures RootedPolynomial([0, b], 0).Some?
    ensures var u, keys := CutUpdate(b, key0, key1, e), TwoHolders(key0, key1);
            UpdateAccepted(u, keys, e, 0) && Covers(u, keys) && |u.coeffs| == 2 && u.coeffs[1] == b
  {
    assert IsPoly([0, b]);
    TrimIsIdentity([0, b]);
    var participants := map[0 := (Pow(e.omega, 0), key0), 1 := (Pow(e.omega, 1), key1)];
    PreparedUpdatesVerify(participants, TwoHolders(key0, key1), e, [0, b], 0);
    MulOne(b);
  }

  lemma TwoKeys(key0: Elem, key1: Elem)
    ensures TwoHolders(key0, key1).Keys == {0, 1}
  {
  }

  /** A run of one refresh with the two holders' keys is sound. */
  lemma OneRefresh(s: State, u: UpdateTranscript, keys: map<nat, G2>, e: Domain)
    requires SharesDomain(s.transcript) == Some(e) && UpdateAccepted(u, keys, e, 0) && Covers(u, keys)
    requires keys == PublicKeys(s.holders) && keys.Keys == {0, 1} && |s.transcript.shares| == 2
    ensures var steps := [RefreshBy([u], keys)];
            && Run(s, steps) == Next(s, steps[0]) && Next(s, steps[0]).Some?
            && UpdatesOf(steps) == [u] && SoundRun(s, steps, Members([0, 1]), e)
  {
    var steps := [RefreshBy([u], keys)];
    assert Refreshable(s.transcript, [u], keys);
    hide Refreshable, Refreshed;
    assert steps[1..] == [] && UpdatesOf([]) == [] && [u] + [] == [u];
    assert |keys.Keys| == 2;
    var next := Next(s, steps[0]).value;
    assert Run(next, []) == Some(next);
    assert Sound(s, steps[0], Members([0, 1]), e);
    assert SoundRun(next, [], Members([0, 1]), e);
  }

  lemma TopOfOne(u: UpdateTranscript)
    requires |u.coeffs| == 2
    ensures SumSeq(Mapped(CoeffOf(1), UpdateVectors([u]))) == u.coeffs[1]
  {
    assert UpdateVectors([u]) == [u.coeffs] && CoeffOf(1)(u.coeffs) == u.coeffs[1];
    MappedSingleton(CoeffOf(1), u.coeffs);
  }

  /** With two shares, verified over another domain, an accepted update that is not zero loses the secret. */
  lemma TwoHoldersLoseSecret(s: State, validators: seq<Validator>, u: UpdateTranscript, keys: map<nat, G2>,
                             d: Domain, e: Domain, h: CiphertextHeader, aad: Bytes)
    requires AcceptedFull(s.transcript.coeffs, s.transcript.shares, validators, d, 2) && Check(h, aad) == Ok(true)
    requires SlotsHeld(s, validators, Members([0, 1])) && |s.transcript.shares| == 2
    requires keys == PublicKeys(s.holders) && keys.Keys == {0, 1}
    requires SharesDomain(s.transcript) == Some(e) && d.size != e.size
    requires UpdateAccepted(u, keys, e, 0) && Covers(u, keys) && |u.coeffs| == 2 && u.coeffs[1] != 0
    ensures var s' := Next(s, RefreshBy([u], keys));
            && s'.Some? && AllCreate(s'.value.transcript, [0, 1], s'.value.holders, h, aad)
            && CombinedSlots(s'.value.transcript, [0, 1], s'.value.holders, d, h, aad) !=
               Mul(h.commitment, s.transcript.coeffs[0])
  {
    assert |s.transcript.coeffs| == 2;
    hide *;
    OneRefresh(s, u, keys, e);
    TopOfOne(u);
    OtherDomainMovesSecret(s, validators, d, e, 2, [RefreshBy([u], keys)], h, aad);
  }

  /**
   An instance, in every field that has four-point domains: the aggregate is verified over the
   domain for four validators, by two of them, but only has their two shares, so that a refresh
   constructs the domain with two points and accepts an update made for it.
   */
  lemma CutTranscriptLosesSecret(secret: Elem, a: Elem, b: Elem, key0: Elem, key1: Elem, d: Domain, e: Domain,
                                 pvss: seq<Transcript>, h: CiphertextHeader, aad: Bytes)
    requires ConstructDomain(4) == Some(d) && ConstructDomain(2) == Some(e) && Check(h, aad) == Ok(true)
    requires secret != 0 && a != 0 && b != 0 && key0 != 0 && key1 != 0 && AddUpTo(pvss, secret)
    ensures d.size >= 2 && RootedPolynomial([0, b], 0).Some?
    ensures var s, u := CutState(secret, a, key0, key1, d), CutUpdate(b, key0, key1, e);
            var t, s' := s.transcript, Next(s, RefreshBy([u], TwoHolders(key0, key1)));
            && DoVerifyAggregation(t.coeffs, t.shares, TwoValidators(key0, key1), d, pvss, 2) == Ok(true)
            && s'.Some? && AllCreate(s'.value.transcript, [0, 1], s'.value.holders, h, aad)
            && CombinedSlots(s'.value.transcript, [0, 1], s'.value.holders, d, h, aad) != Mul(h.commitment, secret)
  {
    assert d.size >= 4 && 2 <= e.size < 4;
    hide *;
    CutUpdateIsAccepted(b, key0, key1, e);
    CutTranscriptVerifies(secret, a, key0, key1, d, pvss);
    CutSlotsAreHeld(secret, a, key0, key1, d);
    TwoKeys(key0, key1);
    TwoHoldersLoseSecret(CutState(secret, a, key0, key1, d), TwoValidators(key0, key1), CutUpdate(b, key0, key1, e),
                         TwoHolders(key0, key1), d, e, h, aad);
  }

  /**
   A refresh leaves the commitments as they were, so an honest handover that follows it goes
   through exactly when the updates of the slot cancelled out or the transcript's randomness
   is zero.
   */
  lemma HandoverAfterRefresh(s: State, updates: seq<UpdateTranscript>, index: nat, incomingKey: Elem, random: Elem, e: Domain)
    requires Next(s, RefreshBy(updates, PublicKeys(s.holders))).Some? && SharesDomain(s.transcript) == Some(e)
    requires index < |s.transcript.shares| && incomingKey != 0
    requires forall i :: i in s.holders <==> 0 <= i < |s.transcript.shares|
    requires s.holders[index] != 0
    requires SlotValid(s.transcript.coeffs, s.transcript.shares, e, index, PublicKeyOf(s.holders[index]))
    ensures var s' := Next(s, RefreshBy(updates, PublicKeys(s.holders))).value;
            && index < |s'.transcript.shares| && index < e.size
            && var h := HonestHandover(s'.transcript, index, s.holders[index], incomingKey, random);
               Next(s', HandOver(h, s.holders[index])).Some? <==>
               random == 0 || SumSeq(Mapped(FftAt(e, index), UpdateVectors(updates))) == 0
  {
    var keys, key := PublicKeys(s.holders), s.holders[index];
    var t := Refreshed(s.transcript, updates, keys);
    PublicKeyIs(key);
    RefreshedLength(s.transcript, updates, keys);
    RefreshedSlotAgainstOldCoeffs(s.transcript, updates, keys, e, e, index);
    hide FinalizeHandover, SlotValid, Fft, FftAt, Mapped;
    HonestHandoverReturns(t, index, key, incomingKey, random, e);
  }

  /** The public keys of the validators of a DKG, by slot */
  function KeyMap(dkg: Dkg): map<nat, G2> {
    map i | i in dkg.validators :: dkg.validators[i].publicKey
  }

  /**
   The refresh transcript that a DKG context generates has at most as many coefficients as the
   threshold, and any transcript with a share for every member can be refreshed with it.
   */
  lemma GeneratedRefreshIsAccepted(dkg: Dkg, random: seq<Elem>)
    requires Slotted(dkg) && |random| == dkg.params.securityThreshold <= dkg.domain.size
    requires RootedPolynomial(random, 0).Some?
    ensures var u := PrepareShareUpdates(DomainAndKeyMap(dkg), RootedPolynomial(random, 0).value);
            && UpdateAccepted(u, KeyMap(dkg), dkg.domain, 0)
            && |u.coeffs| <= dkg.params.securityThreshold
            && forall t: Transcript :: |t.shares| == |dkg.validators| ==> Refreshable(t, [u], KeyMap(dkg))
  {
    var u := PrepareShareUpdates(DomainAndKeyMap(dkg), RootedPolynomial(random, 0).value);
    TrimLength(random);
    PreparedUpdatesVerify(DomainAndKeyMap(dkg), KeyMap(dkg), dkg.domain, random, 0);
    hide *;
    forall t: Transcript | |t.shares| == |dkg.validators| ensures Refreshable(t, [u], KeyMap(dkg)) {
      RefreshableByMembers(dkg, u, t);
    }
  }

  lemma RefreshableByMembers(dkg: Dkg, u: UpdateTranscript, t: Transcript)
    requires Slotted(dkg) && |t.shares| == |dkg.validators|
    requires UpdateAccepted(u, KeyMap(dkg), dkg.domain, 0) && u.updates.Keys == dkg.validators.Keys
    ensures Refreshable(t, [u], KeyMap(dkg))
  {
    hide UpdateAccepted;
  }
}
