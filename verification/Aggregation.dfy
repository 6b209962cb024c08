/** Dealing a transcript, and adding up the transcripts of several dealers. */
module Aggregation {
  import opened Wrappers
  import opened PrimeField
  import opened Sums
  import opened Polynomial
  import opened EvaluationDomain
  import opened VectorSums
  import opened Groups
  import opened Validators
  import opened Pvss

  // ---- The aggregate ------------------------------------------------------------------

  ghost predicate SameShape(ts: seq<Transcript>) {
    ts != [] && forall i :: 0 <= i < |ts| ==>
      |ts[i].coeffs| == |ts[0].coeffs| && |ts[i].shares| == |ts[0].shares|
  }

  function CoeffAt(j: int): Transcript -> Elem {
    (t: Transcript) => Coeff(t.coeffs, j)
  }

  function ShareAt(j: int): Transcript -> Elem {
    (t: Transcript) => Coeff(t.shares, j)
  }

  function SigmaOf(): Transcript -> Elem {
    (t: Transcript) => t.sigma
  }

  /** Corresponding values added up, slot by slot */
  function Aggregated(ts: seq<Transcript>): Transcript
    requires ts != []
  {
    Transcript(seq(|ts[0].coeffs|, j => SumSeq(Mapped(CoeffAt(j), ts))),
               seq(|ts[0].shares|, j => SumSeq(Mapped(ShareAt(j), ts))),
               SumSeq(Mapped(SigmaOf(), ts)))
  }

  lemma AggregatedValues(ts: seq<Transcript>)
    requires ts != []
    ensures |Aggregated(ts).coeffs| == |ts[0].coeffs|
    ensures forall i :: 0 <= i < |ts[0].coeffs| ==> Aggregated(ts).coeffs[i] == SumSeq(Mapped(CoeffAt(i), ts))
  {
  }

  /** Transcript i is the first whose shape differs, and e reports it. */
  ghost predicate MismatchAt(ts: seq<Transcript>, i: nat, e: Error) {
    && 0 < i < |ts| && SameShape(ts[..i])
    && if |ts[i].coeffs| != |ts[0].coeffs|
       then e == MismatchedTranscriptLengths("coefficients", |ts[0].coeffs|, |ts[i].coeffs|)
       else |ts[i].shares| != |ts[0].shares| &&
            e == MismatchedTranscriptLengths("shares", |ts[0].shares|, |ts[i].shares|)
  }

  method AddAssign(a: seq<Elem>, b: seq<Elem>) returns (c: seq<Elem>)
    requires |a| == |b|
    ensures |c| == |a| && forall j :: 0 <= j < |c| ==> c[j] == Add(a[j], b[j])
  {
    c := a;
    for i := 0 to |a|
      invariant |c| == |a|
      invariant forall j :: 0 <= j < i ==> c[j] == Add(a[j], b[j])
      invariant forall j :: i <= j < |a| ==> c[j] == a[j]
    {
      c := c[i := Add(c[i], b[i])];
    }
  }

  method Aggregate(ts: seq<Transcript>) returns (r: Result<Transcript>)
    ensures ts == [] ==> r == Err(NoTranscriptsToAggregate)
    ensures r.Ok? <==> SameShape(ts)
    ensures r.Ok? ==> r.value == Aggregated(ts)
    ensures r.Err? && ts != [] ==> exists i :: MismatchAt(ts, i, r.error)
  {
    if ts == [] {
      return Err(NoTranscriptsToAggregate);
    }
    var coeffs, shares, sigma := ts[0].coeffs, ts[0].shares, ts[0].sigma;
    AggregatedOne(ts[0]);
    assert ts[..1] == [ts[0]];
    for i := 1 to |ts|
      invariant SameShape(ts[..i])
      invariant Transcript(coeffs, shares, sigma) == Aggregated(ts[..i])
    {
      if |ts[i].coeffs| != |coeffs| {
        assert MismatchAt(ts, i, MismatchedTranscriptLengths("coefficients", |coeffs|, |ts[i].coeffs|));
        return Err(MismatchedTranscriptLengths("coefficients", |coeffs|, |ts[i].coeffs|));
      }
      if |ts[i].shares| != |shares| {
        assert MismatchAt(ts, i, MismatchedTranscriptLengths("shares", |shares|, |ts[i].shares|));
        return Err(MismatchedTranscriptLengths("shares", |shares|, |ts[i].shares|));
      }
      sigma := Add(sigma, ts[i].sigma);
      coeffs := AddAssign(coeffs, ts[i].coeffs);
      shares := AddAssign(shares, ts[i].shares);
      AggregatedStep(ts[..i], ts[i], coeffs, shares, sigma);
      assert ts[..i + 1] == ts[..i] + [ts[i]];
    }
    assert ts[..|ts|] == ts;
    return Ok(Transcript(coeffs, shares, sigma));
  }

  lemma AggregatedOne(t: Transcript)
    ensures Aggregated([t]) == t
  {
    forall j | 0 <= j < |t.coeffs| ensures Aggregated([t]).coeffs[j] == t.coeffs[j] {
      MappedSingleton(CoeffAt(j), t);
    }
    forall j | 0 <= j < |t.shares| ensures Aggregated([t]).shares[j] == t.shares[j] {
      MappedSingleton(ShareAt(j), t);
    }
    MappedSingleton(SigmaOf(), t);
    assert Aggregated([t]).coeffs == t.coeffs && Aggregated([t]).shares == t.shares;
  }

  lemma AggregatedStep(ts: seq<Transcript>, t: Transcript, coeffs: seq<G1>, shares: seq<G2>, sigma: G2)
    requires ts != []
    requires |coeffs| == |Aggregated(ts).coeffs| == |t.coeffs| && |shares| == |Aggregated(ts).shares| == |t.shares|
    requires forall j :: 0 <= j < |coeffs| ==> coeffs[j] == Add(Aggregated(ts).coeffs[j], t.coeffs[j])
    requires forall j :: 0 <= j < |shares| ==> shares[j] == Add(Aggregated(ts).shares[j], t.shares[j])
    requires sigma == Add(Aggregated(ts).sigma, t.sigma)
    ensures Transcript(coeffs, shares, sigma) == Aggregated(ts + [t])
  {
    var a := Aggregated(ts + [t]);
    forall j | 0 <= j < |coeffs| ensures coeffs[j] == a.coeffs[j] {
      MappedAppend(CoeffAt(j), ts, t);
    }
    forall j | 0 <= j < |shares| ensures shares[j] == a.shares[j] {
      MappedAppend(ShareAt(j), ts, t);
    }
    MappedAppend(SigmaOf(), ts, t);
    assert coeffs == a.coeffs && shares == a.shares;
  }

  // ---- The order of the transcripts does not matter -----------------------------------

  lemma AggregationPermutes(ts: seq<Transcript>, ts': seq<Transcript>)
    requires multiset(ts) == multiset(ts') && SameShape(ts)
    ensures SameShape(ts') && Aggregated(ts') == Aggregated(ts)
  {
    assert |ts| == |multiset(ts)| == |multiset(ts')| == |ts'|;
    forall i | 0 <= i < |ts'|
      ensures |ts'[i].coeffs| == |ts[0].coeffs| && |ts'[i].shares| == |ts[0].shares|
    {
      assert ts'[i] in multiset(ts);
    }
    assert |ts'[0].coeffs| == |ts[0].coeffs| && |ts'[0].shares| == |ts[0].shares|;
    forall j: int
      ensures SumSeq(Mapped(CoeffAt(j), ts)) == SumSeq(Mapped(CoeffAt(j), ts'))
      ensures SumSeq(Mapped(ShareAt(j), ts)) == SumSeq(Mapped(ShareAt(j), ts'))
    {
      MappedPermutation(CoeffAt(j), ts, ts');
      MappedPermutation(ShareAt(j), ts, ts');
    }
    MappedPermutation(SigmaOf(), ts, ts');
    var a, a' := Aggregated(ts), Aggregated(ts');
    assert a.coeffs == a'.coeffs && a.shares == a'.shares;
  }

  // ---- What every input satisfies, the aggregate satisfies ----------------------------

  function CoeffVectors(ts: seq<Transcript>): seq<Vec> {
    seq(|ts|, i requires 0 <= i < |ts| => ts[i].coeffs)
  }

  lemma AggregatedCoeffs(ts: seq<Transcript>)
    requires ts != []
    ensures Aggregated(ts).coeffs == SumOf(CoeffVectors(ts), |ts[0].coeffs|)
  {
    forall j: int ensures Mapped(CoeffAt(j), ts) == Mapped(CoeffOf(j), CoeffVectors(ts)) {
      MappedExt(CoeffAt(j), CoeffOf(j), ts, CoeffVectors(ts));
    }
  }

  function CommitmentAt(d: Domain, i: nat): Transcript -> Elem
    requires i < d.size
  {
    (t: Transcript) => ShareCommitments(t.coeffs, d)[i]
  }

  lemma AggregatedCommitments(ts: seq<Transcript>, d: Domain, i: nat)
    requires SameShape(ts) && i < d.size
    ensures ShareCommitments(Aggregated(ts).coeffs, d)[i] == SumSeq(Mapped(CommitmentAt(d, i), ts))
  {
    AggregatedCoeffs(ts);
    FftOfSum(d, CoeffVectors(ts), |ts[0].coeffs|, i);
    MappedExt(CommitmentAt(d, i), FftAt(d, i), ts, CoeffVectors(ts));
  }

  lemma AggregationKeepsSlot(ts: seq<Transcript>, d: Domain, index: nat, key: G2)
    requires SameShape(ts)
    requires forall k :: 0 <= k < |ts| ==> SlotValid(ts[k].coeffs, ts[k].shares, d, index, key)
    ensures SlotValid(Aggregated(ts).coeffs, Aggregated(ts).shares, d, index, key)
  {
    assert SlotValid(ts[0].coeffs, ts[0].shares, d, index, key);
    AggregatedCommitments(ts, d, index);
    MappedScale(CommitmentAt(d, index), ShareAt(index), key, ts);
  }

  /** The equation behind the proof of knowledge, e(F_0, H) == e(G, sigma) */
  ghost predicate SigmaMatches(t: Transcript) {
    t.coeffs != [] && Pairing(t.coeffs[0], H) == Pairing(G, t.sigma)
  }

  lemma AggregationKeepsSigma(ts: seq<Transcript>)
    requires SameShape(ts) && forall k :: 0 <= k < |ts| ==> SigmaMatches(ts[k])
    ensures SigmaMatches(Aggregated(ts))
  {
    forall k | 0 <= k < |ts| ensures CoeffAt(0)(ts[k]) == SigmaOf()(ts[k]) {
      PairingWithGenerator(ts[k].coeffs[0]);
      PairingWithGenerator(ts[k].sigma);
      assert SigmaMatches(ts[k]);
    }
    assert SigmaMatches(ts[0]);
    MappedExt(CoeffAt(0), SigmaOf(), ts, ts);
    PairingWithGenerator(Aggregated(ts).sigma);
  }

  /**
   The aggregate of transcripts that all verify is accepted exactly when neither its
   constant nor its leading coefficient cancelled out.
   */
  lemma AggregateOfVerified(ts: seq<Transcript>, validators: seq<Validator>, d: Domain, threshold: nat)
    requires SameShape(ts)
    requires forall k :: 0 <= k < |ts| ==>
               VerifyOptimistic(ts[k]) && AcceptedFull(ts[k].coeffs, ts[k].shares, validators, d, threshold)
    ensures var a := Aggregated(ts);
            && |a.coeffs| == threshold > 0
            && (DoVerifyAggregation(a.coeffs, a.shares, validators, d, ts, threshold) == Ok(true) <==>
                a.coeffs[0] != 0 && a.coeffs[threshold - 1] != 0)
            && (VerifyOptimistic(a) <==> a.coeffs[0] != 0)
  {
    var a := Aggregated(ts);
    assert AcceptedFull(ts[0].coeffs, ts[0].shares, validators, d, threshold);
    forall i | 0 <= i < |validators|
      ensures SlotValid(a.coeffs, a.shares, d, validators[i].shareIndex, validators[i].publicKey)
    {
      forall k | 0 <= k < |ts|
        ensures SlotValid(ts[k].coeffs, ts[k].shares, d, validators[i].shareIndex, validators[i].publicKey)
      {
        assert AcceptedFull(ts[k].coeffs, ts[k].shares, validators, d, threshold);
      }
      AggregationKeepsSlot(ts, d, validators[i].shareIndex, validators[i].publicKey);
    }
    MappedExt(ConstantTerm, CoeffAt(0), ts, ts);
    AggregationVerificationIsExact(a.coeffs, a.shares, validators, d, ts, threshold);
    AggregationKeepsSigma(ts);
  }

  // ---- Dealing --------------------------------------------------------------------------

  /** The transcript of the polynomial phi for the validators with the given keys, by slot */
  function Dealt(phi: Vec, keys: seq<G2>, d: Domain): Transcript
    requires phi != []
  {
    Transcript(seq(|phi|, i requires 0 <= i < |phi| => Mul(G, phi[i])),
               seq(|keys|, i requires 0 <= i < |keys| => Mul(keys[i], Eval(phi, Pow(d.omega, i)))),
               Mul(H, phi[0]))
  }

  lemma DealtCoeffs(phi: Vec, keys: seq<G2>, d: Domain)
    requires phi != []
    ensures Dealt(phi, keys, d).coeffs == phi && Dealt(phi, keys, d).sigma == phi[0]
  {
    forall i | 0 <= i < |phi| ensures Dealt(phi, keys, d).coeffs[i] == phi[i] {
      MulOne(phi[i]);
    }
    MulOne(phi[0]);
  }

  lemma DealtSlots(phi: Vec, keys: seq<G2>, d: Domain, i: nat)
    requires 0 < |phi| <= d.size && i < |keys| <= d.size
    ensures SlotValid(Dealt(phi, keys, d).coeffs, Dealt(phi, keys, d).shares, d, i, keys[i])
  {
    DealtCoeffs(phi, keys, d);
    FftEvaluates(d, phi, i);
    MulComm(keys[i], Eval(phi, Pow(d.omega, i)));
  }

  function DealtAll(phis: seq<Vec>, keys: seq<G2>, d: Domain): seq<Transcript>
    requires forall k :: 0 <= k < |phis| ==> phis[k] != []
  {
    seq(|phis|, k requires 0 <= k < |phis| => Dealt(phis[k], keys, d))
  }

  /** Aggregating what was dealt from several polynomials is dealing from their sum. */
  lemma AggregationIsHomomorphic(phis: seq<Vec>, keys: seq<G2>, d: Domain, t: nat)
    requires phis != [] && t > 0 && forall k :: 0 <= k < |phis| ==> |phis[k]| == t
    ensures SameShape(DealtAll(phis, keys, d))
    ensures Aggregated(DealtAll(phis, keys, d)) == Dealt(SumOf(phis, t), keys, d)
  {
    var ts := DealtAll(phis, keys, d);
    var a, s := Aggregated(ts), SumOf(phis, t);
    forall k | 0 <= k < |phis| ensures ts[k].coeffs == phis[k] && ts[k].sigma == phis[k][0] {
      DealtCoeffs(phis[k], keys, d);
    }
    assert CoeffVectors(ts) == phis;
    AggregatedCoeffs(ts);
    DealtCoeffs(s, keys, d);
    MappedExt(SigmaOf(), CoeffOf(0), ts, phis);
    forall i | 0 <= i < |keys| ensures a.shares[i] == Dealt(s, keys, d).shares[i] {
      AggregatedShare(phis, keys, d, t, i);
    }
    assert a.shares == Dealt(s, keys, d).shares;
  }

  function ScaledEvalAt(x: Elem, key: G2): Vec -> Elem {
    (v: Vec) => Mul(Eval(v, x), key)
  }

  lemma AggregatedShare(phis: seq<Vec>, keys: seq<G2>, d: Domain, t: nat, i: nat)
    requires t > 0 && i < |keys| && forall k :: 0 <= k < |phis| ==> |phis[k]| == t
    ensures SumSeq(Mapped(ShareAt(i), DealtAll(phis, keys, d))) == Mul(keys[i], Eval(SumOf(phis, t), Pow(d.omega, i)))
  {
    var x, ts := Pow(d.omega, i), DealtAll(phis, keys, d);
    forall k | 0 <= k < |phis| ensures ShareAt(i)(ts[k]) == ScaledEvalAt(x, keys[i])(phis[k]) {
      MulComm(keys[i], Eval(phis[k], x));
    }
    MappedExt(ShareAt(i), ScaledEvalAt(x, keys[i]), ts, phis);
    MappedScale(EvalAt(x), ScaledEvalAt(x, keys[i]), keys[i], phis);
    EvalOfSum(phis, t, x);
    MulComm(keys[i], Eval(SumOf(phis, t), x));
  }
}
