/** Lagrange coefficients and the combination of decryption shares. */
module Combine {
  import opened PrimeField
  import opened Sums
  import opened Polynomial
  import opened Interpolation
  import opened Groups

  // ---- The nested loop ------------------------------------------------------------

  /** The points of u that differ from a, in order */
  function Others(u: seq<Elem>, a: Elem): seq<Elem> {
    if u == [] then []
    else
      var n := |u| - 1;
      if u[n] == a then Others(u[..n], a) else Others(u[..n], a) + [u[n]]
  }

  /** prod_{b in w} (x - b) / (a - b) */
  function BasisProduct(w: seq<Elem>, a: Elem, x: Elem): Elem {
    Mul(ProductSeq(Differences(w, x)), Inv(ProductSeq(Differences(w, a))))
  }

  function LagrangeBasis(u: seq<Elem>, x: Elem): seq<Elem> {
    seq(|u|, j requires 0 <= j < |u| => BasisProduct(Others(u, u[j]), u[j], x))
  }

  lemma {:induction false} OthersOmit(u: seq<Elem>, a: Elem)
    ensures a !in Others(u, a)
  {
    if u != [] {
      OthersOmit(u[..|u| - 1], a);
    }
  }

  lemma NegatedQuotient(b: Elem, x: Elem, a: Elem)
    requires a != b
    ensures Sub(a, b) != 0 && Sub(b, a) != 0
    ensures Mul(Sub(b, x), Inv(Sub(b, a))) == Mul(Sub(x, b), Inv(Sub(a, b)))
  {
    var p, q := Sub(x, b), Sub(a, b);
    SubZeroIffEqual(a, b);
    SubZeroIffEqual(b, a);
    FlipSub(x, b);
    FlipSub(a, b);
    InvLaw(q);
    InvLaw(Neg(q));
    MulNeg(q, Neg(Inv(q)));
    MulNeg(q, Inv(q));
    NegNeg(1);
    MulCancel(Neg(q), Inv(Neg(q)), Neg(Inv(q)));
    MulNeg(p, Neg(Inv(q)));
    MulNeg(p, Inv(q));
    NegNeg(Mul(p, Inv(q)));
  }

  lemma FlipSub(a: Elem, b: Elem)
    ensures Sub(b, a) == Neg(Sub(a, b))
  {
    NegAdd(a, Neg(b));
    NegNeg(b);
    AddComm(b, Neg(a));
  }

  lemma BasisStep(w: seq<Elem>, a: Elem, x: Elem, b: Elem)
    requires a != b && a !in w
    ensures BasisProduct(w + [b], a, x) == Mul(BasisProduct(w, a, x), Mul(Sub(b, x), Inv(Sub(b, a))))
  {
    var p, q := ProductSeq(Differences(w, x)), ProductSeq(Differences(w, a));
    assert Differences(w + [b], x) == Differences(w, x) + [Sub(x, b)];
    assert Differences(w + [b], a) == Differences(w, a) + [Sub(a, b)];
    ProductSeqAppend(Differences(w, x), Sub(x, b));
    ProductSeqAppend(Differences(w, a), Sub(a, b));
    NegatedQuotient(b, x, a);
    EvalRootPoly(w, a);
    RootPolyVanishes(w, a);
    InvMul(q, Sub(a, b));
    MulSwap(p, Sub(x, b), Inv(q), Inv(Sub(a, b)));
  }

  lemma BasisEmpty(a: Elem, x: Elem)
    ensures BasisProduct([], a, x) == 1
  {
    assert Differences([], x) == [] && Differences([], a) == [];
    InvOne();
    MulOne(1);
  }

  method LagrangeBasisAt(sharesX: seq<Elem>, xi: Elem) returns (lagrangeCoeffs: seq<Elem>)
    ensures lagrangeCoeffs == LagrangeBasis(sharesX, xi)
  {
    hide BasisProduct;
    lagrangeCoeffs := [];
    for j := 0 to |sharesX|
      invariant lagrangeCoeffs == LagrangeBasis(sharesX, xi)[..j]
    {
      var xj := sharesX[j];
      var prod: Elem := 1;
      BasisEmpty(xj, xi);
      for m := 0 to |sharesX|
        invariant prod == BasisProduct(Others(sharesX[..m], xj), xj, xi)
      {
        var xm := sharesX[m];
        assert sharesX[..m + 1][..m] == sharesX[..m];
        if xj != xm {
          OthersOmit(sharesX[..m], xj);
          BasisStep(Others(sharesX[..m], xj), xj, xi, xm);
          prod := Mul(prod, Mul(Sub(xm, xi), Inv(Sub(xm, xj))));
        }
      }
      assert sharesX[..|sharesX|] == sharesX;
      lagrangeCoeffs := lagrangeCoeffs + [prod];
    }
  }

  // ---- What the coefficients are, for distinct points -------------------------------

  lemma {:induction false} OthersOfStranger(u: seq<Elem>, a: Elem)
    requires a !in u
    ensures Others(u, a) == u
  {
    if u != [] {
      OthersOfStranger(u[..|u| - 1], a);
    }
  }

  lemma {:induction false} OthersOfMember(u: seq<Elem>, j: nat)
    requires Distinct(u) && j < |u|
    ensures Others(u, u[j]) == Without(u, j)
  {
    var n := |u| - 1;
    if j == n {
      OthersOfStranger(u[..n], u[n]);
      assert Without(u, n) == u[..n];
    } else {
      OthersOfMember(u[..n], j);
      assert Without(u, j) == Without(u[..n], j) + [u[n]];
    }
  }

  lemma BasisIsLagrange(u: seq<Elem>, x: Elem)
    requires Distinct(u)
    ensures |LagrangeBasis(u, x)| == |u|
    ensures forall j :: 0 <= j < |u| ==> LagrangeBasis(u, x)[j] == LagrangeCoefficient(u, j, x)
  {
    forall j | 0 <= j < |u|
      ensures LagrangeBasis(u, x)[j] == LagrangeCoefficient(u, j, x)
    {
      OthersOfMember(u, j);
    }
  }

  /**
   The subproduct tree's denominator times the coefficient of the nested loop is the
   product of x - u_m over the other points, for every x.
   */
  lemma FastAndSlowAgree(u: seq<Elem>, x: Elem, i: nat)
    requires Distinct(u) && i < |u|
    ensures Mul(ProductExcept(u, i, u[i]), LagrangeBasis(u, x)[i]) == ProductExcept(u, i, x)
  {
    var p, d := ProductExcept(u, i, x), ProductExcept(u, i, u[i]);
    BasisIsLagrange(u, x);
    DenominatorsNonzero(u);
    MulComm(p, Inv(d));
    CancelLeft(d, p);
  }

  // ---- Combination -----------------------------------------------------------------

  function Weighted(shares: seq<Gt>, coeffs: seq<Elem>): seq<Elem> {
    seq(if |shares| < |coeffs| then |shares| else |coeffs|,
        i requires 0 <= i < |shares| && i < |coeffs| => Mul(coeffs[i], shares[i]))
  }

  function PrepareCombineSimple(domain: seq<Elem>): seq<Elem> {
    LagrangeBasis(domain, 0)
  }

  /** The product of the shares, each to the power of its coefficient */
  function ShareCombineSimple(shares: seq<Gt>, lagrangeCoeffs: seq<Elem>): Gt {
    SumSeq(Weighted(shares, lagrangeCoeffs))
  }

  /** The product of the shares */
  function ShareCombinePrecomputed(shares: seq<Gt>): Gt {
    SumSeq(shares)
  }

  /**
   Combining multiplies the shares, each to the power of its coefficient, one after the other;
   shares or coefficients without a partner are left out.
   */
  lemma CombinesPairs(shares: seq<Gt>, coeffs: seq<Elem>, share: Gt, coeff: Elem, surplus: seq<Elem>)
    requires |shares| == |coeffs|
    ensures ShareCombineSimple([], []) == 0 && ShareCombinePrecomputed([]) == 0
    ensures ShareCombineSimple(shares + [share], coeffs + [coeff]) ==
            Add(ShareCombineSimple(shares, coeffs), Mul(coeff, share))
    ensures ShareCombineSimple(shares + surplus, coeffs) == ShareCombineSimple(shares, coeffs)
    ensures ShareCombineSimple(shares, coeffs + surplus) == ShareCombineSimple(shares, coeffs)
    ensures ShareCombinePrecomputed(shares + [share]) == Add(ShareCombinePrecomputed(shares), share)
  {
    assert Weighted([], []) == [];
    assert Weighted(shares + [share], coeffs + [coeff]) == Weighted(shares, coeffs) + [Mul(coeff, share)];
    assert Weighted(shares + surplus, coeffs) == Weighted(shares, coeffs) == Weighted(shares, coeffs + surplus);
    SumSeqAppend(Weighted(shares, coeffs), Mul(coeff, share));
    SumSeqAppend(shares, share);
  }

  lemma {:induction false} SumSeqIsSum(f: int -> Elem, s: seq<Elem>)
    requires forall i :: 0 <= i < |s| ==> s[i] == f(i)
    ensures SumSeq(s) == Sum(f, |s|)
  {
    if s != [] {
      var n := |s| - 1;
      SumSeqIsSum(f, s[..n]);
      assert s == s[..n] + [s[n]];
      SumSeqAppend(s[..n], s[n]);
    }
  }

  lemma CombineIsLagrangeSum(u: seq<Elem>, v: seq<Gt>, x: Elem)
    requires Distinct(u) && |u| == |v|
    ensures ShareCombineSimple(v, LagrangeBasis(u, x)) == LagrangeSum(u, v, x)
  {
    BasisIsLagrange(u, x);
    SumSeqIsSum(LagrangeTerm(u, v, x), Weighted(v, LagrangeBasis(u, x)));
  }

  function ScaledBy(r: Elem, v: seq<Elem>): seq<Elem> {
    seq(|v|, i requires 0 <= i < |v| => Mul(r, v[i]))
  }

  lemma {:induction false} SumSeqScaled(r: Elem, v: seq<Elem>)
    ensures SumSeq(ScaledBy(r, v)) == Mul(r, SumSeq(v))
  {
    if v == [] {
      MulZero(r);
    } else {
      assert ScaledBy(r, v)[1..] == ScaledBy(r, v[1..]);
      SumSeqScaled(r, v[1..]);
      Distrib(r, v[0], SumSeq(v[1..]));
    }
  }

  lemma CombineScaled(r: Elem, v: seq<Gt>, coeffs: seq<Elem>)
    ensures ShareCombineSimple(ScaledBy(r, v), coeffs) == Mul(r, ShareCombineSimple(v, coeffs))
  {
    var w, s := Weighted(v, coeffs), Weighted(ScaledBy(r, v), coeffs);
    forall i | 0 <= i < |w| ensures s[i] == ScaledBy(r, w)[i] {
      MulAssoc(coeffs[i], r, v[i]);
      MulComm(coeffs[i], r);
      MulAssoc(r, coeffs[i], v[i]);
    }
    assert s == ScaledBy(r, w);
    SumSeqScaled(r, w);
  }

  /**
   Lagrange reconstruction with the coefficients of the nested loop: the values of a
   polynomial at as many distinct points as it has coefficients, scaled by r, combine
   to r * f(0).
   */
  lemma SharesReconstruct(f: Vec, u: seq<Elem>, r: Elem)
    requires Distinct(u) && |f| <= |u|
    ensures ShareCombineSimple(ScaledBy(r, Values(f, u)), PrepareCombineSimple(u)) == Mul(r, Coeff(f, 0))
  {
    CombineScaled(r, Values(f, u), LagrangeBasis(u, 0));
    CombineIsLagrangeSum(u, Values(f, u), 0);
    Reconstruction(f, u, 0);
    EvalAtZero(f);
  }

  /** For every x, not only 0 */
  lemma BasisReconstructs(f: Vec, u: seq<Elem>, x: Elem)
    requires Distinct(u) && |f| <= |u|
    ensures ShareCombineSimple(Values(f, u), LagrangeBasis(u, x)) == Eval(f, x)
  {
    CombineIsLagrangeSum(u, Values(f, u), x);
    Reconstruction(f, u, x);
  }

  /** One share short, the combination misses by r times the top coefficient times prod (-u_i). */
  lemma OneShareShort(f: Vec, u: seq<Elem>, r: Elem)
    requires Distinct(u) && |f| == |u| + 1
    ensures Sub(Mul(r, f[0]), ShareCombineSimple(ScaledBy(r, Values(f, u)), PrepareCombineSimple(u))) ==
            Mul(r, Mul(f[|f| - 1], ProductSeq(Differences(u, 0))))
  {
    var v := Values(f, u);
    CombineScaled(r, v, LagrangeBasis(u, 0));
    CombineIsLagrangeSum(u, v, 0);
    ReconstructionOneShort(f, u, 0);
    EvalAtZero(f);
    MulSubDistrib(r, f[0], LagrangeSum(u, v, 0));
  }
}
