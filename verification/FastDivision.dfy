/**
 Newton inversion modulo a power of x and division with remainder by a monic
 polynomial (algorithms 9.3 and 9.5 of Gathen and Gerhard, "Modern Computer Algebra").
 */
module FastDivision {
  import opened Wrappers
  import opened PrimeField
  import opened Sums
  import opened Polynomial

  /** f and g agree modulo x^n. */
  ghost predicate AgreeBelow(f: Vec, g: Vec, n: int) {
    forall i :: 0 <= i < n ==> Coeff(f, i) == Coeff(g, i)
  }

  function Pow2(k: nat): nat {
    if k == 0 then 1 else 2 * Pow2(k - 1)
  }

  /** The least k with n <= 2^k */
  function CeilLog2(n: nat): (k: nat)
    ensures n <= Pow2(k)
    ensures k > 0 ==> Pow2(k - 1) < n
  {
    if n <= 1 then 0 else 1 + CeilLog2((n + 1) / 2)
  }

  // ---- Products modulo x^n ------------------------------------------------------

  lemma MulAgree(f: Vec, g: Vec, h: Vec, n: int)
    requires AgreeBelow(g, h, n)
    ensures AgreeBelow(MulP(f, g), MulP(f, h), n)
  {
    forall k | 0 <= k < n
      ensures Coeff(MulP(f, g), k) == Coeff(MulP(f, h), k)
    {
      CoeffMul(f, g, k);
      CoeffMul(f, h, k);
      SumExt(CauchyTerm(f, g, k), CauchyTerm(f, h, k), k + 1);
    }
  }

  /** If e vanishes modulo x^n then its square vanishes modulo x^(2n). */
  lemma SquareAgree(e: Vec, n: nat)
    requires AgreeBelow(e, [], n)
    ensures AgreeBelow(MulP(e, e), [], 2 * n)
  {
    forall k | 0 <= k < 2 * n
      ensures Coeff(MulP(e, e), k) == 0
    {
      CoeffMul(e, e, k);
      var term := CauchyTerm(e, e, k);
      forall i | 0 <= i < k + 1
        ensures term(i) == 0
      {
        assert (i < n ==> Coeff(e, i) == Coeff([], i)) && (k - i < n ==> Coeff(e, k - i) == Coeff([], k - i));
        MulZero(Coeff(e, i));
        MulZero(Coeff(e, k - i));
      }
      SumOfZeros(term, k + 1);
    }
  }

  // ---- The Newton step doubles the precision ------------------------------------

  /** One round of the iteration, before truncation. */
  function NewtonStep(f: Vec, inv: Vec): Poly {
    SubP(AddP(inv, inv), MulP(f, MulP(inv, inv)))
  }

  lemma AddSubAssoc(f: Vec, g: Vec, h: Vec)
    ensures SubP(AddP(f, g), h) == AddP(f, SubP(g, h))
  {
    forall i: nat
      ensures Coeff(SubP(AddP(f, g), h), i) == Coeff(AddP(f, SubP(g, h)), i)
    {
      CoeffAdd(f, g, i);
      CoeffSub(AddP(f, g), h, i);
      CoeffSub(g, h, i);
      CoeffAdd(f, SubP(g, h), i);
      AddAssoc(Coeff(f, i), Coeff(g, i), Neg(Coeff(h, i)));
    }
    Ext(SubP(AddP(f, g), h), AddP(f, SubP(g, h)));
  }

  /** p + p - p*p == 1 - (1 - p)*(1 - p) */
  lemma SquareOfError(p: Poly)
    ensures SubP(AddP(p, p), MulP(p, p)) == SubP([1], MulP(SubP([1], p), SubP([1], p)))
  {
    var e := SubP([1], p);
    calc {
      SubP(AddP(p, p), MulP(p, p));
      { AddSubAssoc(p, p, MulP(p, p)); MulPOne(p); TrimIsIdentity(p); MulPSubDistrib(p, [1], p); }
      AddP(p, MulP(p, e));
      {
        AddSubP([1], p);
        AddPComm(e, p);
        assert AddP(p, e) == Trim([1]);
        AddSubP(p, e);
        TrimIsIdentity(p);
        MulPComm(p, e);
        TrimIsIdentity([1]);
        MulPSubDistrib(e, [1], e);
        MulPOne(e);
        TrimIsIdentity(e);
      }
      AddP(p, SubP(e, MulP(e, e)));
      { AddSubAssoc(p, e, MulP(e, e)); }
      SubP(AddP(p, e), MulP(e, e));
      { AddSubP([1], p); AddPComm(e, p); TrimIsIdentity([1]); }
      SubP([1], MulP(e, e));
    }
  }

  lemma NewtonStepProduct(f: Vec, inv: Vec)
    ensures MulP(f, NewtonStep(f, inv)) ==
            SubP(AddP(MulP(f, inv), MulP(f, inv)), MulP(MulP(f, inv), MulP(f, inv)))
  {
    var p := MulP(f, inv);
    MulPSubDistrib(f, AddP(inv, inv), MulP(f, MulP(inv, inv)));
    MulPDistrib(f, inv, inv);
    calc {
      MulP(f, MulP(f, MulP(inv, inv)));
      { MulPAssoc(f, inv, inv); }
      MulP(f, MulP(p, inv));
      { MulPComm(p, inv); MulPAssoc(f, inv, p); }
      MulP(p, p);
    }
  }

  /** If f*inv == 1 modulo x^n, then the next iterate inverts f modulo x^(2n). */
  lemma NewtonDoubles(f: Vec, inv: Vec, n: nat)
    requires AgreeBelow(MulP(f, inv), [1], n)
    ensures AgreeBelow(MulP(f, NewtonStep(f, inv)), [1], 2 * n)
  {
    var p := MulP(f, inv);
    var e := SubP([1], p);
    forall i | 0 <= i < n
      ensures Coeff(e, i) == Coeff([], i)
    {
      CoeffSub([1], p, i);
      SubSelf(Coeff([1], i));
    }
    SquareAgree(e, n);
    NewtonStepProduct(f, inv);
    SquareOfError(p);
    forall i | 0 <= i < 2 * n
      ensures Coeff(SubP([1], MulP(e, e)), i) == Coeff([1], i)
    {
      CoeffSub([1], MulP(e, e), i);
      assert Coeff(MulP(e, e), i) == Coeff([], i);
      NegZero();
      AddZero(Coeff([1], i));
    }
  }

  lemma ConstantInverse(f: Vec, c: Elem)
    requires f != [] && Mul(f[0], c) == 1
    ensures AgreeBelow(MulP(f, [c]), [1], 1)
  {
    MulPConst(c, f);
    CoeffScale(c, f, 0);
    MulComm(f[0], c);
  }

  method InverseModXl(func: Vec, length: nat) returns (r: Option<Vec>)
    requires func != []
    ensures r.None? <==> func[0] == 0
    ensures r.Some? ==> AgreeBelow(MulP(func, r.value), [1], length)
    ensures r.Some? ==> |r.value| <= Pow2(CeilLog2(length))
  {
    var log := CeilLog2(length);
    if func[0] == 0 {
      return None;
    }
    InvLaw(func[0]);
    var funcInv: Vec := [Inv(func[0])];
    ConstantInverse(func, funcInv[0]);
    var acc := 2;
    for i := 0 to log
      invariant acc == 2 * Pow2(i)
      invariant |funcInv| <= Pow2(i)
      invariant AgreeBelow(MulP(func, funcInv), [1], Pow2(i))
    {
      NewtonDoubles(func, funcInv, Pow2(i));
      var next: Vec := SubP(AddP(funcInv, funcInv), MulP(func, MulP(funcInv, funcInv)));
      funcInv := next[..if |next| < acc then |next| else acc];
      MulAgree(func, funcInv, next, acc);
      acc := acc * 2;
    }
    return Some(funcInv);
  }

  /** The inverse is unique modulo x^n. */
  lemma InverseUnique(f: Vec, g: Vec, h: Vec, n: nat)
    requires AgreeBelow(MulP(f, g), [1], n) && AgreeBelow(MulP(f, h), [1], n)
    ensures AgreeBelow(g, h, n)
  {
    MulAgree(h, MulP(f, g), [1], n);
    MulAgree(g, MulP(f, h), [1], n);
    MulPComm(f, h);
    MulPComm(f, g);
    MulPAssoc(h, f, g);
    MulPAssoc(g, f, h);
    MulPComm(MulP(f, h), g);
    MulPOne(g);
    MulPOne(h);
    forall i | 0 <= i < n
      ensures Coeff(g, i) == Coeff(h, i)
    {
      CoeffTrim(g, i);
      CoeffTrim(h, i);
    }
  }

  // ---- Reversal -----------------------------------------------------------------

  function Reversed(v: Vec): Vec {
    seq(|v|, i requires 0 <= i < |v| => v[|v| - 1 - i])
  }

  /** x^m * f(1/x), the coefficient vector of f padded to m+1 entries and reversed */
  method Rev(f: Vec, m: nat) returns (g: Vec)
    requires 1 <= |f| <= m + 1
    ensures |g| == m + 1 && forall i :: 0 <= i <= m ==> g[i] == Coeff(f, m - i)
  {
    var padded := f;
    for i := 0 to m - (|f| - 1)
      invariant |padded| == |f| + i
      invariant forall j :: 0 <= j < |padded| ==> padded[j] == Coeff(f, j)
    {
      padded := padded + [0];
    }
    g := Reversed(padded);
  }

  /** A Cauchy product can be summed over the positions of its first factor. */
  lemma CauchyOverFirst(f: Vec, g: Vec, k: nat)
    ensures Cauchy(f, g, k) == Sum(CauchyTerm(f, g, k), |f|)
  {
    var term := CauchyTerm(f, g, k);
    forall i | i >= |f| || i > k
      ensures term(i) == 0
    {
      MulZero(Coeff(f, i));
      MulZero(Coeff(g, k - i));
    }
    if k + 1 <= |f| {
      SumPadded(term, k + 1, |f|);
    } else {
      SumPadded(term, |f|, k + 1);
    }
  }

  /** Reversing both factors reverses the product. */
  lemma ReversedProduct(f: Vec, g: Vec, k: nat)
    requires f != [] && g != [] && k <= |f| + |g| - 2
    ensures Coeff(MulP(Reversed(f), Reversed(g)), k) == Coeff(MulP(f, g), |f| + |g| - 2 - k)
  {
    var n, s := |f|, |f| + |g| - 2 - k;
    var f', g' := Reversed(f), Reversed(g);
    assert |f'| == n;
    hide *;
    CoeffMul(f', g', k);
    CauchyOverFirst(f', g', k);
    CoeffMul(f, g, s);
    CauchyOverFirst(f, g, s);
    var term, mirror := CauchyTerm(f, g, s), CauchyTerm(f', g', k);
    forall i | 0 <= i < n ensures mirror(i) == term(n - 1 - i) {
      MirroredTerm(f, g, k, i);
    }
    SumReverse(term, mirror, n);
  }

  lemma MirroredTerm(f: Vec, g: Vec, k: nat, i: nat)
    requires f != [] && g != [] && k <= |f| + |g| - 2 && i < |f|
    ensures CauchyTerm(Reversed(f), Reversed(g), k)(i) == CauchyTerm(f, g, |f| + |g| - 2 - k)(|f| - 1 - i)
  {
    assert Coeff(Reversed(f), i) == Coeff(f, |f| - 1 - i);
    assert Coeff(Reversed(g), k - i) == Coeff(g, |g| - 1 - (k - i));
  }

  // ---- Division -----------------------------------------------------------------

  ghost predicate IsMonic(g: Vec) {
    g != [] && g[|g| - 1] == 1
  }

  ghost predicate IsDivision(f: Vec, g: Vec, q: Vec, r: Vec) {
    Trim(f) == AddP(MulP(q, g), r) && |r| < |g|
  }

  /** The top coefficients of q*g are those of f, when q is read off rev(f) / rev(g). */
  lemma QuotientMatchesTop(f: Vec, g: Vec, inv: Vec, q: Vec, i: nat)
    requires IsMonic(g) && |g| <= |f| && |q| == |f| - |g| + 1
    requires AgreeBelow(MulP(Reversed(g), inv), [1], |q|)
    requires AgreeBelow(Reversed(q), MulP(Reversed(f), inv), |q|)
    requires |g| - 1 <= i < |f|
    ensures Coeff(MulP(g, q), i) == f[i]
  {
    var f', g', k := Reversed(f), Reversed(g), |f| - 1 - i;
    assert |g| + |q| - 2 - k == i;
    ReversedProduct(g, q, k);
    MulAgree(g', Reversed(q), MulP(f', inv), |q|);
    MulPComm(f', inv);
    MulPAssoc(g', inv, f');
    MulPComm(MulP(g', inv), f');
    MulAgree(f', MulP(g', inv), [1], |q|);
    MulPOne(f');
    CoeffTrim(f', k);
    assert Coeff(f', k) == f[i];
  }

  method FastDivideMonic(func: Vec, divisor: Vec) returns (quotient: Vec, remainder: Vec)
    requires IsMonic(divisor)
    ensures IsDivision(func, divisor, quotient, remainder)
    ensures if |func| < |divisor| then remainder == func else IsPoly(remainder)
  {
    if |func| < |divisor| {
      quotient, remainder := [0], func;
      ZeroQuotient(func, divisor);
      return;
    }
    var degDiff := |func| - |divisor|;
    var revF, revG := Reversed(func), Reversed(divisor);
    var inverse := InverseModXl(revG, degDiff + 1);
    var product := MulP(revF, inverse.value);
    quotient := seq(degDiff + 1, i => Coeff(product, i));
    ghost var low := quotient;
    quotient := Rev(quotient, degDiff);
    assert Reversed(quotient) == low;
    remainder := SubP(func, MulP(divisor, quotient));
    RemainderIsShort(func, divisor, inverse.value, quotient);
  }

  lemma ZeroQuotient(f: Vec, g: Vec)
    ensures Trim(f) == AddP(MulP([0], g), f)
  {
    MulPConst(0, g);
    forall i: nat
      ensures Coeff(Scale(0, g), i) == Coeff([], i)
    {
      CoeffScale(0, g, i);
      MulZero(Coeff(g, i));
    }
    Ext(Scale(0, g), []);
    AddPEmpty(f);
  }

  lemma RemainderIsShort(f: Vec, g: Vec, inv: Vec, q: Vec)
    requires IsMonic(g) && |g| <= |f| && |q| == |f| - |g| + 1
    requires AgreeBelow(MulP(Reversed(g), inv), [1], |q|)
    requires AgreeBelow(Reversed(q), MulP(Reversed(f), inv), |q|)
    ensures IsDivision(f, g, q, SubP(f, MulP(g, q)))
  {
    var r := SubP(f, MulP(g, q));
    forall i | |g| - 1 <= i < |r|
      ensures r[i] == 0
    {
      CoeffSub(f, MulP(g, q), i);
      if i < |f| {
        QuotientMatchesTop(f, g, inv, q, i);
      } else {
        MulPLength(g, q);
      }
      SubSelf(Coeff(f, i));
    }
    LengthBound(r, |g| - 1);
    AddSubP(f, MulP(g, q));
    MulPComm(g, q);
    AddPComm(r, MulP(g, q));
  }

  // ---- Quotient and remainder are unique ------------------------------------------

  lemma LeadingCoefficient(f: Vec, g: Vec)
    requires f != [] && g != []
    ensures Coeff(MulP(f, g), |f| + |g| - 2) == Mul(f[|f| - 1], g[|g| - 1])
  {
    var n, k := |f|, |f| + |g| - 2;
    CoeffMul(f, g, k);
    CauchyOverFirst(f, g, k);
    var term := CauchyTerm(f, g, k);
    forall i | 0 <= i < n - 1
      ensures term(i) == 0
    {
      MulZero(Coeff(f, i));
    }
    SumOfZeros(term, n - 1);
    AddZero(term(n - 1));
  }

  lemma DivisionUnique(f: Vec, g: Vec, q: Vec, r: Vec, q': Vec, r': Vec)
    requires IsMonic(g) && IsDivision(f, g, q, r) && IsDivision(f, g, q', r')
    ensures Trim(q) == Trim(q') && Trim(r) == Trim(r')
  {
    var a, b := MulP(q, g), MulP(q', g);
    var dq: Poly := SubP(q, q');
    assert MulP(dq, g) == SubP(a, b) by {
      MulPComm(dq, g);
      MulPComm(q, g);
      MulPComm(q', g);
      MulPSubDistrib(g, q, q');
    }
    forall i | |g| - 1 <= i
      ensures Coeff(SubP(a, b), i) == 0
    {
      CoeffSub(a, b, i);
      CoeffAdd(a, r, i);
      CoeffAdd(b, r', i);
      AddZero(Coeff(a, i));
      AddZero(Coeff(b, i));
      SubSelf(Coeff(a, i));
    }
    if dq != [] {
      LeadingCoefficient(dq, g);
      MulOne(dq[|dq| - 1]);
      assert false;
    }
    AddSubP(q, q');
    AddPEmpty(q');
    AddSubP(r, a);
    AddSubP(r', b);
    AddPComm(r, a);
    AddPComm(r', b);
    MulPTrim(q, g);
    MulPTrim(q', g);
  }
}
