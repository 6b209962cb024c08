/**
 Roots, interpolation and Lagrange coefficients: the mathematics that the subproduct
 tree computes fast and that threshold decryption relies on.
 */
module Interpolation {
  import opened PrimeField
  import opened Sums
  import opened Polynomial
  import opened FastDivision

  ghost predicate Distinct<T>(u: seq<T>) {
    forall i, j :: 0 <= i < j < |u| ==> u[i] != u[j]
  }

  // ---- The polynomial (x - u_0) * ... * (x - u_{n-1}) ---------------------------

  /** x - a */
  function Linear(a: Elem): Poly { [Neg(a), 1] }

  function RootPoly(u: seq<Elem>): Poly {
    if u == [] then [1] else MulP(Linear(u[0]), RootPoly(u[1..]))
  }

  function Differences(u: seq<Elem>, x: Elem): seq<Elem> {
    seq(|u|, i requires 0 <= i < |u| => Sub(x, u[i]))
  }

  function Without<T>(u: seq<T>, i: nat): seq<T>
    requires i < |u|
  {
    u[..i] + u[i + 1..]
  }

  /** The product of x - u_m over all m other than i */
  function ProductExcept(u: seq<Elem>, i: nat, x: Elem): Elem
    requires i < |u|
  {
    ProductSeq(Differences(Without(u, i), x))
  }

  lemma EvalLinear(a: Elem, x: Elem)
    ensures Eval(Linear(a), x) == Sub(x, a)
  {
    assert Linear(a)[1..] == [1];
    EvalConst(1, x);
    MulOne(x);
    AddComm(Neg(a), x);
  }

  lemma {:induction false} EvalRootPoly(u: seq<Elem>, x: Elem)
    ensures Eval(RootPoly(u), x) == ProductSeq(Differences(u, x))
  {
    if u == [] {
      EvalConst(1, x);
    } else {
      EvalRootPoly(u[1..], x);
      EvalMul(Linear(u[0]), RootPoly(u[1..]), x);
      EvalLinear(u[0], x);
      assert Differences(u, x)[1..] == Differences(u[1..], x);
    }
  }

  lemma RootPolyVanishes(u: seq<Elem>, x: Elem)
    ensures Eval(RootPoly(u), x) == 0 <==> x in u
  {
    EvalRootPoly(u, x);
    ProductSeqNonzero(Differences(u, x));
    forall i | 0 <= i < |u| ensures Differences(u, x)[i] == 0 <==> u[i] == x {
      SubZeroIffEqual(x, u[i]);
    }
  }

  lemma {:induction false} RootPolyConcat(u: seq<Elem>, v: seq<Elem>)
    ensures RootPoly(u + v) == MulP(RootPoly(u), RootPoly(v))
  {
    if u == [] {
      assert u + v == v;
      MulPOne(RootPoly(v));
      TrimIsIdentity(RootPoly(v));
    } else {
      assert (u + v)[1..] == u[1..] + v;
      RootPolyConcat(u[1..], v);
      MulPAssoc(Linear(u[0]), RootPoly(u[1..]), RootPoly(v));
    }
  }

  lemma {:induction false} RootPolyMonic(u: seq<Elem>)
    ensures |RootPoly(u)| == |u| + 1 && IsMonic(RootPoly(u))
  {
    if u != [] {
      var m := RootPoly(u[1..]);
      RootPolyMonic(u[1..]);
      MulPLength(Linear(u[0]), m);
      LeadingCoefficient(Linear(u[0]), m);
      MulOne(1);
    }
  }

  // ---- Dividing out a root ------------------------------------------------------

  /** The quotient of f by x - a */
  ghost function Quotient(f: Vec, a: Elem): Vec {
    if |f| <= 1 then [] else [Eval(f[1..], a)] + Quotient(f[1..], a)
  }

  lemma {:induction false} QuotientLength(f: Vec, a: Elem)
    ensures |Quotient(f, a)| == if f == [] then 0 else |f| - 1
    ensures |f| >= 2 ==> Quotient(f, a)[|f| - 2] == f[|f| - 1]
  {
    if |f| >= 2 {
      QuotientLength(f[1..], a);
      if |f| == 2 {
        EvalConst(f[1], a);
        assert f[1..] == [f[1]];
      }
    }
  }

  /** f(x) == (x - a) * q(x) + f(a) */
  lemma {:induction false} DivideByLinear(f: Vec, a: Elem, x: Elem)
    ensures Eval(f, x) == Add(Mul(Sub(x, a), Eval(Quotient(f, a), x)), Eval(f, a))
  {
    if |f| == 0 {
      MulZero(Sub(x, a));
      AddZero(0);
    } else if |f| == 1 {
      assert f == [f[0]];
      EvalConst(f[0], x);
      EvalConst(f[0], a);
      MulZero(Sub(x, a));
      AddZero(f[0]);
    } else {
      var f', d := f[1..], Sub(x, a);
      var c, q := Eval(f', a), Eval(Quotient(f', a), x);
      DivideByLinear(f', a, x);
      assert Quotient(f, a)[1..] == Quotient(f', a);
      assert Eval(Quotient(f, a), x) == Add(c, Mul(x, q));
      calc {
        Eval(f, x);
        Add(f[0], Mul(x, Add(Mul(d, q), c)));
        { Distrib(x, Mul(d, q), c); MulAssoc(x, d, q); MulComm(x, d); MulAssoc(d, x, q); }
        Add(f[0], Add(Mul(d, Mul(x, q)), Mul(x, c)));
        { AddSub(x, a); Distrib(c, d, a); }
        Add(f[0], Add(Mul(d, Mul(x, q)), Add(Mul(d, c), Mul(a, c))));
        {
          AddAssoc(Mul(d, Mul(x, q)), Mul(d, c), Mul(a, c));
          AddComm(Mul(d, Mul(x, q)), Mul(d, c));
          Distrib(d, c, Mul(x, q));
        }
        Add(f[0], Add(Mul(d, Add(c, Mul(x, q))), Mul(a, c)));
        {
          AddComm(Mul(d, Add(c, Mul(x, q))), Mul(a, c));
          AddAssoc(f[0], Mul(a, c), Mul(d, Add(c, Mul(x, q))));
          AddComm(Eval(f, a), Mul(d, Add(c, Mul(x, q))));
        }
        Add(Mul(d, Add(c, Mul(x, q))), Eval(f, a));
      }
    }
  }

  ghost predicate IsZero(f: Vec) {
    forall i :: 0 <= i < |f| ==> f[i] == 0
  }

  lemma {:induction false} EvalZero(f: Vec, x: Elem)
    requires IsZero(f)
    ensures Eval(f, x) == 0
  {
    if f != [] {
      EvalZero(f[1..], x);
      MulZero(x);
      AddZero(0);
    }
  }

  lemma {:induction false} ZeroQuotientMeansConstant(f: Vec, a: Elem)
    requires f != [] && IsZero(Quotient(f, a))
    ensures IsZero(f[1..])
  {
    if |f| >= 2 {
      var f' := f[1..];
      assert Quotient(f, a)[0] == Eval(f', a);
      assert IsZero(Quotient(f', a)) by {
        assert forall i :: 0 <= i < |Quotient(f', a)| ==> Quotient(f', a)[i] == Quotient(f, a)[i + 1];
      }
      ZeroQuotientMeansConstant(f', a);
      EvalZero(f'[1..], a);
      MulZero(a);
      AddZero(f'[0]);
      assert forall i :: 1 <= i < |f'| ==> f'[i] == f'[1..][i - 1];
    }
  }

  /** A vector with as many distinct roots as coefficients is zero. */
  lemma {:induction false} RootCount(f: Vec, u: seq<Elem>)
    requires Distinct(u) && |f| <= |u|
    requires forall i :: 0 <= i < |u| ==> Eval(f, u[i]) == 0
    ensures IsZero(f)
    decreases |u|
  {
    if f != [] {
      var a, q := u[0], Quotient(f, u[0]);
      QuotientLength(f, a);
      forall i | 0 <= i < |u[1..]|
        ensures Eval(q, u[1..][i]) == 0
      {
        var x := u[i + 1];
        DivideByLinear(f, a, x);
        AddZero(Mul(Sub(x, a), Eval(q, x)));
        SubZeroIffEqual(x, a);
        NoZeroDivisors(Sub(x, a), Eval(q, x));
      }
      RootCount(q, u[1..]);
      ZeroQuotientMeansConstant(f, a);
      EvalZero(f[1..], a);
      MulZero(a);
      AddZero(f[0]);
      assert forall i :: 1 <= i < |f| ==> f[i] == f[1..][i - 1];
    }
  }

  /** Polynomials of degree below n that agree on n points are equal. */
  lemma SameValues(f: Vec, g: Vec, u: seq<Elem>)
    requires Distinct(u) && |f| <= |u| && |g| <= |u|
    requires forall i :: 0 <= i < |u| ==> Eval(f, u[i]) == Eval(g, u[i])
    ensures Trim(f) == Trim(g)
  {
    var d := DifferenceVec(f, g);
    assert SubIs(POLY, f, g);
    forall i | 0 <= i < |u| ensures Eval(d, u[i]) == 0 {
      EvalTrim(d, u[i]);
      EvalSub(f, g, u[i]);
      SubSelf(Eval(f, u[i]));
    }
    RootCount(d, u);
    forall i: nat ensures Coeff(Trim(f), i) == Coeff(Trim(g), i) {
      CoeffTrim(f, i);
      CoeffTrim(g, i);
      if i < |d| {
        assert d[i] == Sub(Coeff(f, i), Coeff(g, i));
        SubZeroIffEqual(Coeff(f, i), Coeff(g, i));
      }
    }
    Ext(Trim(f), Trim(g));
  }

  // ---- Remainder and quotient modulo RootPoly(u) --------------------------------

  ghost function Quotients(f: Vec, u: seq<Elem>): Vec
    decreases |u|
  {
    if u == [] then f else Quotients(Quotient(f, u[0]), u[1..])
  }

  ghost function Remainder(f: Vec, u: seq<Elem>): Poly
    decreases |u|
  {
    if u == [] then []
    else AddP(MulP(Linear(u[0]), Remainder(Quotient(f, u[0]), u[1..])), [Eval(f, u[0])])
  }

  lemma {:induction false} RemainderLength(f: Vec, u: seq<Elem>)
    ensures |Remainder(f, u)| <= |u|
    decreases |u|
  {
    if u != [] {
      var q, us := Quotient(f, u[0]), u[1..];
      RemainderLength(q, us);
      MulPLength(Linear(u[0]), Remainder(q, us));
      AddPLength(MulP(Linear(u[0]), Remainder(q, us)), [Eval(f, u[0])]);
    }
  }

  /** What is left after dividing out all of u: nothing, or just the leading coefficient. */
  lemma {:induction false} QuotientsShape(f: Vec, u: seq<Elem>)
    ensures |f| <= |u| ==> Quotients(f, u) == []
    ensures |f| == |u| + 1 ==> Quotients(f, u) == [f[|f| - 1]]
    decreases |u|
  {
    if u != [] {
      QuotientLength(f, u[0]);
      QuotientsShape(Quotient(f, u[0]), u[1..]);
    }
  }

  /** f(x) == r(x) + q(x) * (x - u_0) * ... * (x - u_{n-1}) */
  lemma {:induction false} DivideByRootPoly(f: Vec, u: seq<Elem>, x: Elem)
    ensures Eval(f, x) == Add(Eval(Remainder(f, u), x), Mul(Eval(Quotients(f, u), x), Eval(RootPoly(u), x)))
    decreases |u|
  {
    if u == [] {
      EvalConst(1, x);
      MulOne(Eval(f, x));
      AddZero(Eval(f, x));
    } else {
      var a, us := u[0], u[1..];
      var q := Quotient(f, a);
      var d, r, c := Sub(x, a), Eval(Remainder(q, us), x), Eval(f, a);
      var p, m := Eval(Quotients(q, us), x), Eval(RootPoly(us), x);
      DivideByRootPoly(q, us, x);
      DivideByLinear(f, a, x);
      EvalLinear(a, x);
      EvalMul(Linear(a), RootPoly(us), x);
      EvalMul(Linear(a), Remainder(q, us), x);
      EvalAdd(MulP(Linear(a), Remainder(q, us)), [c], x);
      EvalConst(c, x);
      calc {
        Eval(f, x);
        Add(Mul(d, Add(r, Mul(p, m))), c);
        { Distrib(d, r, Mul(p, m)); MulAssoc(d, p, m); MulComm(d, p); MulAssoc(p, d, m); }
        Add(Add(Mul(d, r), Mul(p, Mul(d, m))), c);
        {
          AddAssoc(Mul(d, r), Mul(p, Mul(d, m)), c);
          AddComm(Mul(p, Mul(d, m)), c);
          AddAssoc(Mul(d, r), c, Mul(p, Mul(d, m)));
        }
        Add(Add(Mul(d, r), c), Mul(p, Mul(d, m)));
      }
    }
  }

  lemma RemainderValues(f: Vec, u: seq<Elem>, i: nat)
    requires i < |u|
    ensures Eval(Remainder(f, u), u[i]) == Eval(f, u[i])
  {
    DivideByRootPoly(f, u, u[i]);
    RootPolyVanishes(u, u[i]);
    MulZero(Eval(Quotients(f, u), u[i]));
    AddZero(Eval(Remainder(f, u), u[i]));
  }

  // ---- Linear combination of the moduli RootPoly(u) / (x - u_i) ------------------

  function LinearCombination(u: seq<Elem>, c: seq<Elem>): Poly
    requires |u| == |c|
  {
    if u == [] then []
    else AddP(Scale(c[0], RootPoly(u[1..])), MulP(Linear(u[0]), LinearCombination(u[1..], c[1..])))
  }

  lemma {:induction false} LinearCombinationLength(u: seq<Elem>, c: seq<Elem>)
    requires |u| == |c|
    ensures |LinearCombination(u, c)| <= |u|
  {
    if u != [] {
      var us, cs := u[1..], c[1..];
      LinearCombinationLength(us, cs);
      RootPolyMonic(us);
      MulPConst(c[0], RootPoly(us));
      MulPLength([c[0]], RootPoly(us));
      MulPLength(Linear(u[0]), LinearCombination(us, cs));
      AddPLength(Scale(c[0], RootPoly(us)), MulP(Linear(u[0]), LinearCombination(us, cs)));
    }
  }

  ghost function ModuliTerm(u: seq<Elem>, c: seq<Elem>, x: Elem): int -> Elem
    requires |u| == |c|
  {
    (i: int) => if 0 <= i < |u| then Mul(c[i], ProductExcept(u, i, x)) else 0
  }

  lemma ProductExceptStep(u: seq<Elem>, i: nat, x: Elem)
    requires i < |u|
    ensures i == 0 ==> ProductExcept(u, i, x) == Eval(RootPoly(u[1..]), x)
    ensures i > 0 ==> ProductExcept(u, i, x) == Mul(Sub(x, u[0]), ProductExcept(u[1..], i - 1, x))
  {
    if i == 0 {
      assert Without(u, 0) == u[1..];
      EvalRootPoly(u[1..], x);
    } else {
      var d := Differences(Without(u, i), x);
      assert Without(u, i)[1..] == Without(u[1..], i - 1);
      assert d[1..] == Differences(Without(u[1..], i - 1), x);
    }
  }

  lemma ModuliTermStep(u: seq<Elem>, c: seq<Elem>, x: Elem, i: nat)
    requires |u| == |c| && i + 1 < |u|
    ensures ModuliTerm(u, c, x)(i + 1) == Mul(Sub(x, u[0]), ModuliTerm(u[1..], c[1..], x)(i))
  {
    var d, p := Sub(x, u[0]), ProductExcept(u[1..], i, x);
    ProductExceptStep(u, i + 1, x);
    MulAssoc(d, c[i + 1], p);
    MulComm(d, c[i + 1]);
    MulAssoc(c[i + 1], d, p);
  }

  lemma LinearCombinationStep(u: seq<Elem>, c: seq<Elem>, x: Elem)
    requires |u| == |c| > 0
    ensures Eval(LinearCombination(u, c), x) ==
            Add(ModuliTerm(u, c, x)(0), Mul(Sub(x, u[0]), Eval(LinearCombination(u[1..], c[1..]), x)))
  {
    var us, cs := u[1..], c[1..];
    EvalAdd(Scale(c[0], RootPoly(us)), MulP(Linear(u[0]), LinearCombination(us, cs)), x);
    EvalScale(c[0], RootPoly(us), x);
    EvalMul(Linear(u[0]), LinearCombination(us, cs), x);
    EvalLinear(u[0], x);
    ProductExceptStep(u, 0, x);
  }

  /** The value at x of the linear combination is sum_i c_i * prod_{m != i} (x - u_m). */
  lemma {:induction false} EvalLinearCombination(u: seq<Elem>, c: seq<Elem>, x: Elem)
    requires |u| == |c|
    ensures Eval(LinearCombination(u, c), x) == Sum(ModuliTerm(u, c, x), |u|)
  {
    if u != [] {
      hide *;
      EvalLinearCombination(u[1..], c[1..], x);
      LinearCombinationStep(u, c, x);
      ModuliSumStep(u, c, x);
    }
  }

  lemma ModuliSumStep(u: seq<Elem>, c: seq<Elem>, x: Elem)
    requires |u| == |c| > 0
    ensures Sum(ModuliTerm(u, c, x), |u|) ==
            Add(ModuliTerm(u, c, x)(0), Mul(Sub(x, u[0]), Sum(ModuliTerm(u[1..], c[1..], x), |u[1..]|)))
  {
    hide *;
    var us, cs, d := u[1..], c[1..], Sub(x, u[0]);
    var term, rest := ModuliTerm(u, c, x), ModuliTerm(us, cs, x);
    var scaled := (i: int) => Mul(d, rest(i));
    forall i | 0 <= i < |us|
      ensures scaled(i) == term(1 + i)
    {
      ModuliTermStep(u, c, x, i);
    }
    SumFirst(term, scaled, |us|);
    SumScale(d, rest, scaled, |us|);
  }

  /** At u_i only the i-th modulus is left. */
  lemma LinearCombinationAtPoint(u: seq<Elem>, c: seq<Elem>, i: nat)
    requires |u| == |c| && i < |u|
    requires Distinct(u)
    ensures Eval(LinearCombination(u, c), u[i]) == Mul(c[i], ProductExcept(u, i, u[i]))
  {
    var term := ModuliTerm(u, c, u[i]);
    EvalLinearCombination(u, c, u[i]);
    forall j | 0 <= j < |u| && j != i
      ensures term(j) == 0
    {
      ProductExceptVanishes(u, j, i);
      MulZero(c[j]);
    }
    SumSingle(term, |u|, i);
  }

  lemma {:induction false} SumSingle(f: int -> Elem, n: nat, i: nat)
    requires i < n && forall j :: 0 <= j < n && j != i ==> f(j) == 0
    ensures Sum(f, n) == f(i)
  {
    SumOfZeros(f, i);
    AddZero(f(i));
    SumPadded(f, i + 1, n);
  }

  lemma ProductExceptVanishes(u: seq<Elem>, j: nat, i: nat)
    requires j < |u| && i < |u| && i != j
    ensures ProductExcept(u, j, u[i]) == 0
  {
    var w := Without(u, j);
    var k := if i < j then i else i - 1;
    assert w[k] == u[i];
    SubSelf(u[i]);
    assert Differences(w, u[i])[k] == 0;
    ProductSeqNonzero(Differences(w, u[i]));
  }

  lemma WithoutMember<T>(u: seq<T>, i: nat, x: T)
    requires i < |u|
    ensures x in Without(u, i) <==> exists j :: 0 <= j < |u| && j != i && u[j] == x
  {
    var w := Without(u, i);
    forall j | 0 <= j < |u| && j != i
      ensures u[j] in w
    {
      assert u[j] == w[if j < i then j else j - 1];
    }
    forall k | 0 <= k < |w|
      ensures exists j :: 0 <= j < |u| && j != i && u[j] == w[k]
    {
      assert w[k] == u[if k < i then k else k + 1];
    }
  }

  lemma DenominatorNonzero(u: seq<Elem>, i: nat)
    requires i < |u|
    ensures ProductExcept(u, i, u[i]) != 0 <==> forall j :: 0 <= j < |u| && j != i ==> u[j] != u[i]
  {
    EvalRootPoly(Without(u, i), u[i]);
    RootPolyVanishes(Without(u, i), u[i]);
    WithoutMember(u, i, u[i]);
  }

  /** The denominators are nonzero exactly when the points are distinct. */
  lemma DenominatorsNonzero(u: seq<Elem>)
    ensures Distinct(u) <==> forall i :: 0 <= i < |u| ==> ProductExcept(u, i, u[i]) != 0
  {
    forall i | 0 <= i < |u|
      ensures ProductExcept(u, i, u[i]) != 0 <==> forall j :: 0 <= j < |u| && j != i ==> u[j] != u[i]
    {
      DenominatorNonzero(u, i);
    }
  }

  lemma {:induction false} LinearCombinationConcat(u: seq<Elem>, v: seq<Elem>, c: seq<Elem>, d: seq<Elem>)
    requires |u| == |c| && |v| == |d|
    ensures LinearCombination(u + v, c + d) ==
            AddP(MulP(RootPoly(v), LinearCombination(u, c)), MulP(RootPoly(u), LinearCombination(v, d)))
  {
    var m := RootPoly(v);
    var r := LinearCombination(v, d);
    if u == [] {
      assert u + v == v && c + d == d;
      MulPEmpty(m);
      MulPOne(r);
      TrimIsIdentity(r);
      AddPEmpty(r);
    } else {
      var us, cs := u[1..], c[1..];
      var l, n, p := Linear(u[0]), RootPoly(us), LinearCombination(us, cs);
      assert (u + v)[1..] == us + v && (c + d)[1..] == cs + d;
      LinearCombinationConcat(us, v, cs, d);
      RootPolyConcat(us, v);
      calc {
        LinearCombination(u + v, c + d);
        AddP(Scale(c[0], MulP(n, m)), MulP(l, AddP(MulP(m, p), MulP(n, r))));
        { MulPDistrib(l, MulP(m, p), MulP(n, r)); }
        AddP(Scale(c[0], MulP(n, m)), AddP(MulP(l, MulP(m, p)), MulP(l, MulP(n, r))));
        {
          MulPComm(n, m);
          MulPScale(c[0], m, n);
          MulPAssoc(l, m, p);
          MulPComm(l, m);
          MulPAssoc(m, l, p);
          MulPAssoc(l, n, r);
        }
        AddP(MulP(m, Scale(c[0], n)), AddP(MulP(m, MulP(l, p)), MulP(MulP(l, n), r)));
        { AddPAssoc(MulP(m, Scale(c[0], n)), MulP(m, MulP(l, p)), MulP(MulP(l, n), r)); }
        AddP(AddP(MulP(m, Scale(c[0], n)), MulP(m, MulP(l, p))), MulP(MulP(l, n), r));
        { MulPDistrib(m, Scale(c[0], n), MulP(l, p)); }
        AddP(MulP(m, LinearCombination(u, c)), MulP(RootPoly(u), r));
      }
    }
  }

  // ---- The interpolating polynomial -----------------------------------------------

  function Weights(u: seq<Elem>, v: seq<Elem>): seq<Elem>
    requires |u| == |v|
  {
    seq(|u|, i requires 0 <= i < |u| => Mul(Inv(ProductExcept(u, i, u[i])), v[i]))
  }

  /** The polynomial of degree below |u| with value v_i at u_i, for distinct u */
  function Interpolant(u: seq<Elem>, v: seq<Elem>): Poly
    requires |u| == |v|
  {
    LinearCombination(u, Weights(u, v))
  }

  lemma InterpolantValues(u: seq<Elem>, v: seq<Elem>)
    requires |u| == |v| && Distinct(u)
    ensures |Interpolant(u, v)| <= |u|
    ensures forall i :: 0 <= i < |u| ==> Eval(Interpolant(u, v), u[i]) == v[i]
  {
    LinearCombinationLength(u, Weights(u, v));
    DenominatorsNonzero(u);
    forall i | 0 <= i < |u|
      ensures Eval(Interpolant(u, v), u[i]) == v[i]
    {
      var d := ProductExcept(u, i, u[i]);
      LinearCombinationAtPoint(u, Weights(u, v), i);
      MulComm(Mul(Inv(d), v[i]), d);
      CancelLeft(d, v[i]);
    }
  }

  lemma InterpolantUnique(f: Vec, u: seq<Elem>, v: seq<Elem>)
    requires |u| == |v| && Distinct(u) && |f| <= |u|
    requires forall i :: 0 <= i < |u| ==> Eval(f, u[i]) == v[i]
    ensures Interpolant(u, v) == Trim(f)
  {
    InterpolantValues(u, v);
    SameValues(f, Interpolant(u, v), u);
    TrimIsIdentity(Interpolant(u, v));
  }

  // ---- Lagrange coefficients -----------------------------------------------------

  /** prod_{m != j} (x - u_m) / (u_j - u_m) */
  function LagrangeCoefficient(u: seq<Elem>, j: nat, x: Elem): Elem
    requires j < |u|
  {
    Mul(ProductExcept(u, j, x), Inv(ProductExcept(u, j, u[j])))
  }

  /** sum_j L_j(x) * v_j */
  function LagrangeTerm(u: seq<Elem>, v: seq<Elem>, x: Elem): int -> Elem
    requires |u| == |v|
  {
    (j: int) => if 0 <= j < |u| then Mul(LagrangeCoefficient(u, j, x), v[j]) else 0
  }

  function LagrangeSum(u: seq<Elem>, v: seq<Elem>, x: Elem): Elem
    requires |u| == |v|
  {
    Sum(LagrangeTerm(u, v, x), |u|)
  }

  lemma LagrangeSumIsInterpolant(u: seq<Elem>, v: seq<Elem>, x: Elem)
    requires |u| == |v|
    ensures LagrangeSum(u, v, x) == Eval(Interpolant(u, v), x)
  {
    var w := Weights(u, v);
    EvalLinearCombination(u, w, x);
    forall i | 0 <= i < |u|
      ensures LagrangeTerm(u, v, x)(i) == ModuliTerm(u, w, x)(i)
    {
      var p, d := ProductExcept(u, i, x), Inv(ProductExcept(u, i, u[i]));
      MulAssoc(p, d, v[i]);
      MulComm(p, Mul(d, v[i]));
    }
    SumExt(LagrangeTerm(u, v, x), ModuliTerm(u, w, x), |u|);
  }

  function Values(f: Vec, u: seq<Elem>): seq<Elem> {
    seq(|u|, i requires 0 <= i < |u| => Eval(f, u[i]))
  }

  /**
   How far Lagrange reconstruction from |u| values is off, for a polynomial of any
   degree: by the quotient of f by RootPoly(u), times RootPoly(u), at x.
   */
  lemma ReconstructionDefect(f: Vec, u: seq<Elem>, x: Elem)
    requires Distinct(u)
    ensures Eval(f, x) ==
            Add(LagrangeSum(u, Values(f, u), x), Mul(Eval(Quotients(f, u), x), ProductSeq(Differences(u, x))))
  {
    var r := Remainder(f, u);
    RemainderLength(f, u);
    forall i | 0 <= i < |u| ensures Eval(r, u[i]) == Values(f, u)[i] {
      RemainderValues(f, u, i);
    }
    InterpolantUnique(r, u, Values(f, u));
    TrimIsIdentity(r);
    LagrangeSumIsInterpolant(u, Values(f, u), x);
    DivideByRootPoly(f, u, x);
    EvalRootPoly(u, x);
  }

  /** Lagrange reconstruction is exact from as many values as there are coefficients. */
  lemma Reconstruction(f: Vec, u: seq<Elem>, x: Elem)
    requires Distinct(u) && |f| <= |u|
    ensures LagrangeSum(u, Values(f, u), x) == Eval(f, x)
  {
    ReconstructionDefect(f, u, x);
    QuotientsShape(f, u);
    MulZero(ProductSeq(Differences(u, x)));
    AddZero(LagrangeSum(u, Values(f, u), x));
  }

  /** With one value too few, reconstruction is off by the leading coefficient times prod (x - u_i). */
  lemma ReconstructionOneShort(f: Vec, u: seq<Elem>, x: Elem)
    requires Distinct(u) && |f| == |u| + 1
    ensures Sub(Eval(f, x), LagrangeSum(u, Values(f, u), x)) ==
            Mul(f[|f| - 1], ProductSeq(Differences(u, x)))
  {
    var l, d := LagrangeSum(u, Values(f, u), x), Mul(f[|f| - 1], ProductSeq(Differences(u, x)));
    ReconstructionDefect(f, u, x);
    QuotientsShape(f, u);
    EvalConst(f[|f| - 1], x);
    AddComm(l, d);
    AddSub(d, l);
  }

  /** Lagrange sums add up. */
  lemma LagrangeSumAdd(u: seq<Elem>, v: seq<Elem>, w: seq<Elem>, s: seq<Elem>, x: Elem)
    requires |u| == |v| == |w| == |s| && forall i :: 0 <= i < |u| ==> s[i] == Add(v[i], w[i])
    ensures LagrangeSum(u, s, x) == Add(LagrangeSum(u, v, x), LagrangeSum(u, w, x))
  {
    forall i | 0 <= i < |u|
      ensures LagrangeTerm(u, s, x)(i) == Add(LagrangeTerm(u, v, x)(i), LagrangeTerm(u, w, x)(i))
    {
      Distrib(LagrangeCoefficient(u, i, x), v[i], w[i]);
    }
    SumAdd(LagrangeTerm(u, v, x), LagrangeTerm(u, w, x), LagrangeTerm(u, s, x), |u|);
  }

  // ---- Values read at other points ---------------------------------------------------

  lemma EvalPair(f: Vec, x: Elem)
    requires |f| <= 2
    ensures Eval(f, x) == Add(Coeff(f, 0), Mul(x, Coeff(f, 1)))
  {
    MulZero(x);
    AddZero(0);
    if |f| == 2 {
      EvalConst(f[1], x);
      assert f[1..] == [f[1]];
    } else if |f| == 1 {
      EvalConst(f[0], x);
      AddZero(f[0]);
    }
  }

  /**
   The values of a + b t at 1 and y, taken for values at 1 and x, interpolate to a at 0 only
   if nothing depends on the points, or they are the same.
   */
  lemma MisplacedPair(a: Elem, b: Elem, x: Elem, y: Elem)
    requires x != 1
    ensures LagrangeSum([1, x], Values([a, b], [1, y]), 0) == a <==> b == 0 || x == y
  {
    var u, v := [1, x], Values([a, b], [1, y]);
    var q := Interpolant(u, v);
    InterpolantValues(u, v);
    LagrangeSumIsInterpolant(u, v, 0);
    EvalAtZero(q);
    EvalPair([a, b], 1);
    EvalPair([a, b], y);
    EvalPair(q, u[0]);
    EvalPair(q, u[1]);
    MulOne(b);
    MulOne(Coeff(q, 1));
    if Coeff(q, 0) == a {
      AddComm(a, b);
      AddComm(a, Coeff(q, 1));
      AddCancel(b, Coeff(q, 1), a);
      AddComm(a, Mul(y, b));
      AddComm(a, Mul(x, b));
      AddCancel(Mul(y, b), Mul(x, b), a);
      MulComm(x, b);
      MulComm(y, b);
      if b != 0 {
        MulCancel(b, x, y);
      }
    }
    if b == 0 || x == y {
      EvalPair([a, b], x);
      MulZero(x);
      MulZero(y);
      assert v == Values([a, b], u);
      Reconstruction([a, b], u, 0);
      EvalAtZero([a, b]);
    }
  }
}
