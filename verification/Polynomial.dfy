/**
 Dense univariate polynomials.  A coefficient vector is any sequence of field
 elements, read with total lookup; a polynomial is a vector without a trailing zero,
 so that equality of polynomials is equality of sequences.  Sum, difference and
 product take vectors and return polynomials, as the dense polynomials of the
 arkworks library do.
 */
module Polynomial {
  import opened PrimeField
  import opened Sums

  type Vec = seq<Elem>

  predicate IsPoly(f: Vec) {
    f == [] || f[|f| - 1] != 0
  }

  type Poly = f: Vec | IsPoly(f) witness []

  /** The coefficient of x^i, zero outside the vector. */
  function Coeff(f: Vec, i: int): Elem {
    if 0 <= i < |f| then f[i] else 0
  }

  /** c + x*f */
  function Cons(c: Elem, f: Poly): Poly {
    if c == 0 && f == [] then [] else [c] + f
  }

  /** The polynomial a coefficient vector stands for. */
  function Trim(f: Vec): Poly {
    if f == [] then [] else Cons(f[0], Trim(f[1..]))
  }

  /** f(x), by Horner's rule */
  function Eval(f: Vec, x: Elem): Elem {
    if f == [] then 0 else Add(f[0], Mul(x, Eval(f[1..], x)))
  }

  function Max(m: nat, n: nat): nat { if m < n then n else m }

  // ---- The ring operations ------------------------------------------------------

  // As for the field, the operations are reached through a constant whose type pins
  // them to their definitions, so that these are unfolded only on request.

  function SumVec(f: Vec, g: Vec): Vec {
    seq(Max(|f|, |g|), i => Add(Coeff(f, i), Coeff(g, i)))
  }

  function DifferenceVec(f: Vec, g: Vec): Vec {
    seq(Max(|f|, |g|), i => Sub(Coeff(f, i), Coeff(g, i)))
  }

  function ScaledVec(c: Elem, f: Vec): Vec {
    seq(|f|, i => Mul(c, Coeff(f, i)))
  }

  datatype PolyOps = PolyOps(
    add: (Vec, Vec) -> Poly,
    sub: (Vec, Vec) -> Poly,
    scale: (Elem, Vec) -> Poly,
    mul: (Vec, Vec) -> Poly)

  ghost predicate AddIs(o: PolyOps, f: Vec, g: Vec) {
    o.add(f, g) == Trim(SumVec(f, g))
  }

  ghost predicate SubIs(o: PolyOps, f: Vec, g: Vec) {
    o.sub(f, g) == Trim(DifferenceVec(f, g))
  }

  ghost predicate ScaleIs(o: PolyOps, c: Elem, f: Vec) {
    o.scale(c, f) == Trim(ScaledVec(c, f))
  }

  ghost predicate MulIs(o: PolyOps, f: Vec, g: Vec) {
    o.mul(f, g) == if f == [] then [] else o.add(o.scale(f[0], g), Cons(0, o.mul(f[1..], g)))
  }

  ghost predicate IsDense(o: PolyOps) {
    && (forall f: Vec, g: Vec {:trigger AddIs(o, f, g)} :: AddIs(o, f, g))
    && (forall f: Vec, g: Vec {:trigger SubIs(o, f, g)} :: SubIs(o, f, g))
    && (forall c: Elem, f: Vec {:trigger ScaleIs(o, c, f)} :: ScaleIs(o, c, f))
    && (forall f: Vec, g: Vec {:trigger MulIs(o, f, g)} :: MulIs(o, f, g))
  }

  function DenseAdd(f: Vec, g: Vec): Poly {
    Trim(SumVec(f, g))
  }

  function DenseSub(f: Vec, g: Vec): Poly {
    Trim(DifferenceVec(f, g))
  }

  function DenseScale(c: Elem, f: Vec): Poly {
    Trim(ScaledVec(c, f))
  }

  function DenseMul(f: Vec, g: Vec): Poly {
    if f == [] then [] else DenseAdd(DenseScale(f[0], g), Cons(0, DenseMul(f[1..], g)))
  }

  type DenseOps = o: PolyOps | IsDense(o)
    witness PolyOps(DenseAdd, DenseSub, DenseScale, DenseMul)

  const POLY: DenseOps

  function AddP(f: Vec, g: Vec): Poly { POLY.add(f, g) }

  function SubP(f: Vec, g: Vec): Poly { POLY.sub(f, g) }

  function Scale(c: Elem, f: Vec): Poly { POLY.scale(c, f) }

  function MulP(f: Vec, g: Vec): Poly { POLY.mul(f, g) }

  // ---- Polynomials are determined by their coefficients ------------------------

  lemma CoeffCons(c: Elem, f: Poly, i: int)
    ensures Coeff(Cons(c, f), i) == if i == 0 then c else Coeff(f, i - 1)
  {
  }

  lemma {:induction false} CoeffTrim(f: Vec, i: int)
    ensures Coeff(Trim(f), i) == Coeff(f, i)
  {
    if f != [] {
      CoeffTrim(f[1..], i - 1);
      CoeffCons(f[0], Trim(f[1..]), i);
    }
  }

  lemma {:induction false} TrimLength(f: Vec)
    ensures |Trim(f)| <= |f|
  {
    if f != [] {
      TrimLength(f[1..]);
    }
  }

  /** Nothing is left exactly of a vector of zeros. */
  lemma TrimmedAway(f: Vec)
    ensures Trim(f) != [] <==> exists i :: 0 <= i < |f| && f[i] != 0
  {
    TrimLength(f);
    if Trim(f) == [] {
      forall i | 0 <= i < |f| ensures f[i] == 0 {
        CoeffTrim(f, i);
      }
    } else {
      var n := |Trim(f)| - 1;
      CoeffTrim(f, n);
      assert f[n] != 0;
    }
  }

  lemma Ext(f: Poly, g: Poly)
    requires forall i: nat :: Coeff(f, i) == Coeff(g, i)
    ensures f == g
  {
    assert |g| > 0 ==> Coeff(f, |g| - 1) == Coeff(g, |g| - 1);
    assert |f| > 0 ==> Coeff(f, |f| - 1) == Coeff(g, |f| - 1);
    forall i | 0 <= i < |f|
      ensures f[i] == g[i]
    {
      assert Coeff(f, i) == Coeff(g, i);
    }
  }

  lemma TrimIsIdentity(f: Poly)
    ensures Trim(f) == f
  {
    forall i: nat ensures Coeff(Trim(f), i) == Coeff(f, i) { CoeffTrim(f, i); }
    Ext(Trim(f), f);
  }

  /** A polynomial whose coefficients from n on vanish has at most n of them. */
  lemma LengthBound(f: Poly, n: nat)
    requires forall i :: n <= i < |f| ==> f[i] == 0
    ensures |f| <= n
  {
  }

  lemma CoeffAdd(f: Vec, g: Vec, i: int)
    ensures Coeff(AddP(f, g), i) == Add(Coeff(f, i), Coeff(g, i))
  {
    assert AddIs(POLY, f, g);
    CoeffTrim(SumVec(f, g), i);
    AddZero(0);
  }

  lemma CoeffSub(f: Vec, g: Vec, i: int)
    ensures Coeff(SubP(f, g), i) == Sub(Coeff(f, i), Coeff(g, i))
  {
    assert SubIs(POLY, f, g);
    CoeffTrim(DifferenceVec(f, g), i);
    SubSelf(0);
  }

  lemma CoeffScale(c: Elem, f: Vec, i: int)
    ensures Coeff(Scale(c, f), i) == Mul(c, Coeff(f, i))
  {
    assert ScaleIs(POLY, c, f);
    CoeffTrim(ScaledVec(c, f), i);
    MulZero(c);
  }

  /** The Cauchy product: what MulP computes, coefficient by coefficient. */
  function Cauchy(f: Vec, g: Vec, k: int): Elem {
    if k < 0 then 0 else Sum(CauchyTerm(f, g, k), k + 1)
  }

  function CauchyTerm(f: Vec, g: Vec, k: int): int -> Elem {
    (i: int) => Mul(Coeff(f, i), Coeff(g, k - i))
  }

  lemma {:induction false} CoeffMul(f: Vec, g: Vec, k: int)
    ensures Coeff(MulP(f, g), k) == Cauchy(f, g, k)
    decreases |f|
  {
    assert MulIs(POLY, f, g);
    if k < 0 {
    } else if f == [] {
      forall i ensures CauchyTerm(f, g, k)(i) == 0 { MulZero(Coeff(g, k - i)); }
      SumOfZeros(CauchyTerm(f, g, k), k + 1);
    } else {
      var f' := f[1..];
      CoeffMul(f', g, k - 1);
      CoeffAdd(Scale(f[0], g), Cons(0, MulP(f', g)), k);
      CoeffScale(f[0], g, k);
      CoeffCons(0, MulP(f', g), k);
      CauchyStep(f, g, k);
    }
  }

  lemma CauchyStep(f: Vec, g: Vec, k: nat)
    requires f != []
    ensures Cauchy(f, g, k) == Add(Mul(f[0], Coeff(g, k)), Cauchy(f[1..], g, k - 1))
  {
    SumFirst(CauchyTerm(f, g, k), CauchyTerm(f[1..], g, k - 1), k);
  }

  // ---- Laws of addition, coefficient by coefficient ----------------------------

  lemma AddPComm(f: Vec, g: Vec)
    ensures AddP(f, g) == AddP(g, f)
  {
    forall i: nat ensures Coeff(AddP(f, g), i) == Coeff(AddP(g, f), i) {
      CoeffAdd(f, g, i);
      CoeffAdd(g, f, i);
      AddComm(Coeff(f, i), Coeff(g, i));
    }
    Ext(AddP(f, g), AddP(g, f));
  }

  lemma AddPAssoc(f: Vec, g: Vec, h: Vec)
    ensures AddP(AddP(f, g), h) == AddP(f, AddP(g, h))
  {
    forall i: nat ensures Coeff(AddP(AddP(f, g), h), i) == Coeff(AddP(f, AddP(g, h)), i) {
      CoeffAdd(f, g, i);
      CoeffAdd(AddP(f, g), h, i);
      CoeffAdd(g, h, i);
      CoeffAdd(f, AddP(g, h), i);
      AddAssoc(Coeff(f, i), Coeff(g, i), Coeff(h, i));
    }
    Ext(AddP(AddP(f, g), h), AddP(f, AddP(g, h)));
  }

  /** (e + f) + (g + h) == (e + g) + (f + h) */
  lemma AddPSwap(e: Vec, f: Vec, g: Vec, h: Vec)
    ensures AddP(AddP(e, f), AddP(g, h)) == AddP(AddP(e, g), AddP(f, h))
  {
    AddPAssoc(e, f, AddP(g, h));
    AddPAssoc(f, g, h);
    AddPComm(f, g);
    AddPAssoc(g, f, h);
    AddPAssoc(e, g, AddP(f, h));
  }

  lemma AddPEmpty(f: Vec)
    ensures AddP(f, []) == Trim(f) && AddP([], f) == Trim(f)
  {
    forall i: nat ensures Coeff(AddP(f, []), i) == Coeff(Trim(f), i) {
      CoeffAdd(f, [], i);
      CoeffTrim(f, i);
      AddZero(Coeff(f, i));
    }
    Ext(AddP(f, []), Trim(f));
    AddPComm(f, []);
  }

  /** (f - g) + g == f, and f + g - g == f */
  lemma AddSubP(f: Vec, g: Vec)
    ensures AddP(SubP(f, g), g) == Trim(f) && SubP(AddP(f, g), g) == Trim(f)
  {
    forall i: nat
      ensures Coeff(AddP(SubP(f, g), g), i) == Coeff(Trim(f), i)
      ensures Coeff(SubP(AddP(f, g), g), i) == Coeff(Trim(f), i)
    {
      CoeffSub(f, g, i);
      CoeffAdd(SubP(f, g), g, i);
      CoeffAdd(f, g, i);
      CoeffSub(AddP(f, g), g, i);
      CoeffTrim(f, i);
      AddSub(Coeff(f, i), Coeff(g, i));
    }
    Ext(AddP(SubP(f, g), g), Trim(f));
    Ext(SubP(AddP(f, g), g), Trim(f));
  }

  // ---- Laws of multiplication ---------------------------------------------------

  lemma MulPComm(f: Vec, g: Vec)
    ensures MulP(f, g) == MulP(g, f)
  {
    forall k: nat ensures Coeff(MulP(f, g), k) == Coeff(MulP(g, f), k) {
      CoeffMul(f, g, k);
      CoeffMul(g, f, k);
      var term, mirror := CauchyTerm(f, g, k), CauchyTerm(g, f, k);
      forall i | 0 <= i < k + 1 ensures mirror(i) == term(k - i) {
        MulComm(Coeff(g, i), Coeff(f, k - i));
      }
      SumReverse(term, mirror, k + 1);
    }
    Ext(MulP(f, g), MulP(g, f));
  }

  lemma ScaleAdd(c: Elem, f: Vec, g: Vec)
    ensures Scale(c, AddP(f, g)) == AddP(Scale(c, f), Scale(c, g))
  {
    forall i: nat ensures Coeff(Scale(c, AddP(f, g)), i) == Coeff(AddP(Scale(c, f), Scale(c, g)), i) {
      CoeffScale(c, AddP(f, g), i);
      CoeffAdd(f, g, i);
      CoeffScale(c, f, i);
      CoeffScale(c, g, i);
      CoeffAdd(Scale(c, f), Scale(c, g), i);
      Distrib(c, Coeff(f, i), Coeff(g, i));
    }
    Ext(Scale(c, AddP(f, g)), AddP(Scale(c, f), Scale(c, g)));
  }

  lemma ScaleScale(c: Elem, d: Elem, f: Vec)
    ensures Scale(c, Scale(d, f)) == Scale(Mul(c, d), f)
  {
    forall i: nat ensures Coeff(Scale(c, Scale(d, f)), i) == Coeff(Scale(Mul(c, d), f), i) {
      CoeffScale(c, Scale(d, f), i);
      CoeffScale(d, f, i);
      CoeffScale(Mul(c, d), f, i);
      MulAssoc(c, d, Coeff(f, i));
    }
    Ext(Scale(c, Scale(d, f)), Scale(Mul(c, d), f));
  }

  lemma ScaleOne(f: Vec)
    ensures Scale(1, f) == Trim(f)
  {
    forall i: nat ensures Coeff(Scale(1, f), i) == Coeff(Trim(f), i) {
      CoeffScale(1, f, i);
      CoeffTrim(f, i);
      MulOne(Coeff(f, i));
    }
    Ext(Scale(1, f), Trim(f));
  }

  lemma ScaleEmpty(c: Elem)
    ensures Scale(c, []) == []
  {
    assert ScaleIs(POLY, c, []);
  }

  lemma ConsAdd(f: Poly, g: Poly)
    ensures Cons(0, AddP(f, g)) == AddP(Cons(0, f), Cons(0, g))
  {
    forall i: nat ensures Coeff(Cons(0, AddP(f, g)), i) == Coeff(AddP(Cons(0, f), Cons(0, g)), i) {
      CoeffCons(0, AddP(f, g), i);
      CoeffCons(0, f, i);
      CoeffCons(0, g, i);
      CoeffAdd(Cons(0, f), Cons(0, g), i);
      CoeffAdd(f, g, i - 1);
      AddZero(0);
    }
    Ext(Cons(0, AddP(f, g)), AddP(Cons(0, f), Cons(0, g)));
  }

  lemma ConsScale(c: Elem, f: Poly)
    ensures Scale(c, Cons(0, f)) == Cons(0, Scale(c, f))
  {
    forall i: nat ensures Coeff(Scale(c, Cons(0, f)), i) == Coeff(Cons(0, Scale(c, f)), i) {
      CoeffScale(c, Cons(0, f), i);
      CoeffCons(0, f, i);
      CoeffCons(0, Scale(c, f), i);
      CoeffScale(c, f, i - 1);
      MulZero(c);
    }
    Ext(Scale(c, Cons(0, f)), Cons(0, Scale(c, f)));
  }

  lemma {:induction false} MulPDistrib(f: Vec, g: Vec, h: Vec)
    ensures MulP(f, AddP(g, h)) == AddP(MulP(f, g), MulP(f, h))
  {
    assert MulIs(POLY, f, AddP(g, h)) && MulIs(POLY, f, g) && MulIs(POLY, f, h);
    if f == [] {
      AddPEmpty([]);
    } else {
      var f' := f[1..];
      MulPDistrib(f', g, h);
      ScaleAdd(f[0], g, h);
      ConsAdd(MulP(f', g), MulP(f', h));
      AddPSwap(Scale(f[0], g), Scale(f[0], h), Cons(0, MulP(f', g)), Cons(0, MulP(f', h)));
    }
  }

  lemma MulPDistribLeft(f: Vec, g: Vec, h: Vec)
    ensures MulP(AddP(f, g), h) == AddP(MulP(f, h), MulP(g, h))
  {
    MulPComm(AddP(f, g), h);
    MulPComm(f, h);
    MulPComm(g, h);
    MulPDistrib(h, f, g);
  }

  lemma {:induction false} MulPScale(c: Elem, f: Vec, g: Vec)
    ensures MulP(f, Scale(c, g)) == Scale(c, MulP(f, g))
  {
    assert MulIs(POLY, f, Scale(c, g)) && MulIs(POLY, f, g);
    if f == [] {
      ScaleEmpty(c);
    } else {
      var f' := f[1..];
      MulPScale(c, f', g);
      ScaleScale(f[0], c, g);
      ScaleScale(c, f[0], g);
      MulComm(f[0], c);
      ConsScale(c, MulP(f', g));
      ScaleAdd(c, Scale(f[0], g), Cons(0, MulP(f', g)));
    }
  }

  lemma {:induction false} MulPCons(f: Vec, g: Poly)
    ensures MulP(f, Cons(0, g)) == Cons(0, MulP(f, g))
  {
    assert MulIs(POLY, f, Cons(0, g)) && MulIs(POLY, f, g);
    if f == [] {
    } else {
      var f' := f[1..];
      MulPCons(f', g);
      ConsScale(f[0], g);
      ConsAdd(Scale(f[0], g), Cons(0, MulP(f', g)));
    }
  }

  lemma {:induction false} MulPAssoc(f: Vec, g: Vec, h: Vec)
    ensures MulP(MulP(f, g), h) == MulP(f, MulP(g, h))
  {
    assert MulIs(POLY, f, g) && MulIs(POLY, f, MulP(g, h)) && MulIs(POLY, [], h);
    if f == [] {
    } else {
      var f' := f[1..];
      var p := MulP(f', g);
      MulPAssoc(f', g, h);
      MulPDistribLeft(Scale(f[0], g), Cons(0, p), h);
      MulPComm(Scale(f[0], g), h);
      MulPScale(f[0], h, g);
      MulPComm(h, g);
      MulPComm(Cons(0, p), h);
      MulPCons(h, p);
      MulPComm(h, p);
    }
  }

  lemma MulPConst(c: Elem, f: Vec)
    ensures MulP([c], f) == Scale(c, f) && MulP(f, [c]) == Scale(c, f)
  {
    assert MulIs(POLY, [c], f) && MulIs(POLY, [], f);
    assert [c][1..] == [];
    assert MulP([c], f) == AddP(Scale(c, f), Cons(0, MulP([], f)));
    AddPEmpty(Scale(c, f));
    TrimIsIdentity(Scale(c, f));
    MulPComm([c], f);
  }

  lemma MulPOne(f: Vec)
    ensures MulP([1], f) == Trim(f) && MulP(f, [1]) == Trim(f)
  {
    MulPConst(1, f);
    ScaleOne(f);
  }

  lemma MulPEmpty(f: Vec)
    ensures MulP(f, []) == [] && MulP([], f) == []
  {
    assert MulIs(POLY, [], f);
    MulPComm(f, []);
  }

  lemma MulPTrim(f: Vec, g: Vec)
    ensures MulP(Trim(f), g) == MulP(f, g) && MulP(f, Trim(g)) == MulP(f, g)
  {
    MulPOne(f);
    MulPOne(g);
    MulPAssoc([1], f, g);
    MulPOne(MulP(f, g));
    TrimIsIdentity(MulP(f, g));
    MulPAssoc(f, g, [1]);
  }

  lemma MulPSubDistrib(f: Vec, g: Vec, h: Vec)
    ensures MulP(f, SubP(g, h)) == SubP(MulP(f, g), MulP(f, h))
  {
    MulPDistrib(f, SubP(g, h), h);
    AddSubP(g, h);
    MulPTrim(f, g);
    AddSubP(MulP(f, SubP(g, h)), MulP(f, h));
    TrimIsIdentity(MulP(f, SubP(g, h)));
  }

  lemma {:induction false} MulPLength(f: Vec, g: Vec)
    ensures |MulP(f, g)| <= if f == [] || g == [] then 0 else |f| + |g| - 1
  {
    if f == [] || g == [] {
      MulPEmpty(f);
      MulPEmpty(g);
    } else {
      MulPLength(f[1..], g);
      assert MulIs(POLY, f, g) && ScaleIs(POLY, f[0], g);
      TrimLength(ScaledVec(f[0], g));
      AddPLength(Scale(f[0], g), Cons(0, MulP(f[1..], g)));
    }
  }

  lemma AddPLength(f: Vec, g: Vec)
    ensures |AddP(f, g)| <= Max(|f|, |g|)
  {
    assert AddIs(POLY, f, g);
    TrimLength(SumVec(f, g));
  }

  // ---- Evaluation is a ring homomorphism ----------------------------------------

  lemma EvalCons(c: Elem, f: Poly, x: Elem)
    ensures Eval(Cons(c, f), x) == Add(c, Mul(x, Eval(f, x)))
  {
    if Cons(c, f) == [] {
      MulZero(x);
      AddZero(0);
    } else {
      assert ([c] + f)[1..] == f;
    }
  }

  lemma {:induction false} EvalTrim(f: Vec, x: Elem)
    ensures Eval(Trim(f), x) == Eval(f, x)
  {
    if f != [] {
      EvalTrim(f[1..], x);
      EvalCons(f[0], Trim(f[1..]), x);
    }
  }

  /** Vectors with the same coefficients have the same values. */
  lemma EvalExt(f: Vec, g: Vec, x: Elem)
    requires forall i: nat :: Coeff(f, i) == Coeff(g, i)
    ensures Eval(f, x) == Eval(g, x)
  {
    forall i: nat ensures Coeff(Trim(f), i) == Coeff(Trim(g), i) {
      CoeffTrim(f, i);
      CoeffTrim(g, i);
    }
    Ext(Trim(f), Trim(g));
    EvalTrim(f, x);
    EvalTrim(g, x);
  }

  lemma {:induction false} EvalSum(f: Vec, g: Vec, h: Vec, x: Elem)
    requires |f| == |g| == |h|
    requires forall i :: 0 <= i < |h| ==> h[i] == Add(f[i], g[i])
    ensures Eval(h, x) == Add(Eval(f, x), Eval(g, x))
  {
    if h == [] {
      AddZero(0);
    } else {
      var a, b := Eval(f[1..], x), Eval(g[1..], x);
      EvalSum(f[1..], g[1..], h[1..], x);
      Distrib(x, a, b);
      AddSwap(f[0], g[0], Mul(x, a), Mul(x, b));
    }
  }

  lemma EvalAdd(f: Vec, g: Vec, x: Elem)
    ensures Eval(AddP(f, g), x) == Add(Eval(f, x), Eval(g, x))
  {
    var n := Max(|f|, |g|);
    var f', g' := seq(n, i => Coeff(f, i)), seq(n, i => Coeff(g, i));
    EvalExt(f, f', x);
    EvalExt(g, g', x);
    assert AddIs(POLY, f, g);
    EvalSum(f', g', SumVec(f, g), x);
    EvalTrim(SumVec(f, g), x);
  }

  lemma EvalSub(f: Vec, g: Vec, x: Elem)
    ensures Eval(SubP(f, g), x) == Sub(Eval(f, x), Eval(g, x))
  {
    AddSubP(f, g);
    EvalAdd(SubP(f, g), g, x);
    EvalTrim(f, x);
    AddSub(Eval(SubP(f, g), x), Eval(g, x));
  }

  lemma {:induction false} EvalScaled(c: Elem, f: Vec, h: Vec, x: Elem)
    requires |f| == |h| && forall i :: 0 <= i < |h| ==> h[i] == Mul(c, f[i])
    ensures Eval(h, x) == Mul(c, Eval(f, x))
  {
    if h == [] {
      MulZero(c);
    } else {
      var e := Eval(f[1..], x);
      EvalScaled(c, f[1..], h[1..], x);
      Distrib(c, f[0], Mul(x, e));
      MulAssoc(x, c, e);
      MulComm(x, c);
      MulAssoc(c, x, e);
    }
  }

  lemma EvalScale(c: Elem, f: Vec, x: Elem)
    ensures Eval(Scale(c, f), x) == Mul(c, Eval(f, x))
  {
    assert ScaleIs(POLY, c, f);
    EvalScaled(c, f, ScaledVec(c, f), x);
    EvalTrim(ScaledVec(c, f), x);
  }

  lemma {:induction false} EvalMul(f: Vec, g: Vec, x: Elem)
    ensures Eval(MulP(f, g), x) == Mul(Eval(f, x), Eval(g, x))
  {
    assert MulIs(POLY, f, g);
    if f == [] {
      MulZero(Eval(g, x));
    } else {
      var f' := f[1..];
      var b := Eval(g, x);
      EvalMul(f', g, x);
      EvalAdd(Scale(f[0], g), Cons(0, MulP(f', g)), x);
      EvalScale(f[0], g, x);
      EvalCons(0, MulP(f', g), x);
      AddZero(Mul(x, Mul(Eval(f', x), b)));
      MulAssoc(x, Eval(f', x), b);
      Distrib(b, f[0], Mul(x, Eval(f', x)));
    }
  }

  lemma {:induction false} EvalConcat(f: Vec, g: Vec, x: Elem)
    ensures Eval(f + g, x) == Add(Eval(f, x), Mul(Pow(x, |f|), Eval(g, x)))
  {
    if f == [] {
      assert f + g == g;
      MulOne(Eval(g, x));
      AddZero(Eval(g, x));
    } else {
      var f' := f[1..];
      assert (f + g)[1..] == f' + g;
      EvalConcat(f', g, x);
      Distrib(x, Eval(f', x), Mul(Pow(x, |f'|), Eval(g, x)));
      MulAssoc(x, Pow(x, |f'|), Eval(g, x));
      AddAssoc(f[0], Mul(x, Eval(f', x)), Mul(Pow(x, |f|), Eval(g, x)));
    }
  }

  lemma EvalConst(c: Elem, x: Elem)
    ensures Eval([c], x) == c
  {
    assert Eval([c], x) == Add(c, Mul(x, Eval([c][1..], x)));
    MulZero(x);
    AddZero(c);
  }

  lemma EvalAtZero(f: Vec)
    ensures Eval(f, 0) == Coeff(f, 0)
  {
    if f != [] {
      MulZero(Eval(f[1..], 0));
      AddZero(f[0]);
    }
  }
}
