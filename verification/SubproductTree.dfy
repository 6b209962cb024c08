/**
 Fast multipoint evaluation and interpolation over arbitrary points, by a binary
 tree of partial products (algorithms 10.3, 10.5 and 10.9 of Gathen and Gerhard,
 "Modern Computer Algebra").

 A panic of the source is a failed result here: `ok == false`, or `None`.
 */
module SubproductTree {
  import opened Wrappers
  import opened PrimeField
  import opened Polynomial
  import opened FastDivision
  import opened Interpolation

  // ---- The tree -----------------------------------------------------------------

  datatype Tree = Leaf(m: Vec) | Node(left: Tree, right: Tree, m: Vec)

  function NewTree(u: seq<Elem>): Tree
    requires u != []
    decreases |u|
  {
    if |u| == 1 then
      Leaf([Neg(u[0]), 1])
    else
      var n := |u| / 2;
      var left, right := NewTree(u[..n]), NewTree(u[n..]);
      Node(left, right, MulP(left.m, right.m))
  }

  /** Every node of the tree holds the product of x - u_i over its own points. */
  lemma {:induction false} TreeModulus(u: seq<Elem>)
    requires u != []
    ensures NewTree(u).m == RootPoly(u)
    decreases |u|
  {
    if |u| == 1 {
      assert u[1..] == [];
      MulPOne(Linear(u[0]));
      TrimIsIdentity(Linear(u[0]));
    } else {
      NewTreeStep(u);
      hide *;
      var n := |u| / 2;
      TreeModulus(u[..n]);
      TreeModulus(u[n..]);
      RootPolyConcat(u[..n], u[n..]);
      assert u == u[..n] + u[n..];
    }
  }

  lemma NewTreeStep(u: seq<Elem>)
    requires |u| > 1
    ensures var l, r := NewTree(u[..|u| / 2]), NewTree(u[|u| / 2..]);
            NewTree(u) == Node(l, r, MulP(l.m, r.m))
  {
  }

  // ---- Evaluation ---------------------------------------------------------------

  /** The degree of the polynomial a vector stands for; 0 for the zero polynomial */
  function Degree(f: Vec): nat {
    if Trim(f) == [] then 0 else |Trim(f)| - 1
  }

  /**
   Whether `evaluate` returns at all.  A leaf reads the first coefficient of the
   remainder it is handed, and a remainder that was reduced to the zero polynomial
   has none: evaluation stops as soon as f vanishes at one of several points.
   */
  ghost predicate EvaluateReturns(f: Vec, u: seq<Elem>) {
    f != [] && (|f| == 1 || |u| == 1 || HasNoRootIn(f, u))
  }

  ghost predicate HasNoRootIn(f: Vec, u: seq<Elem>) {
    forall i :: 0 <= i < |u| ==> Eval(f, u[i]) != 0
  }

  /** For instance, x is not evaluated over the points 0 and 1. */
  lemma EvaluateStopsAtRoot()
    ensures !EvaluateReturns([0, 1], [0, 1])
  {
    EvalAtZero([0, 1]);
    assert [0, 1][0] == 0;
  }

  lemma RemainderAgrees(f: Vec, u: seq<Elem>, q: Vec, r: Vec, i: nat)
    requires IsDivision(f, RootPoly(u), q, r) && i < |u|
    ensures Eval(r, u[i]) == Eval(f, u[i])
  {
    var m, x := RootPoly(u), u[i];
    EvalTrim(f, x);
    EvalAdd(MulP(q, m), r, x);
    EvalMul(q, m, x);
    RootPolyVanishes(u, x);
    MulZero(Eval(q, x));
    AddZero(Eval(r, x));
  }

  lemma ConstantValue(f: Vec, x: Elem)
    requires f != [] && Degree(f) == 0
    ensures Eval(f, x) == f[0]
  {
    EvalTrim(f, x);
    CoeffTrim(f, 0);
    if Trim(f) != [] {
      EvalConst(Trim(f)[0], x);
      assert Trim(f) == [Trim(f)[0]];
    }
  }

  lemma DegreeBelowLength(f: Vec, n: nat)
    requires |f| <= n && n > 0
    ensures Degree(f) < n
  {
    TrimLength(f);
  }

  /** Handing the remainder down to one half of the tree. */
  lemma HalfReturns(f: Vec, u: seq<Elem>, q: Vec, r: Vec)
    requires u != []
    requires IsDivision(f, RootPoly(u), q, r)
    requires if |f| <= |u| then r == f else IsPoly(r)
    ensures |r| <= |u|
    ensures EvaluateReturns(r, u) <==> f != [] && (|f| == 1 || HasNoRootIn(f, u))
  {
    RootPolyMonic(u);
    forall i | 0 <= i < |u| ensures Eval(r, u[i]) == Eval(f, u[i]) {
      RemainderAgrees(f, u, q, r, i);
    }
    assert HasNoRootIn(r, u) <==> HasNoRootIn(f, u);
    if |f| > |u| && |r| <= 1 {
      ConstantHasNoRoot(r, u);
    }
  }

  /** A constant polynomial has no root unless it is zero. */
  lemma ConstantHasNoRoot(r: Poly, u: seq<Elem>)
    requires |r| <= 1 && u != []
    ensures HasNoRootIn(r, u) <==> r != []
  {
    forall i | 0 <= i < |u| ensures Eval(r, u[i]) == Coeff(r, 0) {
      if r != [] {
        assert r == [r[0]];
        EvalConst(r[0], u[i]);
      }
    }
    assert Eval(r, u[0]) == Coeff(r, 0);
  }

  /** The remainder of f modulo m, the product over the points u of one half */
  method Reduce(f: Vec, m: Vec, ghost u: seq<Elem>) returns (r: Vec)
    requires u != [] && m == RootPoly(u)
    ensures Degree(r) < |u|
    ensures forall i :: 0 <= i < |u| ==> Eval(r, u[i]) == Eval(f, u[i])
    ensures EvaluateReturns(r, u) <==> f != [] && (|f| == 1 || HasNoRootIn(f, u))
  {
    RootPolyMonic(u);
    var q;
    q, r := FastDivideMonic(f, m);
    HalfReturns(f, u, q, r);
    DegreeBelowLength(r, |u|);
    forall i | 0 <= i < |u| ensures Eval(r, u[i]) == Eval(f, u[i]) {
      RemainderAgrees(f, u, q, r, i);
    }
  }

  lemma LeafReturns(f: Vec, u: seq<Elem>)
    requires |u| == 1 && Degree(f) == 0
    ensures EvaluateReturns(f, u) <==> f != []
    ensures f != [] ==> Eval(f, u[0]) == f[0]
  {
    if f != [] {
      ConstantValue(f, u[0]);
    }
  }

  lemma TreeHalves(u: seq<Elem>, n: nat)
    requires |u| > 1 && n == |u| / 2
    ensures var t := NewTree(u);
            && t.Node? && t.left == NewTree(u[..n]) && t.right == NewTree(u[n..])
            && t.left.m == RootPoly(u[..n]) && t.right.m == RootPoly(u[n..])
  {
    NewTreeStep(u);
    hide *;
    TreeModulus(u[..n]);
    TreeModulus(u[n..]);
  }

  lemma BothHalvesReturn(f: Vec, u: seq<Elem>, n: nat)
    requires |u| > 1 && 0 < n < |u|
    ensures EvaluateReturns(f, u) <==>
            f != [] && (|f| == 1 || (HasNoRootIn(f, u[..n]) && HasNoRootIn(f, u[n..])))
  {
    assert forall i :: 0 <= i < n ==> u[i] == u[..n][i];
    assert forall i :: n <= i < |u| ==> u[i] == u[n..][i - n];
  }

  /** Writes f(u_i) to t[lo + i]; f.degree() < u.len() is asserted by the source. */
  method EvaluateInto(tree: Tree, f: Vec, u: seq<Elem>, t: array<Elem>, lo: nat) returns (ok: bool)
    requires u != [] && tree == NewTree(u)
    requires Degree(f) < |u|
    requires lo + |u| <= t.Length
    modifies t
    ensures ok <==> EvaluateReturns(f, u)
    ensures ok ==> forall i :: 0 <= i < |u| ==> t[lo + i] == Eval(f, u[i])
    ensures forall k :: 0 <= k < t.Length && !(lo <= k < lo + |u|) ==> t[k] == old(t[k])
    decreases |u|
  {
    hide *;
    if |u| == 1 {
      LeafReturns(f, u);
      ok := f != [];
      if ok {
        t[lo] := f[0];
      }
      return;
    }
    var n := |u| / 2;
    var u0, u1 := u[..n], u[n..];
    TreeHalves(u, n);
    BothHalvesReturn(f, u, n);
    var r0 := Reduce(f, tree.left.m, u0);
    var r1 := Reduce(f, tree.right.m, u1);
    ok := EvaluateInto(tree.left, r0, u0, t, lo);
    if ok {
      assert forall i :: 0 <= i < n ==> t[lo + i] == Eval(f, u0[i]);
      ok := EvaluateInto(tree.right, r1, u1, t, lo + n);
      if ok {
        forall i | 0 <= i < |u| ensures t[lo + i] == Eval(f, u[i]) {
          if i < n {
            assert u[i] == u0[i];
          } else {
            assert u[i] == u1[i - n];
            assert t[lo + n + (i - n)] == Eval(r1, u1[i - n]);
          }
        }
      }
    }
  }

  /** Evaluation over the whole domain. */
  method Evaluate(tree: Tree, u: seq<Elem>, f: Vec) returns (r: Option<seq<Elem>>)
    requires u != [] && tree == NewTree(u)
    requires Degree(f) < |u|
    ensures r.Some? <==> EvaluateReturns(f, u)
    ensures r.Some? ==> r.value == Values(f, u)
  {
    var evals := new Elem[|u|](_ => 0);
    var ok := EvaluateInto(tree, f, u, evals, 0);
    if !ok {
      return None;
    }
    assert forall i :: 0 <= i < |u| ==> evals[0 + i] == Eval(f, u[i]);
    return Some(evals[..]);
  }

  // ---- The derivative -----------------------------------------------------------

  /** The coefficient vector of f' */
  function DerivativeVec(f: Vec): Vec {
    if f == [] then [] else seq(|f| - 1, i requires 0 <= i < |f| - 1 => Mul(FromInt(i + 1), f[i + 1]))
  }

  method Derivative(f: Vec) returns (d: Vec)
    requires f != []
    ensures d == DerivativeVec(f)
  {
    d := [];
    for i := 1 to |f|
      invariant |d| == i - 1
      invariant forall j :: 0 <= j < i - 1 ==> d[j] == Mul(FromInt(j + 1), f[j + 1])
    {
      d := d + [Mul(FromInt(i), f[i])];
    }
  }

  lemma CoeffDerivative(f: Vec, i: nat)
    ensures Coeff(DerivativeVec(f), i) == Mul(FromInt(i + 1), Coeff(f, i + 1))
  {
    MulZero(FromInt(i + 1));
  }

  lemma DerivativeAdd(f: Vec, g: Vec, x: Elem)
    ensures Eval(DerivativeVec(AddP(f, g)), x) == Add(Eval(DerivativeVec(f), x), Eval(DerivativeVec(g), x))
  {
    var d, s := DerivativeVec(AddP(f, g)), AddP(DerivativeVec(f), DerivativeVec(g));
    forall i: nat ensures Coeff(d, i) == Coeff(s, i) {
      CoeffDerivative(AddP(f, g), i);
      CoeffDerivative(f, i);
      CoeffDerivative(g, i);
      CoeffAdd(DerivativeVec(f), DerivativeVec(g), i);
      CoeffAdd(f, g, i + 1);
      Distrib(FromInt(i + 1), Coeff(f, i + 1), Coeff(g, i + 1));
    }
    EvalExt(d, s, x);
    EvalAdd(DerivativeVec(f), DerivativeVec(g), x);
  }

  lemma DerivativeScale(c: Elem, f: Vec, x: Elem)
    ensures Eval(DerivativeVec(Scale(c, f)), x) == Mul(c, Eval(DerivativeVec(f), x))
  {
    var d, s := DerivativeVec(Scale(c, f)), Scale(c, DerivativeVec(f));
    forall i: nat ensures Coeff(d, i) == Coeff(s, i) {
      var k, a := FromInt(i + 1), Coeff(f, i + 1);
      CoeffDerivative(Scale(c, f), i);
      CoeffDerivative(f, i);
      CoeffScale(c, DerivativeVec(f), i);
      CoeffScale(c, f, i + 1);
      MulAssoc(k, c, a);
      MulComm(k, c);
      MulAssoc(c, k, a);
    }
    EvalExt(d, s, x);
    EvalScale(c, DerivativeVec(f), x);
  }

  /** (c + x*f)' == f + x*f' */
  lemma DerivativeCons(c: Elem, f: Poly, x: Elem)
    ensures Eval(DerivativeVec(Cons(c, f)), x) == Add(Eval(f, x), Mul(x, Eval(DerivativeVec(f), x)))
  {
    var shifted := [0] + DerivativeVec(f);
    var d, s := DerivativeVec(Cons(c, f)), AddP(f, shifted);
    forall i: nat ensures Coeff(d, i) == Coeff(s, i) {
      var a := Coeff(f, i);
      CoeffDerivative(Cons(c, f), i);
      CoeffCons(c, f, i + 1);
      CoeffAdd(f, shifted, i);
      if i > 0 {
        CoeffDerivative(f, i - 1);
        assert Coeff(shifted, i) == Coeff(DerivativeVec(f), i - 1);
      } else {
        FromIntOfElem(0);
        MulZero(a);
      }
      assert Coeff(shifted, i) == Mul(FromInt(i), a);
      FromIntAdd(i, 1);
      FromIntOfElem(1);
      Distrib(a, FromInt(i), 1);
      MulOne(a);
      AddComm(a, Mul(FromInt(i), a));
    }
    EvalExt(d, s, x);
    EvalAdd(f, shifted, x);
    assert shifted[1..] == DerivativeVec(f);
    AddZero(Mul(x, Eval(DerivativeVec(f), x)));
  }

  /** (f*g)' == f'*g + f*g' */
  lemma {:induction false} ProductRule(f: Vec, g: Vec, x: Elem)
    ensures Eval(DerivativeVec(MulP(f, g)), x) ==
            Add(Mul(Eval(DerivativeVec(f), x), Eval(g, x)), Mul(Eval(f, x), Eval(DerivativeVec(g), x)))
  {
    var b, b' := Eval(g, x), Eval(DerivativeVec(g), x);
    assert Polynomial.MulIs(POLY, f, g);
    if f == [] {
      MulZero(b);
      MulZero(b');
      AddZero(0);
    } else {
      var t, c := f[1..], f[0];
      var p := MulP(t, g);
      var a, a' := Eval(t, x), Eval(DerivativeVec(t), x);
      ProductRule(t, g, x);
      DerivativeAdd(Scale(c, g), Cons(0, p), x);
      DerivativeScale(c, g, x);
      DerivativeCons(0, p, x);
      EvalMul(t, g, x);
      DerivativeOfVec(f, x);
      calc {
        Eval(DerivativeVec(MulP(f, g)), x);
        Add(Mul(c, b'), Add(Mul(a, b), Mul(x, Add(Mul(a', b), Mul(a, b')))));
        { Distrib(x, Mul(a', b), Mul(a, b')); MulAssoc(x, a', b); MulAssoc(x, a, b'); }
        Add(Mul(c, b'), Add(Mul(a, b), Add(Mul(Mul(x, a'), b), Mul(Mul(x, a), b'))));
        { AddAssoc(Mul(a, b), Mul(Mul(x, a'), b), Mul(Mul(x, a), b')); Distrib(b, a, Mul(x, a')); }
        Add(Mul(c, b'), Add(Mul(Add(a, Mul(x, a')), b), Mul(Mul(x, a), b')));
        {
          AddAssoc(Mul(c, b'), Mul(Add(a, Mul(x, a')), b), Mul(Mul(x, a), b'));
          AddComm(Mul(c, b'), Mul(Add(a, Mul(x, a')), b));
          AddAssoc(Mul(Add(a, Mul(x, a')), b), Mul(c, b'), Mul(Mul(x, a), b'));
          Distrib(b', c, Mul(x, a));
        }
        Add(Mul(Add(a, Mul(x, a')), b), Mul(Add(c, Mul(x, a)), b'));
      }
    }
  }

  lemma DerivativeOfVec(f: Vec, x: Elem)
    requires f != []
    ensures Eval(DerivativeVec(f), x) == Add(Eval(f[1..], x), Mul(x, Eval(DerivativeVec(f[1..]), x)))
  {
    DerivativeTrim(f, x);
    DerivativeTrim(f[1..], x);
    EvalTrim(f[1..], x);
    DerivativeCons(f[0], Trim(f[1..]), x);
  }

  lemma DerivativeTrim(f: Vec, x: Elem)
    ensures Eval(DerivativeVec(Trim(f)), x) == Eval(DerivativeVec(f), x)
  {
    forall i: nat ensures Coeff(DerivativeVec(Trim(f)), i) == Coeff(DerivativeVec(f), i) {
      CoeffDerivative(Trim(f), i);
      CoeffDerivative(f, i);
      CoeffTrim(f, i + 1);
    }
    EvalExt(DerivativeVec(Trim(f)), DerivativeVec(f), x);
  }

  /** m'(u_i) is the product of u_i - u_m over the other points. */
  lemma {:induction false} DerivativeAtRoot(u: seq<Elem>, i: nat)
    requires i < |u|
    ensures Eval(DerivativeVec(RootPoly(u)), u[i]) == ProductExcept(u, i, u[i])
  {
    var x, l, m := u[i], Linear(u[0]), RootPoly(u[1..]);
    var d := Eval(DerivativeVec(m), x);
    ProductRule(l, m, x);
    EvalLinear(u[0], x);
    FromIntOfElem(1);
    MulOne(1);
    assert DerivativeVec(l) == [1];
    EvalConst(1, x);
    MulOne(Eval(m, x));
    ProductExceptStep(u, i, x);
    if i == 0 {
      SubSelf(x);
      MulZero(d);
      AddZero(Eval(m, x));
    } else {
      DerivativeAtRoot(u[1..], i - 1);
      RootPolyVanishes(u[1..], x);
      assert u[1..][i - 1] == x;
      AddZero(Mul(Sub(x, u[0]), d));
    }
  }

  // ---- Lagrange denominators, linear combination, interpolation --------------------

  method InverseLagrangeCoefficients(tree: Tree, u: seq<Elem>) returns (r: Option<seq<Elem>>)
    requires u != [] && tree == NewTree(u)
    ensures r.Some? <==> Distinct(u)
    ensures r.Some? ==> |r.value| == |u| && forall i :: 0 <= i < |u| ==> r.value[i] == ProductExcept(u, i, u[i])
  {
    DenominatorsNonzero(u);
    if |u| == 1 {
      assert Differences(Without(u, 0), u[0]) == [];
      return Some([1]);
    }
    TreeModulus(u);
    RootPolyMonic(u);
    var mPrime := Derivative(tree.m);
    DegreeBelowLength(mPrime, |u|);
    forall i | 0 <= i < |u| ensures Eval(mPrime, u[i]) == ProductExcept(u, i, u[i]) {
      DerivativeAtRoot(u, i);
    }
    r := Evaluate(tree, u, mPrime);
  }

  function LinearCombine(tree: Tree, u: seq<Elem>, c: seq<Elem>): Vec
    requires u != [] && tree == NewTree(u) && |c| >= |u|
    decreases |u|
  {
    if |u| == 1 then
      [c[0]]
    else
      var n := |u| / 2;
      var r0 := LinearCombine(tree.left, u[..n], c[..n]);
      var r1 := LinearCombine(tree.right, u[n..], c[n..]);
      AddP(MulP(tree.right.m, r0), MulP(tree.left.m, r1))
  }

  /** The tree computes sum_i c_i * m / (x - u_i). */
  lemma {:induction false} LinearCombineCorrect(tree: Tree, u: seq<Elem>, c: seq<Elem>)
    requires u != [] && tree == NewTree(u) && |c| >= |u|
    ensures Trim(LinearCombine(tree, u, c)) == LinearCombination(u, c[..|u|])
    ensures |LinearCombine(tree, u, c)| <= |u|
    decreases |u|
  {
    hide *;
    if |u| == 1 {
      LinearCombineLeaf(tree, u, c);
    } else {
      var n := |u| / 2;
      TreeHalves(u, n);
      LinearCombineCorrect(tree.left, u[..n], c[..n]);
      LinearCombineCorrect(tree.right, u[n..], c[n..]);
      assert c[..n][..n] == c[..n];
      LinearCombineNode(tree, u, c, n);
    }
  }

  lemma LinearCombineLeaf(tree: Tree, u: seq<Elem>, c: seq<Elem>)
    requires |u| == 1 && tree == NewTree(u) && |c| >= 1
    ensures Trim(LinearCombine(tree, u, c)) == LinearCombination(u, c[..1])
    ensures |LinearCombine(tree, u, c)| <= 1
  {
    CombineOne(u[0], c[0]);
    assert u == [u[0]] && c[..1] == [c[0]];
  }

  lemma LinearCombineNode(tree: Tree, u: seq<Elem>, c: seq<Elem>, n: nat)
    requires |u| > 1 && n == |u| / 2 && tree == NewTree(u) && |c| >= |u|
    requires tree.Node? && tree.left == NewTree(u[..n]) && tree.right == NewTree(u[n..])
    requires Trim(LinearCombine(tree.left, u[..n], c[..n])) == LinearCombination(u[..n], c[..n])
    requires Trim(LinearCombine(tree.right, u[n..], c[n..])) == LinearCombination(u[n..], c[n..][..|u| - n])
    ensures Trim(LinearCombine(tree, u, c)) == LinearCombination(u, c[..|u|])
    ensures |LinearCombine(tree, u, c)| <= |u|
  {
    hide *;
    LinearCombineStep(tree, u, c);
    TreeHalves(u, n);
    var u0, u1, c0, c1 := u[..n], u[n..], c[..n], c[n..][..|u| - n];
    CombineTwo(u0, u1, c0, c1, LinearCombine(tree.left, u0, c0), LinearCombine(tree.right, u1, c[n..]));
    assert u0 + u1 == u;
    assert c0 + c1 == c[..|u|];
    TrimIsIdentity(LinearCombination(u, c[..|u|]));
    LinearCombinationLength(u, c[..|u|]);
  }

  lemma LinearCombineStep(tree: Tree, u: seq<Elem>, c: seq<Elem>)
    requires |u| > 1 && tree == NewTree(u) && |c| >= |u|
    ensures var n := |u| / 2;
            && tree.Node? && tree.left == NewTree(u[..n]) && tree.right == NewTree(u[n..])
            && LinearCombine(tree, u, c) ==
               AddP(MulP(tree.right.m, LinearCombine(tree.left, u[..n], c[..n])),
                    MulP(tree.left.m, LinearCombine(tree.right, u[n..], c[n..])))
  {
  }

  lemma CombineOne(a: Elem, c: Elem)
    ensures Trim([c]) == LinearCombination([a], [c])
  {
    assert [a][1..] == [] && [c][1..] == [];
    MulPEmpty(Linear(a));
    MulPConst(c, [1]);
    MulPOne([c]);
    AddPEmpty(Scale(c, [1]));
    TrimIsIdentity(Scale(c, [1]));
  }

  lemma CombineTwo(u: seq<Elem>, v: seq<Elem>, c: seq<Elem>, d: seq<Elem>, r: Vec, s: Vec)
    requires |u| == |c| && |v| == |d|
    requires Trim(r) == LinearCombination(u, c) && Trim(s) == LinearCombination(v, d)
    ensures AddP(MulP(RootPoly(v), r), MulP(RootPoly(u), s)) == LinearCombination(u + v, c + d)
  {
    MulPTrim(RootPoly(v), r);
    MulPTrim(RootPoly(u), s);
    LinearCombinationConcat(u, v, c, d);
  }

  /**
   Interpolation returns exactly on distinct points.  A value list that is too short
   leaves the remaining denominators in place of the weights.
   */
  method Interpolate(tree: Tree, u: seq<Elem>, v: seq<Elem>) returns (r: Option<Vec>)
    requires u != [] && tree == NewTree(u)
    ensures r.Some? <==> Distinct(u)
    ensures r.Some? && |v| >= |u| ==> Trim(r.value) == Interpolant(u, v[..|u|])
    ensures r.Some? ==> if |u| == 1 then |r.value| == 1 else IsPoly(r.value) && |r.value| <= |u|
    ensures r.Some? ==> forall i :: 0 <= i < |u| ==>
              Eval(r.value, u[i]) == if i < |v| then v[i] else Mul(ProductExcept(u, i, u[i]), ProductExcept(u, i, u[i]))
  {
    hide *;
    var denominators := InverseLagrangeCoefficients(tree, u);
    if denominators.None? {
      return None;
    }
    DenominatorsNonzero(u);
    var weights := DivideInto(denominators.value, v);
    var p := LinearCombine(tree, u, weights);
    LinearCombineCorrect(tree, u, weights);
    LinearCombineShape(tree, u, weights);
    assert weights[..|u|] == weights;
    forall i | 0 <= i < |u|
      ensures Eval(p, u[i]) == if i < |v| then v[i] else Mul(ProductExcept(u, i, u[i]), ProductExcept(u, i, u[i]))
    {
      EvalTrim(p, u[i]);
      LinearCombinationAtPoint(u, weights, i);
      if i < |v| {
        UndoWeight(ProductExcept(u, i, u[i]), v[i]);
      }
    }
    if |v| >= |u| {
      InterpolantIs(u, v[..|u|], weights);
    }
    return Some(p);
  }

  /** Replaces each denominator by value / denominator, as far as there are values. */
  method DivideInto(denominators: seq<Elem>, v: seq<Elem>) returns (weights: seq<Elem>)
    ensures |weights| == |denominators|
    ensures forall j :: 0 <= j < |weights| ==>
              weights[j] == if j < |v| then Mul(Inv(denominators[j]), v[j]) else denominators[j]
  {
    weights := denominators;
    for i := 0 to if |denominators| < |v| then |denominators| else |v|
      invariant |weights| == |denominators|
      invariant forall j :: 0 <= j < i ==> weights[j] == Mul(Inv(denominators[j]), v[j])
      invariant forall j :: i <= j < |weights| ==> weights[j] == denominators[j]
    {
      weights := weights[i := Mul(Inv(weights[i]), v[i])];
    }
  }

  lemma InterpolantIs(u: seq<Elem>, v: seq<Elem>, weights: seq<Elem>)
    requires |u| == |v| == |weights|
    requires forall j :: 0 <= j < |u| ==> weights[j] == Mul(Inv(ProductExcept(u, j, u[j])), v[j])
    ensures Interpolant(u, v) == LinearCombination(u, weights)
  {
    assert weights == Weights(u, v);
  }

  lemma UndoWeight(d: Elem, v: Elem)
    requires d != 0
    ensures Mul(Mul(Inv(d), v), d) == v
  {
    MulComm(Mul(Inv(d), v), d);
    CancelLeft(d, v);
  }

  lemma LinearCombineShape(tree: Tree, u: seq<Elem>, c: seq<Elem>)
    requires u != [] && tree == NewTree(u) && |c| >= |u|
    ensures if |u| == 1 then |LinearCombine(tree, u, c)| == 1 else IsPoly(LinearCombine(tree, u, c))
  {
  }

  // ---- Round trips --------------------------------------------------------------

  /** Interpolating the values of f gives f back. */
  lemma InterpolateUndoesEvaluate(f: Vec, u: seq<Elem>)
    requires Distinct(u) && Degree(f) < |u|
    ensures Interpolant(u, Values(f, u)) == Trim(f)
  {
    forall i | 0 <= i < |u| ensures Eval(Trim(f), u[i]) == Values(f, u)[i] {
      EvalTrim(f, u[i]);
    }
    InterpolantUnique(Trim(f), u, Values(f, u));
    TrimIsIdentity(Trim(f));
  }

  /** Evaluation followed by interpolation returns exactly when both do, and then gives f back. */
  method EvaluateThenInterpolate(tree: Tree, u: seq<Elem>, f: Vec) returns (r: Option<Vec>)
    requires u != [] && tree == NewTree(u) && Degree(f) < |u|
    ensures r.Some? <==> EvaluateReturns(f, u) && Distinct(u)
    ensures r.Some? ==> Trim(r.value) == Trim(f)
  {
    hide *;
    var values := Evaluate(tree, u, f);
    if values.None? {
      return None;
    }
    ValuesLength(f, u);
    r := Interpolate(tree, u, values.value);
    if r.Some? {
      assert values.value[..|u|] == values.value;
      InterpolateUndoesEvaluate(f, u);
    }
  }

  lemma ValuesLength(f: Vec, u: seq<Elem>)
    ensures |Values(f, u)| == |u|
  {
  }

  /**
   Interpolation followed by evaluation gives the values back.  Over several points it
   returns exactly when the points are distinct and none of the values is zero.
   */
  method InterpolateThenEvaluate(tree: Tree, u: seq<Elem>, v: seq<Elem>) returns (r: Option<seq<Elem>>)
    requires u != [] && tree == NewTree(u) && |v| == |u|
    ensures r.Some? <==> Distinct(u) && (|u| == 1 || forall i :: 0 <= i < |u| ==> v[i] != 0)
    ensures r.Some? ==> r.value == v
  {
    var p := Interpolate(tree, u, v);
    if p.None? {
      return None;
    }
    DegreeBelowLength(p.value, |u|);
    r := Evaluate(tree, u, p.value);
    if |u| > 1 {
      PolyReturns(p.value, u);
    }
    assert Values(p.value, u) == v;
  }

  lemma PolyReturns(p: Poly, u: seq<Elem>)
    requires |u| > 1
    ensures EvaluateReturns(p, u) <==> HasNoRootIn(p, u)
  {
    if |p| <= 1 {
      ConstantHasNoRoot(p, u);
    }
  }
}
