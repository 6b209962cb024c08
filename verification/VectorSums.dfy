/** Sums of coefficient vectors, and their values. */
module VectorSums {
  import opened PrimeField
  import opened Sums
  import opened Polynomial
  import opened Interpolation
  import opened EvaluationDomain

  lemma MappedAppend<T>(f: T -> Elem, s: seq<T>, x: T)
    ensures SumSeq(Mapped(f, s + [x])) == Add(SumSeq(Mapped(f, s)), f(x))
  {
    assert Mapped(f, s + [x]) == Mapped(f, s) + [f(x)];
    SumSeqAppend(Mapped(f, s), f(x));
  }

  lemma MappedCons<T>(f: T -> Elem, x: T, s: seq<T>)
    ensures SumSeq(Mapped(f, [x] + s)) == Add(f(x), SumSeq(Mapped(f, s)))
  {
    assert Mapped(f, [x] + s) == [f(x)] + Mapped(f, s);
    assert ([f(x)] + Mapped(f, s))[1..] == Mapped(f, s);
  }

  lemma MappedSingleton<T>(f: T -> Elem, x: T)
    ensures SumSeq(Mapped(f, [x])) == f(x)
  {
    assert Mapped(f, [x]) == [f(x)] && [f(x)][1..] == [];
    assert SumSeq([f(x)]) == Add(f(x), SumSeq([]));
    AddZero(f(x));
  }

  lemma MappedExt<T, U>(f: T -> Elem, g: U -> Elem, s: seq<T>, t: seq<U>)
    requires |s| == |t| && forall i :: 0 <= i < |s| ==> f(s[i]) == g(t[i])
    ensures Mapped(f, s) == Mapped(g, t)
  {
  }

  lemma {:induction false} MappedScale<T>(f: T -> Elem, g: T -> Elem, c: Elem, s: seq<T>)
    requires forall i :: 0 <= i < |s| ==> g(s[i]) == Mul(f(s[i]), c)
    ensures SumSeq(Mapped(g, s)) == Mul(SumSeq(Mapped(f, s)), c)
  {
    if s == [] {
      MulZero(c);
    } else {
      MappedScale(f, g, c, s[1..]);
      assert Mapped(f, s)[1..] == Mapped(f, s[1..]) && Mapped(g, s)[1..] == Mapped(g, s[1..]);
      Distrib(c, f(s[0]), SumSeq(Mapped(f, s[1..])));
    }
  }

  lemma {:induction false} MappedZero<T>(f: T -> Elem, s: seq<T>)
    requires forall i :: 0 <= i < |s| ==> f(s[i]) == 0
    ensures SumSeq(Mapped(f, s)) == 0
  {
    if s != [] {
      MappedZero(f, s[1..]);
      assert Mapped(f, s)[1..] == Mapped(f, s[1..]);
      AddZero(0);
    }
  }

  function CoeffOf(j: int): Vec -> Elem {
    (v: Vec) => Coeff(v, j)
  }

  /** The first n coefficients of the sum of the vectors */
  function SumOf(vs: seq<Vec>, n: nat): Vec {
    seq(n, j => SumSeq(Mapped(CoeffOf(j), vs)))
  }

  function ResizedEvalAt(n: nat, x: Elem): Vec -> Elem {
    (v: Vec) => Eval(Resize(v, n), x)
  }

  /** The value of a sum is the sum of the values. */
  lemma {:induction false} EvalSumOf(vs: seq<Vec>, n: nat, x: Elem)
    ensures Eval(SumOf(vs, n), x) == SumSeq(Mapped(ResizedEvalAt(n, x), vs))
  {
    if vs == [] {
      assert forall j :: 0 <= j < n ==> Mapped(CoeffOf(j), vs) == [];
      EvalZero(SumOf(vs, n), x);
    } else {
      var v, rest := vs[0], vs[1..];
      assert vs == [v] + rest && ResizedEvalAt(n, x)(v) == Eval(Resize(v, n), x);
      hide *;
      EvalSumOf(rest, n, x);
      EvalSumStep(vs, n, x);
      MappedCons(ResizedEvalAt(n, x), v, rest);
    }
  }

  lemma EvalSumStep(vs: seq<Vec>, n: nat, x: Elem)
    requires vs != []
    ensures Eval(SumOf(vs, n), x) == Add(Eval(Resize(vs[0], n), x), Eval(SumOf(vs[1..], n), x))
  {
    forall j | 0 <= j < n ensures SumOf(vs, n)[j] == Add(Resize(vs[0], n)[j], SumOf(vs[1..], n)[j]) {
      SumOfStep(vs, n, j);
    }
    EvalSum(Resize(vs[0], n), SumOf(vs[1..], n), SumOf(vs, n), x);
  }

  lemma SumOfStep(vs: seq<Vec>, n: nat, j: nat)
    requires vs != [] && j < n
    ensures SumOf(vs, n)[j] == Add(Resize(vs[0], n)[j], SumOf(vs[1..], n)[j])
  {
    assert Mapped(CoeffOf(j), vs)[1..] == Mapped(CoeffOf(j), vs[1..]);
  }

  /** Beyond the length of all terms, a sum has only zero coefficients. */
  lemma SumOfPadded(vs: seq<Vec>, m: nat, j: int)
    requires forall i :: 0 <= i < |vs| ==> |vs[i]| <= m
    ensures Coeff(SumOf(vs, m), j) == if j < 0 then 0 else SumSeq(Mapped(CoeffOf(j), vs))
  {
    if j >= m {
      MappedZero(CoeffOf(j), vs);
    }
  }

  function FftAt(d: Domain, i: nat): Vec -> Elem
    requires i < d.size
  {
    (v: Vec) => Fft(d, v)[i]
  }

  /** The transform of a sum is the sum of the transforms. */
  lemma FftOfSum(d: Domain, vs: seq<Vec>, m: nat, i: nat)
    requires i < d.size && forall k :: 0 <= k < |vs| ==> |vs[k]| <= m
    ensures Fft(d, SumOf(vs, m))[i] == SumSeq(Mapped(FftAt(d, i), vs))
  {
    var x, n := Pow(d.omega, i), d.size;
    forall j | 0 <= j < n ensures Coeff(SumOf(vs, m), j) == SumOf(vs, n)[j] {
      SumOfPadded(vs, m, j);
    }
    assert Resize(SumOf(vs, m), n) == SumOf(vs, n);
    EvalSumOf(vs, n, x);
    MappedExt(ResizedEvalAt(n, x), FftAt(d, i), vs, vs);
  }

  function EvalAt(x: Elem): Vec -> Elem {
    (v: Vec) => Eval(v, x)
  }

  lemma EvalOfSum(vs: seq<Vec>, m: nat, x: Elem)
    requires forall k :: 0 <= k < |vs| ==> |vs[k]| <= m
    ensures Eval(SumOf(vs, m), x) == SumSeq(Mapped(EvalAt(x), vs))
  {
    EvalSumOf(vs, m, x);
    forall k | 0 <= k < |vs| ensures ResizedEvalAt(m, x)(vs[k]) == EvalAt(x)(vs[k]) {
      ResizeEval(vs[k], m, x);
    }
    MappedExt(ResizedEvalAt(m, x), EvalAt(x), vs, vs);
  }

  /** One term, within the length, can be split off a sum. */
  lemma EvalSumSplit(g: Vec, vs: seq<Vec>, n: nat, x: Elem)
    requires |g| <= n
    ensures Eval(SumOf([g] + vs, n), x) == Add(Eval(g, x), Eval(SumOf(vs, n), x))
  {
    var at := ResizedEvalAt(n, x);
    assert at(g) == Eval(Resize(g, n), x);
    ResizeEval(g, n, x);
    hide *;
    EvalSumOf([g] + vs, n, x);
    MappedCons(at, g, vs);
    EvalSumOf(vs, n, x);
  }

  /** The value of a sum of two lists is the sum of the values. */
  lemma EvalSumConcat(vs: seq<Vec>, ws: seq<Vec>, n: nat, x: Elem)
    ensures Eval(SumOf(vs + ws, n), x) == Add(Eval(SumOf(vs, n), x), Eval(SumOf(ws, n), x))
  {
    var at := ResizedEvalAt(n, x);
    assert Mapped(at, vs + ws) == Mapped(at, vs) + Mapped(at, ws);
    hide *;
    EvalSumOf(vs, n, x);
    EvalSumOf(ws, n, x);
    EvalSumOf(vs + ws, n, x);
    SumSeqConcat(Mapped(at, vs), Mapped(at, ws));
  }
}
