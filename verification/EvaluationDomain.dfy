/**
 Multiplicative evaluation domains 1, w, w^2, ... of roots of unity, and the discrete
 Fourier transform over them.  The transform is given by what it means: the values of
 a coefficient vector, resized to the size of the domain, at the domain's points.
 */
module EvaluationDomain {
  import opened Wrappers
  import opened PrimeField
  import opened Sums
  import opened Polynomial
  import opened FastDivision
  import opened Interpolation
  import opened Counting

  datatype DomainParameters = DomainParameters(size: nat, omega: Elem)

  /** The size is a power of two, and omega has exactly that order. */
  ghost predicate IsDomain(d: DomainParameters) {
    && (exists k: nat :: d.size == Pow2(k))
    && Pow(d.omega, d.size) == 1
    && forall k :: 0 < k < d.size ==> Pow(d.omega, k) != 1
  }

  lemma TrivialDomain()
    ensures IsDomain(DomainParameters(1, 1))
  {
    PowOfOne(1);
    assert Pow2(0) == 1;
  }

  type Domain = d: DomainParameters | IsDomain(d)
    witness (TrivialDomain(); DomainParameters(1, 1))

  // ---- Construction ---------------------------------------------------------------

  ghost predicate ProvidesSize(subgroups: nat -> Option<Domain>, k: nat) {
    subgroups(k).Some? ==> subgroups(k).value.size == Pow2(k)
  }

  type Subgroups = s: nat -> Option<Domain> | forall k: nat :: ProvidesSize(s, k)
    witness (k: nat) => None

  /** For each k the domain of size 2^k that the field provides, if any */
  const SUBGROUPS: Subgroups

  /** The domain constructed for n points: its size is the least power of two that is at least n. */
  function ConstructDomain(n: nat): (r: Option<Domain>)
    ensures r.Some? ==> n <= r.value.size && (r.value.size == 1 || r.value.size < 2 * n)
  {
    assert ProvidesSize(SUBGROUPS, CeilLog2(n));
    SUBGROUPS(CeilLog2(n))
  }

  lemma {:induction false} Pow2Grows(j: nat, k: nat)
    requires j < k
    ensures 2 * Pow2(j) <= Pow2(k)
  {
    if j + 1 < k {
      Pow2Grows(j, k - 1);
    }
  }

  /** 2^k is the least power of two that is at least n. */
  ghost predicate IsLeastPower(k: nat, n: nat) {
    n <= Pow2(k) && (k > 0 ==> Pow2(k - 1) < n)
  }

  /** The domain constructed for n points is the one that the field provides for the least power of two, or none. */
  lemma ConstructsLeastPower(n: nat, k: nat)
    requires IsLeastPower(k, n)
    ensures ConstructDomain(n) == SUBGROUPS(k)
    ensures ConstructDomain(n).Some? ==> ConstructDomain(n).value.size == Pow2(k)
  {
    var l := CeilLog2(n);
    assert ProvidesSize(SUBGROUPS, k);
    if l < k {
      Pow2Between(l, k - 1);
    } else if k < l {
      Pow2Between(k, l - 1);
    }
  }

  lemma Pow2Between(j: nat, k: nat)
    requires j <= k
    ensures Pow2(j) <= Pow2(k)
  {
    Pow2Positive(j);
    if j < k {
      Pow2Grows(j, k);
    }
  }

  /** The same domain is constructed for n points as for m exactly if n lies in the range that its size serves. */
  lemma SameDomain(m: nat, n: nat)
    requires ConstructDomain(m).Some?
    ensures var d := ConstructDomain(m).value;
            ConstructDomain(n) == Some(d) <==> n <= d.size && (d.size == 1 || d.size < 2 * n)
  {
    var d, k, l := ConstructDomain(m).value, CeilLog2(m), CeilLog2(n);
    assert ProvidesSize(SUBGROUPS, k);
    Pow2Positive(k);
    Pow2Positive(l);
    if n <= d.size && (d.size == 1 || d.size < 2 * n) {
      if l < k {
        Pow2Grows(l, k);
      } else if k < l {
        Pow2Positive(l - 1);
        assert Pow2(l - 1) < n <= Pow2(k);
        if k < l - 1 {
          Pow2Grows(k, l - 1);
        }
      }
    }
  }

  /** The first n points of the domain */
  function Elements(d: Domain, n: nat): seq<Elem> {
    seq(n, i requires 0 <= i => Pow(d.omega, i))
  }

  lemma SizePositive(d: Domain)
    ensures d.size > 0
  {
    var k: nat :| d.size == Pow2(k);
    Pow2Positive(k);
  }

  lemma {:induction false} Pow2Positive(k: nat)
    ensures Pow2(k) > 0
  {
    if k > 0 {
      Pow2Positive(k - 1);
    }
  }

  lemma OmegaNonzero(d: Domain)
    ensures d.omega != 0
  {
    SizePositive(d);
    MulZero(Pow(d.omega, d.size - 1));
  }

  lemma PointNonzero(d: Domain, i: nat)
    ensures Pow(d.omega, i) != 0
  {
    OmegaNonzero(d);
    PowNonzero(d.omega, i);
  }

  lemma PointsDiffer(d: Domain, i: nat, j: nat)
    requires i < j < d.size
    ensures Pow(d.omega, i) != Pow(d.omega, j)
  {
    var a := Pow(d.omega, i);
    PointNonzero(d, i);
    PowAdd(d.omega, i, j - i);
    if a == Pow(d.omega, j) {
      MulOne(a);
      MulCancel(a, Pow(d.omega, j - i), 1);
      assert false;
    }
  }

  /** The second points of domains of different size differ. */
  lemma OmegasDiffer(d: Domain, e: Domain)
    requires d.size != e.size
    ensures Pow(d.omega, 1) != Pow(e.omega, 1)
  {
    SizePositive(d);
    SizePositive(e);
    MulOne(d.omega);
    MulOne(e.omega);
    assert Pow(d.omega, 0) == 1 && Pow(e.omega, 0) == 1;
  }

  lemma ElementsDistinct(d: Domain, n: nat)
    requires n <= d.size
    ensures Distinct(Elements(d, n))
  {
    forall i, j | 0 <= i < j < n ensures Elements(d, n)[i] != Elements(d, n)[j] {
      PointsDiffer(d, i, j);
    }
  }

  lemma PointToTheSize(d: Domain, i: nat)
    ensures Pow(Pow(d.omega, i), d.size) == 1
  {
    PowMul(d.omega, i, d.size);
    PowMul(d.omega, d.size, i);
    assert i * d.size == d.size * i;
    PowOfOne(i);
  }

  // ---- The transform and its inverse --------------------------------------------

  function Resize(v: Vec, n: nat): Vec {
    seq(n, i => Coeff(v, i))
  }

  function Fft(d: Domain, v: Vec): Vec {
    Values(Resize(v, d.size), Elements(d, d.size))
  }

  /** The coefficients of the polynomial with the given values at the domain's points */
  function Ifft(d: Domain, v: Vec): Vec {
    Resize(Interpolant(Elements(d, d.size), Resize(v, d.size)), d.size)
  }

  lemma ResizeEval(v: Vec, n: nat, x: Elem)
    requires |v| <= n
    ensures Eval(Resize(v, n), x) == Eval(v, x)
  {
    EvalExt(Resize(v, n), v, x);
  }

  /** On vectors no longer than the domain, the transform is evaluation. */
  lemma FftEvaluates(d: Domain, v: Vec, i: nat)
    requires |v| <= d.size && i < d.size
    ensures Fft(d, v)[i] == Eval(v, Pow(d.omega, i))
  {
    ResizeEval(v, d.size, Pow(d.omega, i));
  }

  /** Coefficients beyond the size of the domain are dropped, and there is one value for each point. */
  lemma FftTruncates(d: Domain, v: Vec)
    ensures |Fft(d, v)| == d.size
    ensures |v| >= d.size ==> Fft(d, v) == Values(v[..d.size], Elements(d, d.size))
  {
    if |v| >= d.size {
      assert Resize(v, d.size) == v[..d.size];
    }
  }

  lemma IfftUndoesFft(d: Domain, v: Vec)
    requires |v| == d.size
    ensures Ifft(d, Fft(d, v)) == v
  {
    var u, w := Elements(d, d.size), Fft(d, v);
    ElementsDistinct(d, d.size);
    assert Resize(v, d.size) == v && Resize(w, d.size) == w;
    InterpolantUnique(v, u, w);
    forall i | 0 <= i < d.size ensures Resize(Trim(v), d.size)[i] == v[i] {
      CoeffTrim(v, i);
    }
    assert Resize(Trim(v), d.size) == v;
  }

  // ---- Cyclic convolution ---------------------------------------------------------

  function CyclicTerm(a: Vec, b: Vec, k: int): int -> Elem {
    (j: int) => Mul(Coeff(a, j), if j <= k then Coeff(b, k - j) else Coeff(b, k + |a| - j))
  }

  /** Entry k is the sum over j of a_j * b_{(k - j) mod n}. */
  function CyclicConvolution(a: Vec, b: Vec): Vec {
    seq(|a|, k => Sum(CyclicTerm(a, b, k), |a|))
  }

  lemma WrappedEval(p: Vec, w: Vec, n: nat, x: Elem)
    requires |p| <= 2 * n && |w| == n && Pow(x, n) == 1
    requires forall k :: 0 <= k < n ==> w[k] == Add(Coeff(p, k), Coeff(p, k + n))
    ensures Eval(w, x) == Eval(p, x)
  {
    var q := Resize(p, 2 * n);
    var lo, hi := q[..n], q[n..];
    ResizeEval(p, 2 * n, x);
    assert q == lo + hi;
    EvalConcat(lo, hi, x);
    MulOne(Eval(hi, x));
    EvalSum(lo, hi, w, x);
  }

  lemma CyclicIsWrapped(a: Vec, b: Vec, k: nat)
    requires |a| == |b| && k < |a|
    ensures CyclicConvolution(a, b)[k] == Add(Coeff(MulP(a, b), k), Coeff(MulP(a, b), k + |a|))
  {
    var n := |a|;
    CoeffMul(a, b, k);
    CauchyOverFirst(a, b, k);
    CoeffMul(a, b, k + n);
    CauchyOverFirst(a, b, k + n);
    assert CyclicConvolution(a, b)[k] == Sum(CyclicTerm(a, b, k), n);
    hide *;
    forall j | 0 <= j < n
      ensures CyclicTerm(a, b, k)(j) == Add(CauchyTerm(a, b, k)(j), CauchyTerm(a, b, k + n)(j))
    {
      WrappedTerm(a, b, k, j);
    }
    SumAdd(CauchyTerm(a, b, k), CauchyTerm(a, b, k + n), CyclicTerm(a, b, k), n);
  }

  lemma WrappedTerm(a: Vec, b: Vec, k: nat, j: nat)
    requires |a| == |b| && k < |a| && j < |a|
    ensures CyclicTerm(a, b, k)(j) == Add(CauchyTerm(a, b, k)(j), CauchyTerm(a, b, k + |a|)(j))
  {
    MulZero(a[j]);
    AddZero(CauchyTerm(a, b, k)(j));
    AddZero(CauchyTerm(a, b, k + |a|)(j));
  }

  /** The transform turns cyclic convolution into the pointwise product. */
  lemma FftOfConvolution(d: Domain, a: Vec, b: Vec, i: nat)
    requires |a| == |b| == d.size && i < d.size
    ensures Fft(d, CyclicConvolution(a, b))[i] == Mul(Fft(d, a)[i], Fft(d, b)[i])
  {
    var x, w := Pow(d.omega, i), CyclicConvolution(a, b);
    PointToTheSize(d, i);
    forall k | 0 <= k < d.size
      ensures w[k] == Add(Coeff(MulP(a, b), k), Coeff(MulP(a, b), k + d.size))
    {
      CyclicIsWrapped(a, b, k);
    }
    MulPLength(a, b);
    WrappedEval(MulP(a, b), w, d.size, x);
    EvalMul(a, b, x);
    FftEvaluates(d, w, i);
    FftEvaluates(d, a, i);
    FftEvaluates(d, b, i);
  }

  /** The size of a domain is invertible: its points are that many nonzero elements. */
  lemma SizeBelowModulus(d: Domain)
    ensures d.size < MODULUS
  {
    var u := Elements(d, d.size);
    ElementsDistinct(d, d.size);
    forall i | 0 <= i < |u| ensures u[i] != 0 {
      PointNonzero(d, i);
    }
    DistinctInRange(u, 1, MODULUS);
  }
}
