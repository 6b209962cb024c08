/**
 Multiplication by the Toeplitz matrix of a polynomial, by embedding it into a
 circulant matrix and transforming.
 */
module Toeplitz {
  import opened Wrappers
  import opened PrimeField
  import opened Sums
  import opened Polynomial
  import opened FastDivision
  import opened EvaluationDomain
  import opened Groups

  /** f_n, then n-1 zeros, an entry of no consequence, and f_1 to f_{n-1} */
  ghost predicate IsCirculantOf(c: Vec, f: Vec, n: nat) {
    && |c| == 2 * n && n >= 1 && |f| <= n + 1
    && c[0] == Coeff(f, n)
    && (forall k :: 1 <= k < n ==> c[k] == 0)
    && (forall k :: n < k < 2 * n ==> c[k] == Coeff(f, k - n))
  }

  /** The vector of the 2n x 2n circulant matrix of f */
  method BuildCirculant(f: Vec, n: nat) returns (circulant: Vec)
    requires 1 <= |f| <= n + 1 && n >= 1
    ensures IsCirculantOf(circulant, f, n) && circulant[n] == Coeff(f, n)
  {
    var c := new Elem[2 * n](_ => 0);
    if n == |f| - 1 {
      c[0] := f[|f| - 1];
      c[n] := f[|f| - 1];
      for k := 1 to |f| - 1
        invariant c[0] == f[n] && c[n] == f[n]
        invariant forall j :: 1 <= j < n ==> c[j] == 0
        invariant forall j :: n < j < n + k ==> c[j] == f[j - n]
      {
        c[n + k] := f[k];
      }
    } else {
      for k := 1 to |f|
        invariant forall j :: 0 <= j <= n ==> c[j] == 0
        invariant forall j :: n < j < n + k ==> c[j] == f[j - n]
        invariant forall j :: n + k <= j < 2 * n ==> c[j] == 0
      {
        c[n + k] := f[k];
      }
    }
    circulant := c[..];
  }

  function ToeplitzTerm(f: Vec, v: Vec, i: int): int -> Elem {
    (k: int) => Mul(Coeff(f, i + 1 + k), Coeff(v, k))
  }

  /** Entry i of the Toeplitz product: the sum over k of f_{i+1+k} * v_k */
  function ToeplitzEntry(f: Vec, v: Vec, i: nat): Elem {
    Sum(ToeplitzTerm(f, v, i), |v|)
  }

  /** v, reversed and padded in front to n entries, then with n zeros behind */
  ghost predicate IsPaddedReverse(w: Vec, v: Vec, n: nat) {
    && |w| == 2 * n && |v| <= n
    && (forall j :: 0 <= j < n ==> w[j] == Coeff(v, n - 1 - j))
    && (forall j :: n <= j < 2 * n ==> w[j] == 0)
  }

  lemma PaddingTermsVanish(w: Vec, c: Vec, v: Vec, n: nat, i: nat, j: nat)
    requires IsPaddedReverse(w, v, n) && n <= j < 2 * n
    ensures CyclicTerm(w, c, i)(j) == 0
  {
    MulZero(if j <= i then Coeff(c, i - j) else Coeff(c, i + |w| - j));
  }

  lemma TermsCorrespond(w: Vec, c: Vec, f: Vec, v: Vec, n: nat, i: nat, k: nat)
    requires IsCirculantOf(c, f, n) && IsPaddedReverse(w, v, n) && i < n && k < n
    ensures ToeplitzTerm(f, v, i)(k) == CyclicTerm(w, c, i)(n - 1 - k)
    ensures k >= |v| ==> ToeplitzTerm(f, v, i)(k) == 0
  {
    CirculantEntry(c, f, n, i, n - 1 - k);
    MulComm(Coeff(f, i + 1 + k), Coeff(v, k));
    MulZero(Coeff(f, i + 1 + k));
  }

  /** The first n entries of the cyclic convolution are the Toeplitz product. */
  lemma ConvolutionIsToeplitz(w: Vec, c: Vec, f: Vec, v: Vec, n: nat, i: nat)
    requires IsCirculantOf(c, f, n) && IsPaddedReverse(w, v, n) && i < n
    ensures CyclicConvolution(w, c)[i] == ToeplitzEntry(f, v, i)
  {
    var cyclic, toeplitz := CyclicTerm(w, c, i), ToeplitzTerm(f, v, i);
    assert CyclicConvolution(w, c)[i] == Sum(cyclic, 2 * n);
    assert ToeplitzEntry(f, v, i) == Sum(toeplitz, |v|) && |v| <= n;
    hide *;
    forall j | n <= j < 2 * n ensures cyclic(j) == 0 {
      PaddingTermsVanish(w, c, v, n, i, j);
    }
    SumPadded(cyclic, n, 2 * n);
    forall k | 0 <= k < n
      ensures toeplitz(k) == cyclic(n - 1 - k)
      ensures k >= |v| ==> toeplitz(k) == 0
    {
      TermsCorrespond(w, c, f, v, n, i, k);
    }
    SumReverse(cyclic, toeplitz, n);
    SumPadded(toeplitz, |v|, n);
  }

  lemma CirculantEntry(c: Vec, f: Vec, n: nat, i: nat, j: nat)
    requires IsCirculantOf(c, f, n) && i < n && j < n
    ensures (if j <= i then Coeff(c, i - j) else Coeff(c, i + 2 * n - j)) == Coeff(f, n + i - j)
  {
  }

  /** 2^k is the least power of two that is at least twice the size and twice the degree. */
  ghost predicate IsCirculantSize(k: nat, polynomial: Vec, size: nat) {
    && 2 * size <= Pow2(k) && 2 * (|polynomial| - 1) <= Pow2(k)
    && (k > 0 ==> Pow2(k - 1) < 2 * size || Pow2(k - 1) < 2 * (|polynomial| - 1))
  }

  /**
   The domain has 2^k points, if the field provides it: as many as the least power of two that
   is at least twice the larger of `size` and the degree.  The other conditions are those whose
   violation is a panic: an empty polynomial, a 0 x 0 matrix, and a vector that is longer than
   the matrix.
   */
  method ToeplitzMul(polynomial: Vec, v: seq<G1>, size: nat, ghost k: nat) returns (r: Option<(seq<G1>, Elem)>)
    requires polynomial != [] && (size >= 1 || |polynomial| >= 2)
    requires IsCirculantSize(k, polynomial, size) && (SUBGROUPS(k).Some? ==> |v| <= Pow2(k) / 2)
    ensures r.Some? <==> SUBGROUPS(k).Some?
    ensures r.Some? ==> |r.value.0| == Pow2(k) / 2
    ensures r.Some? ==> forall i :: 0 <= i < |r.value.0| ==> r.value.0[i] == ToeplitzEntry(polynomial, v, i)
    ensures r.Some? ==> Mul(FromInt(Pow2(k)), r.value.1) == 1
  {
    var matrixSize := Max(size, |polynomial| - 1);
    ConstructsLeastPower(2 * matrixSize, k);
    var constructed := ConstructDomain(2 * matrixSize);
    if constructed.None? {
      return None;
    }
    var domain := constructed.value;
    hide *;
    var toeplitzSize := domain.size / 2;
    EvenSize(domain);
    var circulant := BuildCirculant(polynomial, toeplitzSize);
    var tmp := PadReverse(v, toeplitzSize, domain.size);
    var a, b := Fft(domain, tmp), Fft(domain, circulant);
    TransformLength(domain, tmp);
    TransformLength(domain, circulant);
    var product := PointwiseProduct(a, b);
    TransformLength(domain, product);
    var result := Ifft(domain, product)[..toeplitzSize];
    TransformsMultiply(domain, tmp, circulant, product, polynomial, v, toeplitzSize);
    SizeBelowModulus(domain);
    FromIntNonzero(domain.size);
    InvLaw(FromInt(domain.size));
    return Some((result, Inv(FromInt(domain.size))));
  }

  lemma TransformLength(d: Domain, v: Vec)
    ensures |Fft(d, v)| == |Ifft(d, v)| == d.size
  {
  }

  lemma TransformsMultiply(d: Domain, w: Vec, c: Vec, product: Vec, f: Vec, v: Vec, n: nat)
    requires d.size == 2 * n && IsCirculantOf(c, f, n) && IsPaddedReverse(w, v, n)
    requires |product| == |Fft(d, w)| == |Fft(d, c)|
    requires forall i :: 0 <= i < |product| ==> product[i] == Mul(Fft(d, w)[i], Fft(d, c)[i])
    ensures |Ifft(d, product)| == d.size
    ensures forall i :: 0 <= i < n ==> Ifft(d, product)[i] == ToeplitzEntry(f, v, i)
  {
    TransformLength(d, w);
    TransformLength(d, product);
    assert |w| == |c| == d.size;
    hide *;
    ProductIsConvolution(d, w, c, product);
    forall i | 0 <= i < n ensures Ifft(d, product)[i] == ToeplitzEntry(f, v, i) {
      ConvolutionIsToeplitz(w, c, f, v, n, i);
    }
  }

  method PadReverse(v: Vec, n: nat, size: nat) returns (tmp: Vec)
    requires |v| <= n && size == 2 * n
    ensures IsPaddedReverse(tmp, v, n)
  {
    tmp := [];
    for j := 0 to n - |v|
      invariant |tmp| == j && forall k :: 0 <= k < j ==> tmp[k] == 0
    {
      tmp := tmp + [0];
    }
    for j := 0 to |v|
      invariant |tmp| == n - |v| + j
      invariant forall k :: 0 <= k < |tmp| ==> tmp[k] == Coeff(v, n - 1 - k)
    {
      tmp := tmp + [v[|v| - 1 - j]];
    }
    tmp := Resize(tmp, size);
  }

  /** Transforming back the product of two transforms gives their cyclic convolution. */
  lemma ProductIsConvolution(d: Domain, a: Vec, b: Vec, product: Vec)
    requires |a| == |b| == |product| == d.size
    requires forall i :: 0 <= i < d.size ==> product[i] == Mul(Fft(d, a)[i], Fft(d, b)[i])
    ensures Ifft(d, product) == CyclicConvolution(a, b)
  {
    var c := CyclicConvolution(a, b);
    forall i | 0 <= i < d.size ensures product[i] == Fft(d, c)[i] {
      FftOfConvolution(d, a, b, i);
    }
    assert product == Fft(d, c);
    IfftUndoesFft(d, c);
  }

  /** A domain with more than one point has an even number of them. */
  lemma EvenSize(d: Domain)
    requires d.size >= 2
    ensures d.size == 2 * (d.size / 2)
  {
    var k: nat :| d.size == Pow2(k);
  }

  method PointwiseProduct(a: Vec, b: Vec) returns (p: Vec)
    requires |a| == |b|
    ensures |p| == |a| && forall i :: 0 <= i < |p| ==> p[i] == Mul(a[i], b[i])
  {
    p := a;
    for i := 0 to |a|
      invariant |p| == |a|
      invariant forall j :: 0 <= j < i ==> p[j] == Mul(a[j], b[j])
      invariant forall j :: i <= j < |a| ==> p[j] == a[j]
    {
      p := p[i := Mul(p[i], b[i])];
    }
  }
}
