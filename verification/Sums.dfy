/**
 Finite sums and products of field elements: over an initial range of indices, and
 over a sequence, where the order of the terms does not matter.
 */
module Sums {
  import opened PrimeField

  // ---- Sums over indices -------------------------------------------------------

  /** f(0) + ... + f(n-1) */
  function Sum(f: int -> Elem, n: nat): Elem {
    if n == 0 then 0 else Add(Sum(f, n - 1), f(n - 1))
  }

  lemma {:induction false} SumExt(f: int -> Elem, g: int -> Elem, n: nat)
    requires forall i :: 0 <= i < n ==> f(i) == g(i)
    ensures Sum(f, n) == Sum(g, n)
  {
    if n > 0 {
      SumExt(f, g, n - 1);
    }
  }

  lemma {:induction false} SumOfZeros(f: int -> Elem, n: nat)
    requires forall i :: 0 <= i < n ==> f(i) == 0
    ensures Sum(f, n) == 0
  {
    if n > 0 {
      SumOfZeros(f, n - 1);
      AddZero(0);
    }
  }

  lemma {:induction false} SumSplit(f: int -> Elem, g: int -> Elem, m: nat, n: nat)
    requires forall i :: 0 <= i < n ==> g(i) == f(m + i)
    ensures Sum(f, m + n) == Add(Sum(f, m), Sum(g, n))
  {
    if n == 0 {
      AddZero(Sum(f, m));
    } else {
      SumSplit(f, g, m, n - 1);
      AddAssoc(Sum(f, m), Sum(g, n - 1), g(n - 1));
    }
  }

  /** Zero terms at the end do not change a sum. */
  lemma {:induction false} SumPadded(f: int -> Elem, m: nat, n: nat)
    requires m <= n && forall i :: m <= i < n ==> f(i) == 0
    ensures Sum(f, m) == Sum(f, n)
  {
    if m < n {
      SumPadded(f, m, n - 1);
      AddZero(Sum(f, n - 1));
    }
  }

  /** The first term can be taken out in front. */
  lemma SumFirst(f: int -> Elem, g: int -> Elem, n: nat)
    requires forall i :: 0 <= i < n ==> g(i) == f(1 + i)
    ensures Sum(f, n + 1) == Add(f(0), Sum(g, n))
  {
    SumSplit(f, g, 1, n);
    assert Sum(f, 1) == Add(Sum(f, 0), f(0));
    AddZero(f(0));
  }

  function Shifted(f: int -> Elem): int -> Elem {
    (i: int) => f(i + 1)
  }

  lemma {:induction false} SumReverse(f: int -> Elem, g: int -> Elem, n: nat)
    requires forall i :: 0 <= i < n ==> g(i) == f(n - 1 - i)
    ensures Sum(f, n) == Sum(g, n)
  {
    if n > 0 {
      var h := Shifted(g);
      SumFirst(g, h, n - 1);
      SumReverse(f, h, n - 1);
      AddComm(Sum(f, n - 1), f(n - 1));
    }
  }

  lemma {:induction false} SumAdd(f: int -> Elem, g: int -> Elem, h: int -> Elem, n: nat)
    requires forall i :: 0 <= i < n ==> h(i) == Add(f(i), g(i))
    ensures Sum(h, n) == Add(Sum(f, n), Sum(g, n))
  {
    if n == 0 {
      AddZero(0);
    } else {
      SumAdd(f, g, h, n - 1);
      AddSwap(Sum(f, n - 1), Sum(g, n - 1), f(n - 1), g(n - 1));
    }
  }

  lemma {:induction false} SumScale(c: Elem, f: int -> Elem, g: int -> Elem, n: nat)
    requires forall i :: 0 <= i < n ==> g(i) == Mul(c, f(i))
    ensures Sum(g, n) == Mul(c, Sum(f, n))
  {
    if n == 0 {
      MulZero(c);
    } else {
      SumScale(c, f, g, n - 1);
      Distrib(c, Sum(f, n - 1), f(n - 1));
    }
  }

  // ---- Sums and products over sequences ----------------------------------------

  function SumSeq(s: seq<Elem>): Elem {
    if s == [] then 0 else Add(s[0], SumSeq(s[1..]))
  }

  function ProductSeq(s: seq<Elem>): Elem {
    if s == [] then 1 else Mul(s[0], ProductSeq(s[1..]))
  }

  lemma {:induction false} SumSeqConcat(s: seq<Elem>, t: seq<Elem>)
    ensures SumSeq(s + t) == Add(SumSeq(s), SumSeq(t))
  {
    if s == [] {
      assert s + t == t;
      AddZero(SumSeq(t));
    } else {
      assert (s + t)[1..] == s[1..] + t;
      SumSeqConcat(s[1..], t);
      AddAssoc(s[0], SumSeq(s[1..]), SumSeq(t));
    }
  }

  lemma SumSeqAppend(s: seq<Elem>, x: Elem)
    ensures SumSeq(s + [x]) == Add(SumSeq(s), x)
  {
    SumSeqConcat(s, [x]);
    assert SumSeq([x]) == Add(x, SumSeq([]));
    AddZero(x);
  }

  lemma {:induction false} ProductSeqConcat(s: seq<Elem>, t: seq<Elem>)
    ensures ProductSeq(s + t) == Mul(ProductSeq(s), ProductSeq(t))
  {
    if s == [] {
      assert s + t == t;
      MulOne(ProductSeq(t));
    } else {
      assert (s + t)[1..] == s[1..] + t;
      ProductSeqConcat(s[1..], t);
      MulAssoc(s[0], ProductSeq(s[1..]), ProductSeq(t));
    }
  }

  lemma ProductSeqAppend(s: seq<Elem>, x: Elem)
    ensures ProductSeq(s + [x]) == Mul(ProductSeq(s), x)
  {
    ProductSeqConcat(s, [x]);
    assert ProductSeq([x]) == Mul(x, ProductSeq([]));
    MulOne(x);
  }

  /** Any element can be moved to the front of a sum or of a product. */
  lemma {:induction false} PullOut(s: seq<Elem>, i: nat)
    requires i < |s|
    ensures SumSeq(s) == Add(s[i], SumSeq(s[..i] + s[i + 1..]))
    ensures ProductSeq(s) == Mul(s[i], ProductSeq(s[..i] + s[i + 1..]))
  {
    var l, r := s[..i], s[i + 1..];
    assert s == l + ([s[i]] + r);
    assert ([s[i]] + r)[1..] == r;
    SumSeqConcat(l, [s[i]] + r);
    SumSeqConcat(l, r);
    AddAssoc(SumSeq(l), s[i], SumSeq(r));
    AddComm(SumSeq(l), s[i]);
    AddAssoc(s[i], SumSeq(l), SumSeq(r));
    ProductSeqConcat(l, [s[i]] + r);
    ProductSeqConcat(l, r);
    MulAssoc(ProductSeq(l), s[i], ProductSeq(r));
    MulComm(ProductSeq(l), s[i]);
    MulAssoc(s[i], ProductSeq(l), ProductSeq(r));
  }

  /** Removing equal elements from two permutations leaves permutations. */
  lemma RemoveOne<T>(s: seq<T>, t: seq<T>, i: nat)
    requires s != [] && i < |t| && t[i] == s[0] && multiset(s) == multiset(t)
    ensures multiset(s[1..]) == multiset(t[..i] + t[i + 1..])
  {
    var a, b := t[..i], t[i + 1..];
    assert s == [s[0]] + s[1..];
    assert t == a + ([t[i]] + b);
    calc {
      multiset(s[1..]);
      multiset(s) - multiset{s[0]};
      multiset(t) - multiset{t[i]};
      multiset(a) + multiset(b);
    }
  }

  /** Sums and products do not depend on the order of the terms. */
  lemma {:induction false} PermutationInvariant(s: seq<Elem>, t: seq<Elem>)
    requires multiset(s) == multiset(t)
    ensures SumSeq(s) == SumSeq(t) && ProductSeq(s) == ProductSeq(t)
    decreases |s|
  {
    assert |s| == |multiset(s)| == |multiset(t)| == |t|;
    if s != [] {
      assert s[0] in multiset(t);
      var i :| 0 <= i < |t| && t[i] == s[0];
      RemoveOne(s, t, i);
      PullOut(t, i);
      PermutationInvariant(s[1..], t[..i] + t[i + 1..]);
    }
  }

  function Mapped<T>(f: T -> Elem, s: seq<T>): seq<Elem> {
    seq(|s|, i requires 0 <= i < |s| => f(s[i]))
  }

  /** Nor does it matter in which order a function is applied to the terms. */
  lemma {:induction false} MappedPermutation<T>(f: T -> Elem, s: seq<T>, t: seq<T>)
    requires multiset(s) == multiset(t)
    ensures SumSeq(Mapped(f, s)) == SumSeq(Mapped(f, t))
    ensures ProductSeq(Mapped(f, s)) == ProductSeq(Mapped(f, t))
    decreases |s|
  {
    assert |s| == |multiset(s)| == |multiset(t)| == |t|;
    if s != [] {
      assert s[0] in multiset(t);
      var i :| 0 <= i < |t| && t[i] == s[0];
      var t' := t[..i] + t[i + 1..];
      RemoveOne(s, t, i);
      MappedPermutation(f, s[1..], t');
      PullOut(Mapped(f, t), i);
      assert Mapped(f, t)[..i] + Mapped(f, t)[i + 1..] == Mapped(f, t');
      assert Mapped(f, s)[1..] == Mapped(f, s[1..]);
    }
  }

  lemma {:induction false} ProductSeqNonzero(s: seq<Elem>)
    ensures ProductSeq(s) != 0 <==> forall i :: 0 <= i < |s| ==> s[i] != 0
  {
    if s != [] {
      ProductSeqNonzero(s[1..]);
      NoZeroDivisors(s[0], ProductSeq(s[1..]));
      assert forall i :: 0 < i < |s| ==> s[i] == s[1..][i - 1];
    }
  }
}
