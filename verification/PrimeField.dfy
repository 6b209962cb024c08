/**
 The scalar field of the pairing: the integers modulo an arbitrary prime.

 MODULUS is a constant without a value, so every result of this project holds for
 every prime, in particular for the order of the BLS12-381 groups.  The operations
 are reached through the constant OPS, whose type pins them to modular arithmetic.
 A client therefore reasons from the named laws below; the definitions themselves
 are unfolded only where one of the `...Is` predicates is mentioned.
 */
module PrimeField {

  // ---- The modulus ------------------------------------------------------------

  ghost predicate DividesEvenly(d: int, n: int)
    requires d > 0
  {
    n % d == 0
  }

  ghost predicate IsPrime(p: int) {
    2 <= p && forall d :: 2 <= d < p ==> !DividesEvenly(d, p)
  }

  type PrimeModulus = p: int | IsPrime(p) witness 2

  const MODULUS: PrimeModulus

  type Elem = x: int | 0 <= x < MODULUS witness 0

  // ---- Integer arithmetic under the remainder ----------------------------------

  lemma RemainderUnique(x: int, q: int, r: int)
    requires 0 <= r < MODULUS && x == q * MODULUS + r
    ensures x % MODULUS == r
  {
    var q', r' := x / MODULUS, x % MODULUS;
    assert x == q' * MODULUS + r';
    assert (q - q') * MODULUS == r' - r;
    MultipleIsFar(q - q', MODULUS);
  }

  lemma MultipleIsFar(k: int, d: int)
    requires d > 0
    ensures k >= 1 ==> k * d >= d
    ensures k <= -1 ==> k * d <= 0 - d
  {
  }

  lemma RemainderShift(x: int, k: int)
    ensures (x + k * MODULUS) % MODULUS == x % MODULUS
  {
    RemainderUnique(x + k * MODULUS, x / MODULUS + k, x % MODULUS);
  }

  lemma RemainderOfSum(x: int, y: int)
    ensures (x % MODULUS + y % MODULUS) % MODULUS == (x + y) % MODULUS
  {
    var q, r, q', r' := x / MODULUS, x % MODULUS, y / MODULUS, y % MODULUS;
    assert x == q * MODULUS + r && y == q' * MODULUS + r';
    assert (q + q') * MODULUS == q * MODULUS + q' * MODULUS;
    RemainderShift(r + r', q + q');
  }

  lemma RemainderOfProduct(x: int, y: int)
    ensures ((x % MODULUS) * (y % MODULUS)) % MODULUS == (x * y) % MODULUS
  {
    var q, r, q', r' := x / MODULUS, x % MODULUS, y / MODULUS, y % MODULUS;
    var k := q * q' * MODULUS + q * r' + r * q';
    assert x == q * MODULUS + r && y == q' * MODULUS + r';
    calc {
      x * y;
      (q * MODULUS + r) * (q' * MODULUS + r');
      r * r' + k * MODULUS;
    }
    RemainderShift(r * r', k);
  }

  // ---- Inverses, by Bezout -----------------------------------------------------

  /** g, with a*x + b*y == g, a == g*ca and b == g*cb */
  datatype Bezout = Bezout(g: int, x: int, y: int, ca: int, cb: int)

  /** The extended Euclidean algorithm. */
  function ExtendedGcd(a: nat, b: nat): Bezout
    decreases b
  {
    if b == 0 then
      Bezout(a, 1, 0, 1, 0)
    else
      var s := ExtendedGcd(b, a % b);
      Bezout(s.g, s.y, s.x - (a / b) * s.y, (a / b) * s.ca + s.cb, s.ca)
  }

  ghost predicate IsBezout(a: int, b: int, r: Bezout) {
    r.g > 0 && a * r.x + b * r.y == r.g && a == r.g * r.ca && b == r.g * r.cb
  }

  lemma {:induction false} ExtendedGcdLaw(a: nat, b: nat)
    requires a > 0 || b > 0
    ensures IsBezout(a, b, ExtendedGcd(a, b))
    decreases b
  {
    if b > 0 {
      ExtendedGcdLaw(b, a % b);
      EuclidStep(a, b, a / b, a % b, ExtendedGcd(b, a % b));
    }
  }

  lemma EuclidStep(a: int, b: int, q: int, r: int, s: Bezout)
    requires a == q * b + r
    requires IsBezout(b, r, s)
    ensures IsBezout(a, b, Bezout(s.g, s.y, s.x - q * s.y, q * s.ca + s.cb, s.ca))
  {
    calc {
      a * s.y + b * (s.x - q * s.y);
      (q * b + r) * s.y + b * (s.x - q * s.y);
      b * s.x + r * s.y;
    }
    calc {
      a;
      q * (s.g * s.ca) + s.g * s.cb;
      s.g * (q * s.ca + s.cb);
    }
  }

  lemma GcdWithModulusIsOne(a: Elem)
    requires a != 0
    ensures ExtendedGcd(a, MODULUS).g == 1
  {
    var b := ExtendedGcd(a, MODULUS);
    ExtendedGcdLaw(a, MODULUS);
    assert b.cb > 0;
    if b.g >= 2 {
      assert b.ca >= 1;
      assert b.g <= b.g * b.ca;
      assert b.g < MODULUS;
      MultipleHasNoRemainder(b.g, b.cb);
      assert DividesEvenly(b.g, MODULUS);
    }
  }

  lemma MultipleHasNoRemainder(d: int, k: int)
    requires d > 0
    ensures (d * k) % d == 0
  {
    var q, r := (d * k) / d, (d * k) % d;
    assert (k - q) * d == r;
    MultipleIsFar(k - q, d);
  }

  function ModularInverse(a: Elem): (r: Elem)
    ensures a != 0 ==> (a * r) % MODULUS == 1
  {
    if a == 0 then 0 else
      var b := ExtendedGcd(a, MODULUS);
      GcdWithModulusIsOne(a);
      ExtendedGcdLaw(a, MODULUS);
      InverseFromBezout(a, b.x, b.y);
      b.x % MODULUS
  }

  lemma InverseFromBezout(a: Elem, x: int, y: int)
    requires a * x + MODULUS * y == 1
    ensures (a * (x % MODULUS)) % MODULUS == 1
  {
    RemainderOfProduct(a, x);
    RemainderUnique(a, 0, a);
    assert a * x == (-y) * MODULUS + 1;
    RemainderUnique(a * x, -y, 1);
  }

  // ---- The operations ----------------------------------------------------------

  datatype FieldOps = FieldOps(
    embed: int -> Elem,
    add: (Elem, Elem) -> Elem,
    neg: Elem -> Elem,
    mul: (Elem, Elem) -> Elem,
    inv: Elem -> Elem)

  ghost predicate EmbedIs(f: FieldOps, x: int) { f.embed(x) == x % MODULUS }

  ghost predicate AddIs(f: FieldOps, a: Elem, b: Elem) { f.add(a, b) == (a + b) % MODULUS }

  ghost predicate NegIs(f: FieldOps, a: Elem) { f.neg(a) == (0 - a) % MODULUS }

  ghost predicate MulIs(f: FieldOps, a: Elem, b: Elem) { f.mul(a, b) == (a * b) % MODULUS }

  ghost predicate InvIs(f: FieldOps, a: Elem) { a != 0 ==> (a * f.inv(a)) % MODULUS == 1 }

  ghost predicate IsModular(f: FieldOps) {
    && (forall x: int {:trigger EmbedIs(f, x)} :: EmbedIs(f, x))
    && (forall a: Elem, b: Elem {:trigger AddIs(f, a, b)} :: AddIs(f, a, b))
    && (forall a: Elem {:trigger NegIs(f, a)} :: NegIs(f, a))
    && (forall a: Elem, b: Elem {:trigger MulIs(f, a, b)} :: MulIs(f, a, b))
    && (forall a: Elem {:trigger InvIs(f, a)} :: InvIs(f, a))
  }

  type ModularOps = f: FieldOps | IsModular(f)
    witness FieldOps(x => x % MODULUS,
                     (a: Elem, b: Elem) => (a + b) % MODULUS,
                     (a: Elem) => (0 - a) % MODULUS,
                     (a: Elem, b: Elem) => (a * b) % MODULUS,
                     ModularInverse)

  const OPS: ModularOps

  /** The field element an integer stands for (`F::from` in the source). */
  function FromInt(x: int): Elem { OPS.embed(x) }

  function Add(a: Elem, b: Elem): Elem { OPS.add(a, b) }

  function Neg(a: Elem): Elem { OPS.neg(a) }

  function Sub(a: Elem, b: Elem): Elem { Add(a, Neg(b)) }

  function Mul(a: Elem, b: Elem): Elem { OPS.mul(a, b) }

  /** The inverse of a nonzero element; nothing is said about Inv(0). */
  function Inv(a: Elem): Elem { OPS.inv(a) }

  // ---- FromInt is a ring homomorphism onto the field ---------------------------

  lemma FromIntOfElem(a: Elem)
    ensures FromInt(a) == a
  {
    assert EmbedIs(OPS, a);
    RemainderUnique(a, 0, a);
  }

  lemma FromIntAdd(x: int, y: int)
    ensures Add(FromInt(x), FromInt(y)) == FromInt(x + y)
  {
    assert EmbedIs(OPS, x) && EmbedIs(OPS, y) && EmbedIs(OPS, x + y);
    assert AddIs(OPS, FromInt(x), FromInt(y));
    RemainderOfSum(x, y);
  }

  lemma FromIntMul(x: int, y: int)
    ensures Mul(FromInt(x), FromInt(y)) == FromInt(x * y)
  {
    assert EmbedIs(OPS, x) && EmbedIs(OPS, y) && EmbedIs(OPS, x * y);
    assert MulIs(OPS, FromInt(x), FromInt(y));
    RemainderOfProduct(x, y);
  }

  lemma NegFromInt(a: Elem)
    ensures Neg(a) == FromInt(0 - a)
  {
    assert NegIs(OPS, a) && EmbedIs(OPS, 0 - a);
  }

  /** Below the modulus, only 0 stands for the zero element. */
  lemma FromIntNonzero(n: int)
    requires 0 < n < MODULUS
    ensures FromInt(n) != 0
  {
    FromIntOfElem(n);
  }

  // ---- Field laws --------------------------------------------------------------

  lemma AddComm(a: Elem, b: Elem)
    ensures Add(a, b) == Add(b, a)
  {
    assert AddIs(OPS, a, b) && AddIs(OPS, b, a);
  }

  lemma AddAssoc(a: Elem, b: Elem, c: Elem)
    ensures Add(Add(a, b), c) == Add(a, Add(b, c))
  {
    FromIntOfElem(a);
    FromIntOfElem(b);
    FromIntOfElem(c);
    FromIntAdd(a, b);
    FromIntAdd(a + b, c);
    FromIntAdd(b, c);
    FromIntAdd(a, b + c);
  }

  lemma AddZero(a: Elem)
    ensures Add(a, 0) == a && Add(0, a) == a
  {
    FromIntOfElem(a);
    FromIntOfElem(0);
    FromIntAdd(a, 0);
    FromIntAdd(0, a);
  }

  lemma SubSelf(a: Elem)
    ensures Sub(a, a) == 0 && Add(Neg(a), a) == 0
  {
    FromIntOfElem(a);
    FromIntOfElem(0);
    NegFromInt(a);
    FromIntAdd(a, 0 - a);
    FromIntAdd(0 - a, a);
  }

  lemma MulComm(a: Elem, b: Elem)
    ensures Mul(a, b) == Mul(b, a)
  {
    assert MulIs(OPS, a, b) && MulIs(OPS, b, a);
  }

  lemma MulAssoc(a: Elem, b: Elem, c: Elem)
    ensures Mul(Mul(a, b), c) == Mul(a, Mul(b, c))
  {
    FromIntOfElem(a);
    FromIntOfElem(b);
    FromIntOfElem(c);
    FromIntMul(a, b);
    FromIntMul(a * b, c);
    FromIntMul(b, c);
    FromIntMul(a, b * c);
    assert (a * b) * c == a * (b * c);
  }

  lemma MulOne(a: Elem)
    ensures Mul(a, 1) == a && Mul(1, a) == a
  {
    FromIntOfElem(a);
    FromIntOfElem(1);
    FromIntMul(a, 1);
    MulComm(a, 1);
  }

  lemma MulZero(a: Elem)
    ensures Mul(a, 0) == 0 && Mul(0, a) == 0
  {
    FromIntOfElem(a);
    FromIntOfElem(0);
    FromIntMul(a, 0);
    MulComm(a, 0);
  }

  lemma Distrib(a: Elem, b: Elem, c: Elem)
    ensures Mul(a, Add(b, c)) == Add(Mul(a, b), Mul(a, c))
    ensures Mul(Add(b, c), a) == Add(Mul(b, a), Mul(c, a))
  {
    FromIntOfElem(a);
    FromIntOfElem(b);
    FromIntOfElem(c);
    FromIntAdd(b, c);
    FromIntMul(a, b + c);
    FromIntMul(a, b);
    FromIntMul(a, c);
    FromIntAdd(a * b, a * c);
    assert a * (b + c) == a * b + a * c;
    MulComm(a, Add(b, c));
    MulComm(a, b);
    MulComm(a, c);
  }

  lemma InvLaw(a: Elem)
    requires a != 0
    ensures Mul(a, Inv(a)) == 1 && Mul(Inv(a), a) == 1
  {
    assert InvIs(OPS, a) && MulIs(OPS, a, Inv(a));
    MulComm(a, Inv(a));
  }

  // ---- Derived laws ------------------------------------------------------------

  lemma MulNeg(a: Elem, b: Elem)
    ensures Mul(a, Neg(b)) == Neg(Mul(a, b)) && Mul(Neg(a), b) == Neg(Mul(a, b))
  {
    MulNegRight(a, b);
    MulNegRight(b, a);
    MulComm(a, b);
    MulComm(Neg(a), b);
  }

  lemma MulNegRight(a: Elem, b: Elem)
    ensures Mul(a, Neg(b)) == Neg(Mul(a, b))
  {
    var p := Mul(a, b);
    Distrib(a, b, Neg(b));
    SubSelf(b);
    MulZero(a);
    NegUnique(p, Mul(a, Neg(b)));
  }

  /** What cancels a is -a. */
  lemma NegUnique(a: Elem, b: Elem)
    requires Add(a, b) == 0
    ensures b == Neg(a)
  {
    SubSelf(a);
    AddAssoc(Neg(a), a, b);
    AddZero(b);
    AddZero(Neg(a));
  }

  lemma NegNeg(a: Elem)
    ensures Neg(Neg(a)) == a
  {
    SubSelf(a);
    NegUnique(Neg(a), a);
  }

  lemma NegZero()
    ensures Neg(0) == 0
  {
    AddZero(0);
    NegUnique(0, 0);
  }

  lemma NegAdd(a: Elem, b: Elem)
    ensures Neg(Add(a, b)) == Add(Neg(a), Neg(b))
  {
    AddSwap(a, b, Neg(a), Neg(b));
    SubSelf(a);
    SubSelf(b);
    AddZero(0);
    NegUnique(Add(a, b), Add(Neg(a), Neg(b)));
  }

  /** (a + b) + (c + d) == (a + c) + (b + d) */
  lemma AddSwap(a: Elem, b: Elem, c: Elem, d: Elem)
    ensures Add(Add(a, b), Add(c, d)) == Add(Add(a, c), Add(b, d))
  {
    AddAssoc(a, b, Add(c, d));
    AddAssoc(b, c, d);
    AddComm(b, c);
    AddAssoc(c, b, d);
    AddAssoc(a, c, Add(b, d));
  }

  /** (a * b) * (c * d) == (a * c) * (b * d) */
  lemma MulSwap(a: Elem, b: Elem, c: Elem, d: Elem)
    ensures Mul(Mul(a, b), Mul(c, d)) == Mul(Mul(a, c), Mul(b, d))
  {
    MulAssoc(a, b, Mul(c, d));
    MulAssoc(b, c, d);
    MulComm(b, c);
    MulAssoc(c, b, d);
    MulAssoc(a, c, Mul(b, d));
  }

  lemma SubZeroIffEqual(a: Elem, b: Elem)
    ensures Sub(a, b) == 0 <==> a == b
  {
    SubSelf(a);
    AddSub(a, b);
    AddZero(b);
  }

  /** (a - b) + b == a, and a + b - b == a */
  lemma AddSub(a: Elem, b: Elem)
    ensures Add(Sub(a, b), b) == a && Sub(Add(a, b), b) == a
  {
    AddAssoc(a, Neg(b), b);
    AddAssoc(a, b, Neg(b));
    SubSelf(b);
    AddZero(a);
  }

  lemma AddCancel(a: Elem, b: Elem, c: Elem)
    requires Add(a, c) == Add(b, c)
    ensures a == b
  {
    AddSub(a, c);
    AddSub(b, c);
  }

  lemma MulSubDistrib(a: Elem, b: Elem, c: Elem)
    ensures Mul(a, Sub(b, c)) == Sub(Mul(a, b), Mul(a, c))
  {
    Distrib(a, b, Neg(c));
    MulNeg(a, c);
  }

  lemma NoZeroDivisors(a: Elem, b: Elem)
    ensures Mul(a, b) == 0 <==> a == 0 || b == 0
  {
    MulZero(a);
    MulZero(b);
    if a != 0 {
      CancelLeft(a, b);
      MulZero(Inv(a));
    }
  }

  /** (1/a) * (a * b) == b */
  lemma CancelLeft(a: Elem, b: Elem)
    requires a != 0
    ensures Mul(Inv(a), Mul(a, b)) == b && Mul(a, Mul(Inv(a), b)) == b
  {
    InvLaw(a);
    MulAssoc(Inv(a), a, b);
    MulAssoc(a, Inv(a), b);
    MulOne(b);
  }

  lemma CancelRight(a: Elem, b: Elem)
    requires b != 0
    ensures Mul(Mul(a, b), Inv(b)) == a
  {
    MulAssoc(a, b, Inv(b));
    InvLaw(b);
    MulOne(a);
  }

  /** (a / b) * b == a */
  lemma Rescaled(a: Elem, b: Elem)
    requires b != 0
    ensures Mul(Mul(a, Inv(b)), b) == a
  {
    MulAssoc(a, Inv(b), b);
    InvLaw(b);
    MulOne(a);
  }

  lemma MulCancel(a: Elem, b: Elem, c: Elem)
    requires a != 0 && Mul(a, b) == Mul(a, c)
    ensures b == c
  {
    CancelLeft(a, b);
    CancelLeft(a, c);
  }

  lemma InvMul(a: Elem, b: Elem)
    requires a != 0 && b != 0
    ensures Mul(a, b) != 0 && Inv(Mul(a, b)) == Mul(Inv(a), Inv(b))
  {
    NoZeroDivisors(a, b);
    InvLaw(a);
    InvLaw(b);
    MulSwap(a, b, Inv(a), Inv(b));
    MulOne(1);
    InvLaw(Mul(a, b));
    MulCancel(Mul(a, b), Inv(Mul(a, b)), Mul(Inv(a), Inv(b)));
  }

  lemma InvOne()
    ensures Inv(1) == 1
  {
    InvLaw(1);
    MulOne(Inv(1));
  }

  // ---- Powers ------------------------------------------------------------------

  function Pow(x: Elem, n: nat): Elem {
    if n == 0 then 1 else Mul(x, Pow(x, n - 1))
  }

  lemma {:induction false} PowAdd(x: Elem, m: nat, n: nat)
    ensures Pow(x, m + n) == Mul(Pow(x, m), Pow(x, n))
  {
    if m == 0 {
      MulOne(Pow(x, n));
    } else {
      PowAdd(x, m - 1, n);
      MulAssoc(x, Pow(x, m - 1), Pow(x, n));
    }
  }

  lemma {:induction false} PowNonzero(x: Elem, n: nat)
    requires x != 0
    ensures Pow(x, n) != 0
  {
    if n > 0 {
      PowNonzero(x, n - 1);
      NoZeroDivisors(x, Pow(x, n - 1));
    }
  }

  lemma {:induction false} PowOfOne(n: nat)
    ensures Pow(1, n) == 1
  {
    if n > 0 {
      PowOfOne(n - 1);
      MulOne(1);
    }
  }

  lemma {:induction false} PowMul(x: Elem, m: nat, n: nat)
    ensures Pow(Pow(x, m), n) == Pow(x, m * n)
  {
    if n > 0 {
      PowMul(x, m, n - 1);
      PowAdd(x, m, m * (n - 1));
      assert m * n == m + m * (n - 1);
    }
  }
}
