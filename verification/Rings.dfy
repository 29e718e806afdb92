/**
 Commutative rings, powers and finite sums. The transforms are proved over any commutative ring, so
 nothing here depends on rounding.

 The laws are gathered in `Laws`, so that they are used only where a lemma names the elements.
 */
module Rings {

  datatype Ring<!T> = Ring(zero: T, one: T, add: (T, T) -> T, mul: (T, T) -> T, neg: T -> T)

  function Add<T>(r: Ring<T>, x: T, y: T): T {
    r.add(x, y)
  }

  function Mul<T>(r: Ring<T>, x: T, y: T): T {
    r.mul(x, y)
  }

  function Neg<T>(r: Ring<T>, x: T): T {
    r.neg(x)
  }

  /** The laws of a commutative ring, at given elements. */
  ghost predicate Laws<T>(r: Ring<T>, x: T, y: T, z: T) {
    && Add(r, Add(r, x, y), z) == Add(r, x, Add(r, y, z))
    && Mul(r, Mul(r, x, y), z) == Mul(r, x, Mul(r, y, z))
    && Mul(r, Add(r, x, y), z) == Add(r, Mul(r, x, z), Mul(r, y, z))
    && Add(r, x, y) == Add(r, y, x)
    && Mul(r, x, y) == Mul(r, y, x)
    && Add(r, x, r.zero) == x
    && Mul(r, x, r.one) == x
    && Add(r, x, Neg(r, x)) == r.zero
  }

  ghost predicate IsRing<T(!new)>(r: Ring<T>) {
    forall x, y, z :: Laws(r, x, y, z)
  }

  lemma {:induction false} AddAssoc<T(!new)>(r: Ring<T>, x: T, y: T, z: T)
    requires IsRing(r)
    ensures Add(r, Add(r, x, y), z) == Add(r, x, Add(r, y, z))
  {
    assert Laws(r, x, y, z);
  }

  lemma {:induction false} MulAssoc<T(!new)>(r: Ring<T>, x: T, y: T, z: T)
    requires IsRing(r)
    ensures Mul(r, Mul(r, x, y), z) == Mul(r, x, Mul(r, y, z))
  {
    assert Laws(r, x, y, z);
  }

  lemma {:induction false} AddComm<T(!new)>(r: Ring<T>, x: T, y: T)
    requires IsRing(r)
    ensures Add(r, x, y) == Add(r, y, x)
  {
    assert Laws(r, x, y, x);
  }

  lemma {:induction false} MulComm<T(!new)>(r: Ring<T>, x: T, y: T)
    requires IsRing(r)
    ensures Mul(r, x, y) == Mul(r, y, x)
  {
    assert Laws(r, x, y, x);
  }

  lemma {:induction false} Distribute<T(!new)>(r: Ring<T>, x: T, y: T, z: T)
    requires IsRing(r)
    ensures Mul(r, Add(r, x, y), z) == Add(r, Mul(r, x, z), Mul(r, y, z))
    ensures Mul(r, z, Add(r, x, y)) == Add(r, Mul(r, z, x), Mul(r, z, y))
  {
    assert Laws(r, x, y, z);
    assert Laws(r, Add(r, x, y), z, z) && Laws(r, x, z, z) && Laws(r, y, z, z);
  }

  lemma {:induction false} Units<T(!new)>(r: Ring<T>, x: T)
    requires IsRing(r)
    ensures Add(r, x, r.zero) == x && Add(r, r.zero, x) == x
    ensures Mul(r, x, r.one) == x && Mul(r, r.one, x) == x
    ensures Add(r, x, Neg(r, x)) == r.zero && Add(r, Neg(r, x), x) == r.zero
  {
    assert Laws(r, x, r.zero, x) && Laws(r, x, r.one, x) && Laws(r, x, Neg(r, x), x);
  }

  /** Adding the same element on both sides. */
  lemma {:induction false} Cancel<T(!new)>(r: Ring<T>, x: T, y: T, z: T)
    requires IsRing(r) && Add(r, x, z) == Add(r, y, z)
    ensures x == y
  {
    AddAssoc(r, x, z, Neg(r, z));
    AddAssoc(r, y, z, Neg(r, z));
    Units(r, z);
    Units(r, x);
    Units(r, y);
  }

  lemma {:induction false} MulZero<T(!new)>(r: Ring<T>, x: T)
    requires IsRing(r)
    ensures Mul(r, x, r.zero) == r.zero && Mul(r, r.zero, x) == r.zero
  {
    Units(r, r.zero);
    Distribute(r, r.zero, r.zero, x);
    Units(r, Mul(r, r.zero, x));
    Units(r, Mul(r, x, r.zero));
    Cancel(r, Mul(r, r.zero, x), r.zero, Mul(r, r.zero, x));
    MulComm(r, x, r.zero);
  }

  lemma {:induction false} NegUnique<T(!new)>(r: Ring<T>, x: T, y: T)
    requires IsRing(r) && Add(r, x, y) == r.zero
    ensures y == Neg(r, x)
  {
    Units(r, x);
    AddComm(r, x, y);
    Cancel(r, y, Neg(r, x), x);
  }

  lemma {:induction false} MulNeg<T(!new)>(r: Ring<T>, x: T, y: T)
    requires IsRing(r)
    ensures Mul(r, x, Neg(r, y)) == Neg(r, Mul(r, x, y))
    ensures Mul(r, Neg(r, x), y) == Neg(r, Mul(r, x, y))
  {
    Distribute(r, y, Neg(r, y), x);
    Distribute(r, x, Neg(r, x), y);
    Units(r, x);
    Units(r, y);
    MulZero(r, x);
    MulZero(r, y);
    NegUnique(r, Mul(r, x, y), Mul(r, x, Neg(r, y)));
    NegUnique(r, Mul(r, x, y), Mul(r, Neg(r, x), y));
  }

  lemma {:induction false} NegAdd<T(!new)>(r: Ring<T>, x: T, y: T)
    requires IsRing(r)
    ensures Neg(r, Add(r, x, y)) == Add(r, Neg(r, x), Neg(r, y))
    ensures Neg(r, Neg(r, x)) == x
  {
    Units(r, x);
    Units(r, y);
    Interchange(r, x, y, Neg(r, x), Neg(r, y));
    Units(r, r.zero);
    NegUnique(r, Add(r, x, y), Add(r, Neg(r, x), Neg(r, y)));
    NegUnique(r, Neg(r, x), x);
  }

  /** (a + b) + (c + d) = (a + c) + (b + d). */
  lemma {:induction false} Interchange<T(!new)>(r: Ring<T>, a: T, b: T, c: T, d: T)
    requires IsRing(r)
    ensures Add(r, Add(r, a, b), Add(r, c, d)) == Add(r, Add(r, a, c), Add(r, b, d))
  {
    AddAssoc(r, a, b, Add(r, c, d));
    AddAssoc(r, b, c, d);
    AddComm(r, b, c);
    AddAssoc(r, c, b, d);
    AddAssoc(r, a, c, Add(r, b, d));
  }

  // ---------------------------------------------------------------------------------------------
  // Powers
  // ---------------------------------------------------------------------------------------------

  ghost function Pow<T>(r: Ring<T>, x: T, n: nat): T {
    if n == 0 then r.one else Mul(r, Pow(r, x, n - 1), x)
  }

  lemma {:induction false} PowAdd<T(!new)>(r: Ring<T>, x: T, m: nat, n: nat)
    requires IsRing(r)
    ensures Pow(r, x, m + n) == Mul(r, Pow(r, x, m), Pow(r, x, n))
    decreases n
  {
    if n == 0 {
      Units(r, Pow(r, x, m));
    } else {
      PowAdd(r, x, m, n - 1);
      MulAssoc(r, Pow(r, x, m), Pow(r, x, n - 1), x);
    }
  }

  lemma {:induction false} PowMul<T(!new)>(r: Ring<T>, x: T, m: nat, n: nat)
    requires IsRing(r)
    ensures Pow(r, x, m * n) == Pow(r, Pow(r, x, m), n)
    decreases n
  {
    if n > 0 {
      PowMul(r, x, m, n - 1);
      PowAdd(r, x, m * (n - 1), m);
      assert m * n == m * (n - 1) + m;
    }
  }

  lemma {:induction false} PowOne<T(!new)>(r: Ring<T>, n: nat)
    requires IsRing(r)
    ensures Pow(r, r.one, n) == r.one
    decreases n
  {
    if n > 0 {
      PowOne(r, n - 1);
      Units(r, r.one);
    }
  }

  /** Exponents of a root of unity only count modulo its order. */
  lemma {:induction false} PowMod<T(!new)>(r: Ring<T>, x: T, order: nat, n: nat)
    requires IsRing(r) && order > 0 && Pow(r, x, order) == r.one
    ensures Pow(r, x, n) == Pow(r, x, n % order)
  {
    var q := n / order;
    assert n == order * q + n % order;
    PowAdd(r, x, order * q, n % order);
    PowMul(r, x, order, q);
    PowOne(r, q);
    Units(r, Pow(r, x, n % order));
  }

  // ---------------------------------------------------------------------------------------------
  // Finite sums
  // ---------------------------------------------------------------------------------------------

  /** f(0) + ... + f(n - 1), accumulated from the left. */
  ghost function Sum<T>(r: Ring<T>, f: nat -> T, n: nat): T {
    if n == 0 then r.zero else Add(r, Sum(r, f, n - 1), f(n - 1))
  }

  lemma {:induction false} SumSame<T>(r: Ring<T>, f: nat -> T, g: nat -> T, n: nat)
    requires forall t: nat :: t < n ==> f(t) == g(t)
    ensures Sum(r, f, n) == Sum(r, g, n)
    decreases n
  {
    if n > 0 {
      SumSame(r, f, g, n - 1);
    }
  }

  lemma {:induction false} SumZero<T(!new)>(r: Ring<T>, f: nat -> T, n: nat)
    requires IsRing(r) && forall t: nat :: t < n ==> f(t) == r.zero
    ensures Sum(r, f, n) == r.zero
    decreases n
  {
    if n > 0 {
      SumZero(r, f, n - 1);
      Units(r, r.zero);
    }
  }

  lemma {:induction false} SumAdd<T(!new)>(r: Ring<T>, f: nat -> T, g: nat -> T, h: nat -> T, n: nat)
    requires IsRing(r) && forall t: nat :: t < n ==> h(t) == Add(r, f(t), g(t))
    ensures Sum(r, h, n) == Add(r, Sum(r, f, n), Sum(r, g, n))
    decreases n
  {
    if n == 0 {
      Units(r, r.zero);
    } else {
      SumAdd(r, f, g, h, n - 1);
      Interchange(r, Sum(r, f, n - 1), Sum(r, g, n - 1), f(n - 1), g(n - 1));
    }
  }

  lemma {:induction false} SumScale<T(!new)>(r: Ring<T>, f: nat -> T, g: nat -> T, c: T, n: nat)
    requires IsRing(r) && forall t: nat :: t < n ==> g(t) == Mul(r, f(t), c)
    ensures Sum(r, g, n) == Mul(r, Sum(r, f, n), c)
    decreases n
  {
    if n == 0 {
      MulZero(r, c);
    } else {
      SumScale(r, f, g, c, n - 1);
      Distribute(r, Sum(r, f, n - 1), f(n - 1), c);
    }
  }

  lemma {:induction false} SumAppend<T(!new)>(r: Ring<T>, f: nat -> T, g: nat -> T, m: nat, n: nat)
    requires IsRing(r) && forall t: nat :: t < n ==> g(t) == f(m + t)
    ensures Sum(r, f, m + n) == Add(r, Sum(r, f, m), Sum(r, g, n))
    decreases n
  {
    if n == 0 {
      Units(r, Sum(r, f, m));
    } else {
      SumAppend(r, f, g, m, n - 1);
      AddAssoc(r, Sum(r, f, m), Sum(r, g, n - 1), g(n - 1));
    }
  }

  /** Every `step`-th term of `f`, from `from` on. */
  ghost function Every<T>(f: nat -> T, from: nat, step: nat): nat -> T {
    (s: nat) => f(from + step * s)
  }

  /** For each remainder, the sum over its terms. */
  ghost function ByRemainder<T>(r: Ring<T>, f: nat -> T, factor: nat, count: nat): nat -> T {
    (p: nat) => Sum(r, Every(f, p, factor), count)
  }

  lemma {:induction false} ByRemainderStep<T(!new)>(r: Ring<T>, f: nat -> T, factor: nat, count: nat, base: nat, p: nat)
    requires count > 0 && base == factor * (count - 1)
    ensures ByRemainder(r, f, factor, count)(p) == Add(r, ByRemainder(r, f, factor, count - 1)(p), f(base + p))
  {
    assert Every(f, p, factor)(count - 1) == f(base + p);
  }

  /** A sum over factor * count terms, grouped by the remainder modulo `factor`. */
  lemma {:induction false} SumByRemainder<T(!new)>(r: Ring<T>, f: nat -> T, factor: nat, count: nat)
    requires IsRing(r)
    ensures Sum(r, f, factor * count) == Sum(r, ByRemainder(r, f, factor, count), factor)
    decreases count
  {
    if count == 0 {
      SumZero(r, ByRemainder(r, f, factor, 0), factor);
    } else {
      var base: nat := factor * (count - 1);
      assert factor * count == base + factor;
      SumByRemainder(r, f, factor, count - 1);
      AppendBlock(r, f, factor, count, base);
    }
  }

  lemma {:induction false} AppendBlock<T(!new)>(r: Ring<T>, f: nat -> T, factor: nat, count: nat, base: nat)
    requires IsRing(r) && count > 0 && base == factor * (count - 1)
    requires Sum(r, f, base) == Sum(r, ByRemainder(r, f, factor, count - 1), factor)
    ensures Sum(r, f, base + factor) == Sum(r, ByRemainder(r, f, factor, count), factor)
  {
    var last := Every(f, base, 1);
    SumAppend(r, f, last, base, factor);
    forall p: nat | p < factor
      ensures ByRemainder(r, f, factor, count)(p) == Add(r, ByRemainder(r, f, factor, count - 1)(p), last(p))
    {
      ByRemainderStep(r, f, factor, count, base, p);
    }
    SumAdd(r, ByRemainder(r, f, factor, count - 1), last, ByRemainder(r, f, factor, count), factor);
  }
}
