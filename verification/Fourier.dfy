/**
 The discrete Fourier transform over a commutative ring, and its decimation in time: a transform of
 factor * m points from `factor` transforms of m points each.
 */
module Fourier {
  import opened Arithmetic
  import opened Rings

  /** x(t) * w^(k t). */
  ghost function Term<T>(r: Ring<T>, w: T, x: nat -> T, k: nat): nat -> T {
    (t: nat) => Mul(r, x(t), Pow(r, w, k * t))
  }

  /** X[k] = sum over t < n of x(t) * w^(k t). */
  ghost function Transform<T>(r: Ring<T>, w: T, x: nat -> T, n: nat, k: nat): T {
    Sum(r, Term(r, w, x, k), n)
  }

  /** The part `p` of a transform of factor * m points: its own transform, turned by w^(p k). */
  ghost function Part<T>(r: Ring<T>, w: T, x: nat -> T, factor: nat, m: nat, k: nat): nat -> T
    requires m > 0
  {
    (p: nat) => Mul(r, Transform(r, Pow(r, w, factor), Every(x, p, factor), m, k % m), Pow(r, w, p * k))
  }

  lemma {:induction false} Twiddle<T(!new)>(r: Ring<T>, w: T, factor: nat, m: nat, k: nat, p: nat, s: nat)
    requires IsRing(r) && m > 0 && Pow(r, w, factor * m) == r.one
    ensures Pow(r, w, k * (p + factor * s)) == Mul(r, Pow(r, Pow(r, w, factor), (k % m) * s), Pow(r, w, p * k))
  {
    var v := Pow(r, w, factor);
    assert k * (p + factor * s) == factor * (k * s) + p * k;
    PowAdd(r, w, factor * (k * s), p * k);
    PowMul(r, w, factor, k * s);
    PowMul(r, w, factor, m);
    PowMod(r, v, m, k * s);
    PowMod(r, v, m, (k % m) * s);
    ModTimes(k, s, m);
  }

  lemma {:induction false} PartIsSum<T(!new)>(r: Ring<T>, w: T, x: nat -> T, factor: nat, m: nat, k: nat, p: nat)
    requires IsRing(r) && m > 0 && Pow(r, w, factor * m) == r.one
    ensures Part(r, w, x, factor, m, k)(p) == Sum(r, Every(Term(r, w, x, k), p, factor), m)
  {
    var v := Pow(r, w, factor);
    var inner := Term(r, v, Every(x, p, factor), k % m);
    var outer := Every(Term(r, w, x, k), p, factor);
    forall s: nat | s < m
      ensures outer(s) == Mul(r, inner(s), Pow(r, w, p * k))
    {
      Twiddle(r, w, factor, m, k, p, s);
      MulAssoc(r, x(p + factor * s), Pow(r, v, (k % m) * s), Pow(r, w, p * k));
    }
    SumScale(r, inner, outer, Pow(r, w, p * k), m);
    assert Transform(r, v, Every(x, p, factor), m, k % m) == Sum(r, inner, m);
  }

  /** Decimation in time, for any factor and any root of unity of order dividing factor * m. */
  lemma {:induction false} DecimationInTime<T(!new)>(r: Ring<T>, w: T, x: nat -> T, factor: nat, m: nat, k: nat)
    requires IsRing(r) && m > 0 && Pow(r, w, factor * m) == r.one
    ensures Transform(r, w, x, factor * m, k) == Sum(r, Part(r, w, x, factor, m, k), factor)
  {
    var sums := ByRemainder(r, Term(r, w, x, k), factor, m);
    forall p: nat | p < factor
      ensures Part(r, w, x, factor, m, k)(p) == sums(p)
    {
      PartIsSum(r, w, x, factor, m, k, p);
    }
    SumSame(r, Part(r, w, x, factor, m, k), sums, factor);
    SumByRemainder(r, Term(r, w, x, k), factor, m);
  }

  lemma {:induction false} TransformSame<T>(r: Ring<T>, w: T, x: nat -> T, y: nat -> T, n: nat, k: nat)
    requires forall t: nat :: t < n ==> x(t) == y(t)
    ensures Transform(r, w, x, n, k) == Transform(r, w, y, n, k)
  {
    SumSame(r, Term(r, w, x, k), Term(r, w, y, k), n);
  }

  lemma {:induction false} TwoParts<T(!new)>(r: Ring<T>, w: T, x: nat -> T, half: nat, k: nat, j: nat)
    requires IsRing(r) && half > 0 && Pow(r, w, 2 * half) == r.one && j == k % half
    ensures Transform(r, w, x, 2 * half, k)
         == Add(r, Transform(r, Pow(r, w, 2), Every(x, 0, 2), half, j),
                   Mul(r, Transform(r, Pow(r, w, 2), Every(x, 1, 2), half, j), Pow(r, w, k)))
  {
    DecimationInTime(r, w, x, 2, half, k);
    var part := Part(r, w, x, 2, half, k);
    assert Sum(r, part, 2) == Add(r, Sum(r, part, 1), part(1));
    assert Sum(r, part, 1) == Add(r, Sum(r, part, 0), part(0));
    Units(r, part(0));
    Units(r, Transform(r, Pow(r, w, 2), Every(x, 0, 2), half, j));
  }

  lemma {:induction false} FullTurn<T(!new)>(r: Ring<T>, w: T, half: nat)
    requires IsRing(r) && Pow(r, w, half) == Neg(r, r.one)
    ensures Pow(r, w, 2 * half) == r.one
  {
    PowAdd(r, w, half, half);
    MulNeg(r, r.one, Neg(r, r.one));
    MulNeg(r, r.one, r.one);
    Units(r, r.one);
    NegAdd(r, r.one, r.one);
  }

  lemma {:induction false} HalfAway<T(!new)>(r: Ring<T>, w: T, half: nat, k: nat)
    requires IsRing(r) && Pow(r, w, half) == Neg(r, r.one)
    ensures Pow(r, w, k + half) == Neg(r, Pow(r, w, k))
  {
    PowAdd(r, w, k, half);
    MulNeg(r, Pow(r, w, k), r.one);
    Units(r, Pow(r, w, k));
  }

  /** Radix 2: both halves of the outputs from the transforms of the even and the odd samples. */
  lemma {:induction false} EvenOdd<T(!new)>(r: Ring<T>, w: T, x: nat -> T, half: nat, k: nat)
    requires IsRing(r) && k < half && Pow(r, w, half) == Neg(r, r.one)
    ensures var even := Transform(r, Pow(r, w, 2), Every(x, 0, 2), half, k);
            var odd := Transform(r, Pow(r, w, 2), Every(x, 1, 2), half, k);
            && Transform(r, w, x, 2 * half, k) == Add(r, even, Mul(r, odd, Pow(r, w, k)))
            && Transform(r, w, x, 2 * half, k + half) == Add(r, even, Mul(r, odd, Neg(r, Pow(r, w, k))))
  {
    FullTurn(r, w, half);
    ModUnique(k, half, 0, k);
    ModUnique(k + half, half, 1, k);
    TwoParts(r, w, x, half, k, k);
    TwoParts(r, w, x, half, k + half, k);
    HalfAway(r, w, half, k);
  }
}
