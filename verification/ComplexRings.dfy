/** Pairs (re, im) over a commutative ring form a commutative ring, multiplied like complex numbers. */
module ComplexRings {
  import opened Rings

  datatype Complex<T> = Complex(re: T, im: T)

  function Sub<T>(r: Ring<T>, x: T, y: T): T {
    Add(r, x, Neg(r, y))
  }

  ghost function ComplexRing<T(!new)>(r: Ring<T>): Ring<Complex<T>> {
    Ring(
      Complex(r.zero, r.zero),
      Complex(r.one, r.zero),
      (x: Complex<T>, y: Complex<T>) => Complex(Add(r, x.re, y.re), Add(r, x.im, y.im)),
      (x: Complex<T>, y: Complex<T>) => Product(r, x, y),
      (x: Complex<T>) => Complex(Neg(r, x.re), Neg(r, x.im))
    )
  }

  ghost function Product<T>(r: Ring<T>, x: Complex<T>, y: Complex<T>): Complex<T> {
    Complex(Sub(r, Mul(r, x.re, y.re), Mul(r, x.im, y.im)), Add(r, Mul(r, x.re, y.im), Mul(r, x.im, y.re)))
  }

  lemma {:induction false} DistributeSub<T(!new)>(r: Ring<T>, x: T, y: T, z: T)
    requires IsRing(r)
    ensures Mul(r, Sub(r, x, y), z) == Sub(r, Mul(r, x, z), Mul(r, y, z))
    ensures Mul(r, z, Sub(r, x, y)) == Sub(r, Mul(r, z, x), Mul(r, z, y))
  {
    Distribute(r, x, Neg(r, y), z);
    MulNeg(r, y, z);
    MulNeg(r, z, y);
  }

  /** (p - q) - (s + t) = (p - s) - (t + q). */
  lemma {:induction false} SubShuffle<T(!new)>(r: Ring<T>, p: T, q: T, s: T, t: T)
    requires IsRing(r)
    ensures Sub(r, Sub(r, p, q), Add(r, s, t)) == Sub(r, Sub(r, p, s), Add(r, t, q))
  {
    NegAdd(r, s, t);
    NegAdd(r, t, q);
    AddAssoc(r, Sub(r, p, q), Neg(r, s), Neg(r, t));
    AddAssoc(r, p, Neg(r, q), Neg(r, s));
    AddComm(r, Neg(r, q), Neg(r, s));
    AddAssoc(r, p, Neg(r, s), Neg(r, q));
    AddAssoc(r, Sub(r, p, s), Neg(r, q), Neg(r, t));
    AddComm(r, Neg(r, q), Neg(r, t));
  }

  /** (p - q) + (s + t) = (p + s) + (t - q). */
  lemma {:induction false} AddShuffle<T(!new)>(r: Ring<T>, p: T, q: T, s: T, t: T)
    requires IsRing(r)
    ensures Add(r, Sub(r, p, q), Add(r, s, t)) == Add(r, Add(r, p, s), Sub(r, t, q))
  {
    Interchange(r, p, Neg(r, q), s, t);
    AddComm(r, Neg(r, q), t);
  }

  /** (p + q) - (s + t) = (p - s) + (q - t). */
  lemma {:induction false} SubOfSums<T(!new)>(r: Ring<T>, p: T, q: T, s: T, t: T)
    requires IsRing(r)
    ensures Sub(r, Add(r, p, q), Add(r, s, t)) == Add(r, Sub(r, p, s), Sub(r, q, t))
  {
    NegAdd(r, s, t);
    Interchange(r, p, q, Neg(r, s), Neg(r, t));
  }

  lemma {:induction false} ProductAssoc<T(!new)>(r: Ring<T>, x: Complex<T>, y: Complex<T>, z: Complex<T>)
    requires IsRing(r)
    ensures Product(r, Product(r, x, y), z) == Product(r, x, Product(r, y, z))
  {
    var Complex(a, b) := x;
    var Complex(c, d) := y;
    var Complex(e, f) := z;
    DistributeSub(r, Mul(r, a, c), Mul(r, b, d), e);
    DistributeSub(r, Mul(r, a, c), Mul(r, b, d), f);
    Distribute(r, Mul(r, a, d), Mul(r, b, c), f);
    Distribute(r, Mul(r, a, d), Mul(r, b, c), e);
    DistributeSub(r, Mul(r, c, e), Mul(r, d, f), a);
    DistributeSub(r, Mul(r, c, e), Mul(r, d, f), b);
    Distribute(r, Mul(r, c, f), Mul(r, d, e), a);
    Distribute(r, Mul(r, c, f), Mul(r, d, e), b);
    MulAssoc(r, a, c, e);
    MulAssoc(r, a, c, f);
    MulAssoc(r, a, d, e);
    MulAssoc(r, a, d, f);
    MulAssoc(r, b, c, e);
    MulAssoc(r, b, c, f);
    MulAssoc(r, b, d, e);
    MulAssoc(r, b, d, f);
    SubShuffle(r, Mul(r, a, Mul(r, c, e)), Mul(r, b, Mul(r, d, e)), Mul(r, a, Mul(r, d, f)), Mul(r, b, Mul(r, c, f)));
    AddShuffle(r, Mul(r, a, Mul(r, c, f)), Mul(r, b, Mul(r, d, f)), Mul(r, a, Mul(r, d, e)), Mul(r, b, Mul(r, c, e)));
  }

  lemma {:induction false} ProductDistributes<T(!new)>(r: Ring<T>, x: Complex<T>, y: Complex<T>, z: Complex<T>)
    requires IsRing(r)
    ensures Product(r, Complex(Add(r, x.re, y.re), Add(r, x.im, y.im)), z)
         == Complex(Add(r, Product(r, x, z).re, Product(r, y, z).re), Add(r, Product(r, x, z).im, Product(r, y, z).im))
  {
    Distribute(r, x.re, y.re, z.re);
    Distribute(r, x.im, y.im, z.im);
    Distribute(r, x.re, y.re, z.im);
    Distribute(r, x.im, y.im, z.re);
    SubOfSums(r, Mul(r, x.re, z.re), Mul(r, y.re, z.re), Mul(r, x.im, z.im), Mul(r, y.im, z.im));
    Interchange(r, Mul(r, x.re, z.im), Mul(r, y.re, z.im), Mul(r, x.im, z.re), Mul(r, y.im, z.re));
  }

  lemma {:induction false} ProductComm<T(!new)>(r: Ring<T>, x: Complex<T>, y: Complex<T>)
    requires IsRing(r)
    ensures Product(r, x, y) == Product(r, y, x)
  {
    MulComm(r, x.re, y.re);
    MulComm(r, x.im, y.im);
    MulComm(r, x.re, y.im);
    MulComm(r, x.im, y.re);
    AddComm(r, Mul(r, x.re, y.im), Mul(r, x.im, y.re));
  }

  lemma {:induction false} ProductOne<T(!new)>(r: Ring<T>, x: Complex<T>)
    requires IsRing(r)
    ensures Product(r, x, Complex(r.one, r.zero)) == x
  {
    Units(r, x.re);
    Units(r, x.im);
    MulZero(r, x.re);
    MulZero(r, x.im);
    Units(r, r.zero);
    NegUnique(r, r.zero, r.zero);
  }

  /** Complex multiplication and addition satisfy the ring laws. */
  lemma {:induction false} ComplexIsRing<T(!new)>(r: Ring<T>)
    requires IsRing(r)
    ensures IsRing(ComplexRing(r))
  {
    var c := ComplexRing(r);
    forall x, y, z
      ensures Laws(c, x, y, z)
    {
      ComplexLaws(r, x, y, z);
    }
  }

  lemma {:induction false} ComplexLaws<T(!new)>(r: Ring<T>, x: Complex<T>, y: Complex<T>, z: Complex<T>)
    requires IsRing(r)
    ensures Laws(ComplexRing(r), x, y, z)
  {
    AddAssoc(r, x.re, y.re, z.re);
    AddAssoc(r, x.im, y.im, z.im);
    AddComm(r, x.re, y.re);
    AddComm(r, x.im, y.im);
    ProductAssoc(r, x, y, z);
    ProductDistributes(r, x, y, z);
    ProductComm(r, x, y);
    ProductOne(r, x);
    Units(r, x.re);
    Units(r, x.im);
  }
}
