/**
 The radix-2 transform of whisper.cpp: real input, interleaved complex output, even and odd samples copied
 one after the other into the upper half of the input buffer, the two half-size transforms left behind the
 output. It computes the same transform as the naive definition, inside 2N input and 8N output elements.
 */
module WhisperFft {
  import Arithmetic
  import opened Rings
  import opened ComplexRings
  import opened Fourier
  import opened Sequences

  const SIN_COS_N_COUNT := 400

  /** Cosines and sines of one turn: cos - i sin runs through the powers of `w`, and half a turn is -1. */
  ghost predicate Table<T(!new)>(r: Ring<T>, cos: seq<T>, sin: seq<T>, w: Complex<T>) {
    && IsRing(r)
    && |cos| == |sin| == SIN_COS_N_COUNT
    && Pow(ComplexRing(r), w, SIN_COS_N_COUNT) == ComplexRing(r).one
    && Pow(ComplexRing(r), w, SIN_COS_N_COUNT / 2) == Neg(ComplexRing(r), ComplexRing(r).one)
    && forall i: nat :: i < SIN_COS_N_COUNT ==> Complex(cos[i], Neg(r, sin[i])) == Pow(ComplexRing(r), w, i)
  }

  predicate Divides(n: nat) {
    n > 0 && SIN_COS_N_COUNT % n == 0
  }

  function Step(n: nat): (s: nat)
    requires Divides(n)
    ensures s * n == SIN_COS_N_COUNT
  {
    SIN_COS_N_COUNT / n
  }

  ghost function RootOf<T(!new)>(r: Ring<T>, w: Complex<T>, n: nat): Complex<T>
    requires Divides(n)
  {
    Pow(ComplexRing(r), w, Step(n))
  }

  /** Real samples as complex numbers. */
  ghost function Signal<T>(r: Ring<T>, s: seq<T>): nat -> Complex<T> {
    (t: nat) => Complex(if t < |s| then s[t] else r.zero, r.zero)
  }

  /** The transform of the samples `s`. */
  ghost function Wanted<T(!new)>(r: Ring<T>, w: Complex<T>, s: seq<T>, k: nat): Complex<T>
    requires Divides(|s|)
  {
    Transform(ComplexRing(r), RootOf(r, w, |s|), Signal(r, s), |s|, k)
  }

  /** `want` lists the outputs of the transform of `s`. */
  ghost predicate IsSpectrum<T(!new)>(r: Ring<T>, w: Complex<T>, s: seq<T>, want: seq<Complex<T>>)
    requires Divides(|s|)
  {
    |want| == |s| && forall k: nat {:trigger Wanted(r, w, s, k)} :: k < |s| ==> want[k] == Wanted(r, w, s, k)
  }

  lemma {:induction false} SpectrumExists<T(!new)>(r: Ring<T>, w: Complex<T>, s: seq<T>) returns (want: seq<Complex<T>>)
    requires Divides(|s|)
    ensures IsSpectrum(r, w, s, want)
  {
    want := seq(|s|, (k: nat) => Wanted(r, w, s, k));
  }

  /** `out` holds the first `count` elements of `want`, interleaved, from `at` on. */
  ghost predicate Holds<T>(want: seq<Complex<T>>, out: seq<T>, at: nat, count: nat) {
    && count <= |want| && at + 2 * count <= |out|
    && forall k {:trigger want[k]} :: 0 <= k < count ==>
         out[at + 2 * k] == want[k].re && out[at + 2 * k + 1] == want[k].im
  }

  lemma {:induction false} HoldsKept<T>(want: seq<Complex<T>>, before: seq<T>, after: seq<T>,
                                        at: nat, count: nat, changed: nat, m: nat)
    requires Holds(want, before, at, count) && SameOutside(before, after, changed, m)
    requires at + 2 * count <= changed || changed + m <= at
    ensures Holds(want, after, at, count)
  {
    forall k | 0 <= k < count
      ensures after[at + 2 * k] == want[k].re && after[at + 2 * k + 1] == want[k].im
    {
      assert before[at + 2 * k] == after[at + 2 * k];
      assert before[at + 2 * k + 1] == after[at + 2 * k + 1];
    }
  }

  /** At most the pairs at `p` and at `q` differ. */
  ghost predicate PairsChanged<T>(before: seq<T>, after: seq<T>, p: nat, q: nat) {
    && |before| == |after|
    && forall i :: 0 <= i < |before| && !(p <= i <= p + 1) && !(q <= i <= q + 1) ==> before[i] == after[i]
  }

  lemma {:induction false} Nested<T>(a: seq<T>, b: seq<T>, c: seq<T>, at: nat, n: nat, p: nat, q: nat)
    requires SameOutside(a, b, at, n) && PairsChanged(b, c, p, q) && at <= p <= q && q + 2 <= at + n
    ensures SameOutside(a, c, at, n)
  {
    forall i | 0 <= i < |a| && !(at <= i < at + n)
      ensures a[i] == c[i]
    {
      assert a[i] == b[i];
    }
  }

  lemma {:induction false} HoldsNext<T>(want: seq<Complex<T>>, before: seq<T>, after: seq<T>, at: nat, k: nat, p: nat,
                                        q: nat, spot: nat)
    requires Holds(want, before, at, k) && spot == at + 2 * k && PairsChanged(before, after, p, q) && k < |want|
             && at + 2 * k + 2 <= |after|
    requires at + 2 * k <= q && (at + 2 * k <= p || p + 2 <= at)
    requires after[spot] == want[k].re && after[spot + 1] == want[k].im
    ensures Holds(want, after, at, k + 1)
  {
    forall j | 0 <= j < k
      ensures after[at + 2 * j] == want[j].re && after[at + 2 * j + 1] == want[j].im
    {
      assert before[at + 2 * j] == after[at + 2 * j];
      assert before[at + 2 * j + 1] == after[at + 2 * j + 1];
    }
  }

  lemma {:induction false} PowStep<T(!new)>(r: Ring<T>, w: T, step: nat, e: nat, total: nat)
    requires IsRing(r) && Pow(r, w, SIN_COS_N_COUNT) == r.one && total == e * step
    ensures Pow(r, w, total % SIN_COS_N_COUNT) == Pow(r, Pow(r, w, step), e)
  {
    PowMul(r, w, step, e);
    assert total == step * e;
    PowMod(r, w, SIN_COS_N_COUNT, total);
  }

  /** The table entry for the power e of the n-point root. */
  lemma {:induction false} TableEntry<T(!new)>(r: Ring<T>, cos: seq<T>, sin: seq<T>, w: Complex<T>, n: nat, e: nat,
                                               idx: nat)
    requires Table(r, cos, sin, w) && Divides(n) && idx == (e * Step(n)) % SIN_COS_N_COUNT
    ensures Complex(cos[idx], Neg(r, sin[idx])) == Pow(ComplexRing(r), RootOf(r, w, n), e)
  {
    ComplexIsRing(r);
    PowStep(ComplexRing(r), w, Step(n), e, e * Step(n));
  }

  /** A real number times cos - i sin. */
  lemma {:induction false} RealTimes<T(!new)>(r: Ring<T>, x: T, c: T, s: T)
    requires IsRing(r)
    ensures Product(r, Complex(x, r.zero), Complex(c, Neg(r, s))) == Complex(Mul(r, x, c), Neg(r, Mul(r, x, s)))
  {
    MulZero(r, Neg(r, s));
    MulZero(r, c);
    MulNeg(r, x, s);
    Units(r, r.zero);
    NegUnique(r, r.zero, r.zero);
    Units(r, Mul(r, x, c));
    Units(r, Neg(r, Mul(r, x, s)));
  }

  // ---------------------------------------------------------------------------------------------
  // The naive transform
  // ---------------------------------------------------------------------------------------------

  /** The first `i` terms of output `k`. */
  ghost function Partial<T(!new)>(r: Ring<T>, w: Complex<T>, s: seq<T>, k: nat, i: nat): Complex<T>
    requires Divides(|s|)
  {
    Sum(ComplexRing(r), Term(ComplexRing(r), RootOf(r, w, |s|), Signal(r, s), k), i)
  }

  function Index(k: nat, i: nat, step: nat): (idx: nat)
    ensures idx < SIN_COS_N_COUNT
  {
    (k * i * step) % SIN_COS_N_COUNT
  }

  lemma {:induction false} DftStep<T(!new)>(r: Ring<T>, cos: seq<T>, sin: seq<T>, w: Complex<T>, s: seq<T>, k: nat,
                                            i: nat, idx: nat, sum: Complex<T>)
    requires Table(r, cos, sin, w) && Divides(|s|) && i < |s| && idx == Index(k, i, Step(|s|))
    requires sum == Partial(r, w, s, k, i)
    ensures Partial(r, w, s, k, i + 1)
         == Complex(Add(r, sum.re, Mul(r, s[i], cos[idx])), Add(r, sum.im, Neg(r, Mul(r, s[i], sin[idx]))))
  {
    TableEntry(r, cos, sin, w, |s|, k * i, idx);
    RealTimes(r, s[i], cos[idx], sin[idx]);
    var x := Signal(r, s);
    assert x(i) == Complex(s[i], r.zero);
    assert Term(ComplexRing(r), RootOf(r, w, |s|), x, k)(i)
           == Mul(ComplexRing(r), x(i), Complex(cos[idx], Neg(r, sin[idx])));
  }

  /** One output of the naive transform. */
  method DftPoint<T(!new)>(r: Ring<T>, cos: seq<T>, sin: seq<T>, ghost w: Complex<T>, input: array<T>, at: nat, n: nat,
                           ghost s: seq<T>, k: nat) returns (re: T, im: T)
    requires Table(r, cos, sin, w) && Divides(n) && at + n <= input.Length && s == input[at..at + n]
    ensures Complex(re, im) == Wanted(r, w, s, k)
  {
    re, im := r.zero, r.zero;
    for i := 0 to n
      invariant Complex(re, im) == Partial(r, w, s, k, i)
    {
      var idx := Index(k, i, Step(n));
      assert input[at + i] == s[i];
      DftStep(r, cos, sin, w, s, k, i, idx, Complex(re, im));
      re := Add(r, re, Mul(r, input[at + i], cos[idx]));
      im := Add(r, im, Neg(r, Mul(r, input[at + i], sin[idx])));
    }
  }

  method Dft<T(!new)>(r: Ring<T>, cos: seq<T>, sin: seq<T>, ghost w: Complex<T>, input: array<T>, at: nat, n: nat,
                      ghost s: seq<T>, ghost want: seq<Complex<T>>, out: array<T>, outAt: nat)
    requires Table(r, cos, sin, w) && Divides(n) && input != out
    requires at + n <= input.Length && outAt + 2 * n <= out.Length && s == input[at..at + n]
    requires IsSpectrum(r, w, s, want)
    modifies out
    ensures Holds(want, out[..], outAt, n)
    ensures SameOutside(old(out[..]), out[..], outAt, 2 * n)
  {
    ghost var first := out[..];
    for k := 0 to n
      invariant s == input[at..at + n]
      invariant Holds(want, out[..], outAt, k)
      invariant SameOutside(first, out[..], outAt, 2 * n)
    {
      var re, im := DftPoint(r, cos, sin, w, input, at, n, s, k);
      assert want[k] == Complex(re, im);
      ghost var before := out[..];
      out[outAt + 2 * k], out[outAt + 2 * k + 1] := re, im;
      assert PairsChanged(before, out[..], outAt + 2 * k, outAt + 2 * k);
      HoldsNext(want, before, out[..], outAt, k, outAt + 2 * k, outAt + 2 * k, outAt + 2 * k);
      Nested(first, before, out[..], outAt, 2 * n, outAt + 2 * k, outAt + 2 * k);
    }
  }

  // ---------------------------------------------------------------------------------------------
  // One level of the recursion
  // ---------------------------------------------------------------------------------------------

  lemma {:induction false} Halves<T(!new)>(r: Ring<T>, w: Complex<T>, n: nat, half: nat)
    requires IsRing(r) && Divides(n) && n == 2 * half
    requires Pow(ComplexRing(r), w, SIN_COS_N_COUNT / 2) == Neg(ComplexRing(r), ComplexRing(r).one)
    ensures Divides(half) && RootOf(r, w, half) == Pow(ComplexRing(r), RootOf(r, w, n), 2)
    ensures Pow(ComplexRing(r), RootOf(r, w, n), half) == Neg(ComplexRing(r), ComplexRing(r).one)
  {
    ComplexIsRing(r);
    assert Step(n) * half == SIN_COS_N_COUNT / 2;
    assert half * (2 * Step(n)) == SIN_COS_N_COUNT;
    Arithmetic.ModUnique(SIN_COS_N_COUNT, half, 2 * Step(n), 0);
    assert Step(half) == Step(n) * 2 by { assert half * Step(half) == half * (2 * Step(n)); }
    PowMul(ComplexRing(r), w, Step(n), half);
    PowMul(ComplexRing(r), w, Step(n), 2);
  }

  /** The arithmetic of one butterfly, on real and imaginary parts as the code writes it. */
  lemma {:induction false} Butterfly<T(!new)>(r: Ring<T>, even: Complex<T>, odd: Complex<T>, root: Complex<T>)
    requires IsRing(r)
    ensures Add(ComplexRing(r), even, Mul(ComplexRing(r), odd, root))
         == Complex(Sub(r, Add(r, even.re, Mul(r, root.re, odd.re)), Mul(r, root.im, odd.im)),
                    Add(r, Add(r, even.im, Mul(r, root.re, odd.im)), Mul(r, root.im, odd.re)))
    ensures Add(ComplexRing(r), even, Mul(ComplexRing(r), odd, Neg(ComplexRing(r), root)))
         == Complex(Add(r, Sub(r, even.re, Mul(r, root.re, odd.re)), Mul(r, root.im, odd.im)),
                    Sub(r, Sub(r, even.im, Mul(r, root.re, odd.im)), Mul(r, root.im, odd.re)))
  {
    MulComm(r, odd.re, root.re);
    MulComm(r, odd.im, root.im);
    MulComm(r, odd.re, root.im);
    MulComm(r, odd.im, root.re);
    var rr, ii, ri, ir := Mul(r, root.re, odd.re), Mul(r, root.im, odd.im), Mul(r, root.re, odd.im),
        Mul(r, root.im, odd.re);
    AddAssoc(r, even.re, rr, Neg(r, ii));
    AddAssoc(r, even.im, ri, ir);
    AddComm(r, ri, ir);
    MulNeg(r, odd.re, root.re);
    MulNeg(r, odd.im, root.im);
    MulNeg(r, odd.re, root.im);
    MulNeg(r, odd.im, root.re);
    NegAdd(r, ii, ii);
    AddAssoc(r, even.re, Neg(r, rr), ii);
    AddAssoc(r, even.im, Neg(r, ri), Neg(r, ir));
    AddComm(r, Neg(r, ri), Neg(r, ir));
  }

  /** `half` is every second sample of `s`, starting with `first`. */
  ghost predicate EverySecond<T>(s: seq<T>, half: seq<T>, first: nat) {
    |s| == 2 * |half| && first <= 1 && forall i :: 0 <= i < |half| ==> half[i] == s[2 * i + first]
  }

  lemma {:induction false} HalfWanted<T(!new)>(r: Ring<T>, w: Complex<T>, s: seq<T>, half: seq<T>, first: nat, k: nat)
    requires Divides(|half|) && EverySecond(s, half, first)
    ensures Wanted(r, w, half, k)
         == Transform(ComplexRing(r), RootOf(r, w, |half|), Every(Signal(r, s), first, 2), |half|, k)
  {
    TransformSame(ComplexRing(r), RootOf(r, w, |half|), Signal(r, half), Every(Signal(r, s), first, 2), |half|, k);
  }

  /** The butterfly as the code computes it. */
  function Lower<T>(r: Ring<T>, even: Complex<T>, odd: Complex<T>, re: T, im: T): Complex<T> {
    Complex(Sub(r, Add(r, even.re, Mul(r, re, odd.re)), Mul(r, im, odd.im)),
            Add(r, Add(r, even.im, Mul(r, re, odd.im)), Mul(r, im, odd.re)))
  }

  function Upper<T>(r: Ring<T>, even: Complex<T>, odd: Complex<T>, re: T, im: T): Complex<T> {
    Complex(Add(r, Sub(r, even.re, Mul(r, re, odd.re)), Mul(r, im, odd.im)),
            Sub(r, Sub(r, even.im, Mul(r, re, odd.im)), Mul(r, im, odd.re)))
  }

  /** Two outputs of the transform come from one output of each half by a butterfly. */
  ghost predicate IsButterfly<T>(r: Ring<T>, cos: seq<T>, sin: seq<T>, want: seq<Complex<T>>,
                                 wantEven: seq<Complex<T>>, wantOdd: seq<Complex<T>>, k: nat)
    requires |cos| == |sin| == SIN_COS_N_COUNT && Divides(|want|) && |want| == 2 * |wantEven| && |wantEven| == |wantOdd|
    requires k < |wantEven|
  {
    var idx := TurnIndex(|want|, |wantEven|, k);
    && want[k] == Lower(r, wantEven[k], wantOdd[k], cos[idx], Neg(r, sin[idx]))
    && want[k + |wantEven|] == Upper(r, wantEven[k], wantOdd[k], cos[idx], Neg(r, sin[idx]))
  }

  ghost predicate Butterflies<T>(r: Ring<T>, cos: seq<T>, sin: seq<T>, want: seq<Complex<T>>,
                                 wantEven: seq<Complex<T>>, wantOdd: seq<Complex<T>>)
    requires |cos| == |sin| == SIN_COS_N_COUNT && Divides(|want|) && |want| == 2 * |wantEven| && |wantEven| == |wantOdd|
  {
    forall k: nat {:trigger IsButterfly(r, cos, sin, want, wantEven, wantOdd, k)} :: k < |wantEven| ==>
      IsButterfly(r, cos, sin, want, wantEven, wantOdd, k)
  }

  lemma {:induction false} ButterflyPoint<T(!new)>(r: Ring<T>, cos: seq<T>, sin: seq<T>, w: Complex<T>, s: seq<T>,
                                                   evens: seq<T>, odds: seq<T>, k: nat)
    requires Table(r, cos, sin, w) && Divides(|s|) && Divides(|evens|) && k < |evens|
    requires EverySecond(s, evens, 0) && EverySecond(s, odds, 1)
    ensures var even, odd := Wanted(r, w, evens, k), Wanted(r, w, odds, k);
            var idx := TurnIndex(|s|, |evens|, k);
            var re, im := cos[idx], Neg(r, sin[idx]);
            && Wanted(r, w, s, k) == Lower(r, even, odd, re, im)
            && Wanted(r, w, s, k + |evens|) == Upper(r, even, odd, re, im)
  {
    var n, half := |s|, |evens|;
    var idx := TurnIndex(n, half, k);
    TableEntry(r, cos, sin, w, n, k, idx);
    ComplexIsRing(r);
    Halves(r, w, n, half);
    HalfWanted(r, w, s, evens, 0, k);
    HalfWanted(r, w, s, odds, 1, k);
    EvenOdd(ComplexRing(r), RootOf(r, w, n), Signal(r, s), half, k);
    Butterfly(r, Wanted(r, w, evens, k), Wanted(r, w, odds, k), Complex(cos[idx], Neg(r, sin[idx])));
  }

  lemma {:induction false} AllButterflies<T(!new)>(r: Ring<T>, cos: seq<T>, sin: seq<T>, w: Complex<T>, s: seq<T>,
                                                   evens: seq<T>, odds: seq<T>, want: seq<Complex<T>>,
                                                   wantEven: seq<Complex<T>>, wantOdd: seq<Complex<T>>)
    requires Table(r, cos, sin, w) && Divides(|s|) && Divides(|evens|)
    requires EverySecond(s, evens, 0) && EverySecond(s, odds, 1)
    requires IsSpectrum(r, w, s, want) && IsSpectrum(r, w, evens, wantEven) && IsSpectrum(r, w, odds, wantOdd)
    ensures Butterflies(r, cos, sin, want, wantEven, wantOdd)
  {
    forall k: nat | k < |evens|
      ensures IsButterfly(r, cos, sin, want, wantEven, wantOdd, k)
    {
      ButterflyPoint(r, cos, sin, w, s, evens, odds, k);
      assert want[k] == Wanted(r, w, s, k) && want[k + |evens|] == Wanted(r, w, s, k + |evens|);
      assert wantEven[k] == Wanted(r, w, evens, k) && wantOdd[k] == Wanted(r, w, odds, k);
    }
  }

  function TurnIndex(n: nat, half: nat, k: nat): (idx: nat)
    requires Divides(n) && n == 2 * half && k < half
    ensures idx == (k * Step(n)) % SIN_COS_N_COUNT < SIN_COS_N_COUNT
  {
    assert k * Step(n) <= n * Step(n) - Step(n);
    k * Step(n)
  }

  /** Copies every second sample, starting with `first`, behind the `n` input samples. */
  method CopyHalf<T>(a: array<T>, at: nat, n: nat, half: nat, first: nat)
    requires n == 2 * half && first <= 1 && at + 2 * n <= a.Length
    modifies a
    ensures SameOutside(old(a[..]), a[..], at + n, n)
    ensures EverySecond(a[at..at + n], a[at + n..at + n + half], first)
  {
    for i := 0 to half
      invariant SameOutside(old(a[..]), a[..], at + n, n)
      invariant forall j :: 0 <= j < i ==> a[at + n + j] == a[at + 2 * j + first]
    {
      a[at + n + i] := a[at + 2 * i + first];
    }
  }

  /** Writes the outputs from the two half-size transforms left behind them. */
  method Combine<T(!new)>(r: Ring<T>, cos: seq<T>, sin: seq<T>, ghost want: seq<Complex<T>>,
                          ghost wantEven: seq<Complex<T>>, ghost wantOdd: seq<Complex<T>>, n: nat, half: nat,
                              out: array<T>, at: nat)
    requires |cos| == |sin| == SIN_COS_N_COUNT && Divides(n) && n == 2 * half && at + 4 * n <= out.Length
    requires |want| == n && |wantEven| == |wantOdd| == half
    requires Butterflies(r, cos, sin, want, wantEven, wantOdd)
    requires Holds(wantEven, out[..], at + 2 * n, half) && Holds(wantOdd, out[..], at + 3 * n, half)
    modifies out
    ensures Holds(want, out[..], at, n)
    ensures SameOutside(old(out[..]), out[..], at, 2 * n)
  {
    ghost var before, upperWant := out[..], want[half..];
    for k := 0 to half
      invariant SameOutside(before, out[..], at, 2 * n)
      invariant Holds(want, out[..], at, k) && Holds(upperWant, out[..], at + 2 * half, k)
    {
      HoldsKept(wantEven, before, out[..], at + 2 * n, half, at, 2 * n);
      HoldsKept(wantOdd, before, out[..], at + 3 * n, half, at, 2 * n);
      ghost var mid := out[..];
      assert IsButterfly(r, cos, sin, want, wantEven, wantOdd, k);
      CombineStep(r, cos, sin, want, upperWant, wantEven, wantOdd, n, half, k, out, at);
      Nested(before, mid, out[..], at, 2 * n, at + 2 * k, at + 2 * (k + half));
    }
    JoinHalves(want, out[..], at, half);
  }

  /** The two outputs of a butterfly. */
  method TurnedPair<T(!new)>(r: Ring<T>, cos: seq<T>, sin: seq<T>, ghost want: seq<Complex<T>>,
                             ghost wantEven: seq<Complex<T>>, ghost wantOdd: seq<Complex<T>>, n: nat, half: nat,
                             k: nat, out: array<T>, at: nat) returns (lower: Complex<T>, upper: Complex<T>)
    requires |cos| == |sin| == SIN_COS_N_COUNT && Divides(n) && n == 2 * half && k < half && at + 4 * n <= out.Length
    requires |want| == n && |wantEven| == |wantOdd| == half
    requires IsButterfly(r, cos, sin, want, wantEven, wantOdd, k)
    requires Holds(wantEven, out[..], at + 2 * n, half) && Holds(wantOdd, out[..], at + 3 * n, half)
    ensures lower == want[k] && upper == want[k + half]
  {
    var idx := TurnIndex(n, half, k);
    var re, im := cos[idx], Neg(r, sin[idx]);
    var e, o := at + 2 * n + 2 * k, at + 3 * n + 2 * k;
    var even, odd := Complex(out[e], out[e + 1]), Complex(out[o], out[o + 1]);
    assert even == wantEven[k] && odd == wantOdd[k];
    lower, upper := Lower(r, even, odd, re, im), Upper(r, even, odd, re, im);
  }

  /** One butterfly. */
  method CombineStep<T(!new)>(r: Ring<T>, cos: seq<T>, sin: seq<T>, ghost want: seq<Complex<T>>,
                              ghost upperWant: seq<Complex<T>>, ghost wantEven: seq<Complex<T>>,
                                  ghost wantOdd: seq<Complex<T>>, n: nat, half: nat, k: nat,
                              out: array<T>, at: nat)
    requires |cos| == |sin| == SIN_COS_N_COUNT && Divides(n) && n == 2 * half && k < half && at + 4 * n <= out.Length
    requires |want| == n && upperWant == want[half..] && |wantEven| == |wantOdd| == half
    requires IsButterfly(r, cos, sin, want, wantEven, wantOdd, k)
    requires Holds(wantEven, out[..], at + 2 * n, half) && Holds(wantOdd, out[..], at + 3 * n, half)
    requires Holds(want, out[..], at, k) && Holds(upperWant, out[..], at + 2 * half, k)
    modifies out
    ensures Holds(want, out[..], at, k + 1) && Holds(upperWant, out[..], at + 2 * half, k + 1)
    ensures PairsChanged(old(out[..]), out[..], at + 2 * k, at + 2 * (k + half))
  {
    ghost var before := out[..];
    var lower, upper := TurnedPair(r, cos, sin, want, wantEven, wantOdd, n, half, k, out, at);
    assert upper == upperWant[k];
    var p, q := at + 2 * k, at + 2 * (k + half);
    out[p], out[p + 1] := lower.re, lower.im;
    out[q], out[q + 1] := upper.re, upper.im;
    ghost var after := out[..];
    assert PairsChanged(before, after, p, q);
    HoldsNext(want, before, after, at, k, p, q, p);
    HoldsNext(upperWant, before, after, at + 2 * half, k, p, q, q);
  }

  lemma {:induction false} JoinHalves<T>(want: seq<Complex<T>>, out: seq<T>, at: nat, half: nat)
    requires |want| == 2 * half && Holds(want, out, at, half) && Holds(want[half..], out, at + 2 * half, half)
    ensures Holds(want, out, at, 2 * half)
  {
    forall k | half <= k < 2 * half
      ensures out[at + 2 * k] == want[k].re && out[at + 2 * k + 1] == want[k].im
    {
      assert want[half..][k - half] == want[k];
    }
  }

  /**
   The whole transform: `out` ends up holding the transform of the real samples at `at`; of the input buffer
   only the `n` elements behind the samples change, of the output buffer only 8 n elements from `outAt` on.
   */
  method Fft<T(!new)>(r: Ring<T>, cos: seq<T>, sin: seq<T>, ghost w: Complex<T>, a: array<T>, at: nat, n: nat,
                      ghost s: seq<T>, ghost want: seq<Complex<T>>, out: array<T>, outAt: nat)
    requires Table(r, cos, sin, w) && Divides(n) && a != out
    requires at + 2 * n <= a.Length && outAt + 8 * n <= out.Length && s == a[at..at + n]
    requires IsSpectrum(r, w, s, want)
    modifies a, out
    ensures Holds(want, out[..], outAt, n)
    ensures SameOutside(old(a[..]), a[..], at + n, n)
    ensures SameOutside(old(out[..]), out[..], outAt, 8 * n)
    decreases n, 0
  {
    if n == 1 {
      out[outAt] := a[at];
      out[outAt + 1] := r.zero;
      OnePoint(r, w, s, want);
      return;
    }
    var half := n / 2;
    if n - half * 2 == 1 {
      Dft(r, cos, sin, w, a, at, n, s, want, out, outAt);
      return;
    }
    Halves(r, w, n, half);
    FromHalves(r, cos, sin, w, a, at, n, half, s, want, out, outAt);
  }

  /** The two half-size transforms and the butterflies. */
  method FromHalves<T(!new)>(r: Ring<T>, cos: seq<T>, sin: seq<T>, ghost w: Complex<T>, a: array<T>, at: nat, n: nat,
                             half: nat, ghost s: seq<T>, ghost want: seq<Complex<T>>, out: array<T>, outAt: nat)
    requires Table(r, cos, sin, w) && Divides(n) && Divides(half) && n == 2 * half && a != out
    requires at + 2 * n <= a.Length && outAt + 8 * n <= out.Length && s == a[at..at + n]
    requires IsSpectrum(r, w, s, want)
    modifies a, out
    ensures Holds(want, out[..], outAt, n)
    ensures SameOutside(old(a[..]), a[..], at + n, n)
    ensures SameOutside(old(out[..]), out[..], outAt, 8 * n)
    decreases half, 2
  {
    ghost var a0, out0 := a[..], out[..];
    ghost var evens, wantEven := HalfTransform(r, cos, sin, w, a, at, n, half, 0, s, out, outAt + 2 * n);
    ghost var a1, out1 := a[..], out[..];
    ghost var odds, wantOdd := HalfTransform(r, cos, sin, w, a, at, n, half, 1, s, out, outAt + 3 * n);
    ghost var out2 := out[..];
    HoldsKept(wantEven, out1, out2, outAt + 2 * n, half, outAt + 3 * n, 8 * half);
    AllButterflies(r, cos, sin, w, s, evens, odds, want, wantEven, wantOdd);
    Combine(r, cos, sin, want, wantEven, wantOdd, n, half, out, outAt);
    Outside(a0, a1, a[..], at + n, n, at + n, n, at + n, n);
    Outside(out0, out1, out2, outAt, 8 * n, outAt + 2 * n, 8 * half, outAt + 3 * n, 8 * half);
    Outside(out0, out2, out[..], outAt, 8 * n, outAt, 8 * n, outAt, 2 * n);
  }

  /** Two changes inside a range are one. */
  lemma {:induction false} Outside<T>(a: seq<T>, b: seq<T>, c: seq<T>, at: nat, n: nat, p: nat, m: nat, q: nat, k: nat)
    requires SameOutside(a, b, p, m) && SameOutside(b, c, q, k) && at <= p && p + m <= at + n && at <= q
             && q + k <= at + n
    ensures SameOutside(a, c, at, n)
  {
    forall i | 0 <= i < |a| && !(at <= i < at + n)
      ensures a[i] == c[i]
    {
      assert a[i] == b[i];
    }
  }

  /** Copies the even (or odd) samples behind the samples and transforms them. */
  method HalfTransform<T(!new)>(r: Ring<T>, cos: seq<T>, sin: seq<T>, ghost w: Complex<T>, a: array<T>, at: nat, n: nat,
                                half: nat, first: nat, ghost s: seq<T>, out: array<T>, to: nat)
    returns (ghost y: seq<T>, ghost want: seq<Complex<T>>)
    requires Table(r, cos, sin, w) && Divides(half) && n == 2 * half && first <= 1 && a != out
    requires at + 2 * n <= a.Length && to + 8 * half <= out.Length && s == a[at..at + n]
    modifies a, out
    ensures EverySecond(s, y, first) && s == a[at..at + n] && IsSpectrum(r, w, y, want)
    ensures Holds(want, out[..], to, half)
    ensures SameOutside(old(a[..]), a[..], at + n, n)
    ensures SameOutside(old(out[..]), out[..], to, 8 * half)
    decreases half, 1
  {
    ghost var a0 := a[..];
    CopyHalf(a, at, n, half, first);
    ghost var a1 := a[..];
    Slices(a0, a1, at, n);
    y := a[at + n..at + n + half];
    want := SpectrumExists(r, w, y);
    Fft(r, cos, sin, w, a, at + n, half, y, want, out, to);
    Inside(a0, a1, a[..], at + n, n, half);
    Slices(a0, a[..], at, n);
  }

  lemma {:induction false} Slices<T>(before: seq<T>, after: seq<T>, at: nat, n: nat)
    requires SameOutside(before, after, at + n, n) && at + n <= |before|
    ensures before[at..at + n] == after[at..at + n]
  {
  }

  lemma {:induction false} Inside<T>(a: seq<T>, b: seq<T>, c: seq<T>, at: nat, n: nat, half: nat)
    requires SameOutside(a, b, at, n) && SameOutside(b, c, at + half, half) && 2 * half == n
    ensures SameOutside(a, c, at, n)
  {
    forall i | 0 <= i < |a| && !(at <= i < at + n)
      ensures a[i] == c[i]
    {
      assert a[i] == b[i];
    }
  }

  lemma {:induction false} OnePoint<T(!new)>(r: Ring<T>, w: Complex<T>, s: seq<T>, want: seq<Complex<T>>)
    requires IsRing(r) && |s| == 1 && Divides(|s|) && IsSpectrum(r, w, s, want)
    ensures |want| == 1 && want[0] == Complex(s[0], r.zero)
  {
    var c, x := ComplexRing(r), Signal(r, s);
    ComplexIsRing(r);
    var term := Term(c, RootOf(r, w, 1), x, 0);
    assert Sum(c, term, 1) == Add(c, Sum(c, term, 0), term(0));
    Units(c, term(0));
    Units(c, x(0));
    assert want[0] == Wanted(r, w, s, 0);
  }

  /** For every ring, table and input: the outputs are X[k] = sum over t of x[t] * w_n^(k t). */
  method TransformSamples<T(!new)>(r: Ring<T>, cos: seq<T>, sin: seq<T>, ghost w: Complex<T>, a: array<T>, n: nat,
                                   out: array<T>)
    requires Table(r, cos, sin, w) && Divides(n) && a != out && 2 * n <= a.Length && 8 * n <= out.Length
    modifies a, out
    ensures forall k: nat :: k < n ==> out[2 * k] == Wanted(r, w, old(a[..n]), k).re
    ensures forall k: nat :: k < n ==> out[2 * k + 1] == Wanted(r, w, old(a[..n]), k).im
    ensures a[..n] == old(a[..n])
  {
    ghost var s, a0 := a[..n], a[..];
    assert s == a[0..0 + n];
    ghost var want := SpectrumExists(r, w, s);
    Fft(r, cos, sin, w, a, 0, n, s, want, out, 0);
    Slices(a0, a[..], 0, n);
    forall k: nat | k < n
      ensures out[2 * k] == Wanted(r, w, s, k).re && out[2 * k + 1] == Wanted(r, w, s, k).im
    {
      assert want[k] == Wanted(r, w, s, k);
    }
  }
}
