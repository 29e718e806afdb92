/**
 The mixed-radix transform of the feature extractor. `output` and `scratch` swap roles at each level of
 the recursion; each call touches only its own slices of the two buffers.
 */
module FeatureFft {
  import Arithmetic
  import opened Rings
  import opened Fourier
  import opened Sequences

  const FFT_SIZE := 400

  function FftFactor(n: nat): nat {
    if n == 400 || n == 200 || n == 100 || n == 50 then 2 else if n == 25 then 5 else n
  }

  function FftPartSize(n: nat): nat {
    if n == 400 then 200
    else if n == 200 then 100
    else if n == 100 then 50
    else if n == 50 then 25
    else if n == 25 then 5
    else 0
  }

  function FftRootStride(n: nat): nat {
    if n == 400 then 1
    else if n == 200 then 2
    else if n == 100 then 4
    else if n == 50 then 8
    else if n == 25 then 16
    else if n == 5 then 80
    else 0
  }

  /** The sizes that a transform of 400 points reaches. */
  predicate Reached(n: nat) {
    n == 400 || n == 200 || n == 100 || n == 50 || n == 25 || n == 5
  }

  /** The table holds the powers of a root of unity of order dividing 400. */
  ghost predicate RootTable<T(!new)>(r: Ring<T>, roots: seq<T>, w: T) {
    && IsRing(r)
    && |roots| == FFT_SIZE
    && Pow(r, w, FFT_SIZE) == r.one
    && forall i: nat :: i < FFT_SIZE ==> roots[i] == Pow(r, w, i)
  }

  /** The root of unity of a transform of `n` points. */
  ghost function RootOf<T>(r: Ring<T>, w: T, n: nat): T {
    Pow(r, w, FftRootStride(n))
  }

  function FftRoot<T(!new)>(r: Ring<T>, roots: seq<T>, ghost w: T, n: nat, exponent: nat): (v: T)
    requires RootTable(r, roots, w) && Reached(n)
    ensures v == Pow(r, RootOf(r, w, n), exponent)
  {
    FftRootMeaning(r, w, n, exponent);
    roots[((exponent % n) * FftRootStride(n)) % FFT_SIZE]
  }

  lemma {:induction false} FftRootMeaning<T(!new)>(r: Ring<T>, w: T, n: nat, exponent: nat)
    requires IsRing(r) && Pow(r, w, FFT_SIZE) == r.one && Reached(n)
    ensures Pow(r, w, ((exponent % n) * FftRootStride(n)) % FFT_SIZE) == Pow(r, RootOf(r, w, n), exponent)
  {
    var stride, e := FftRootStride(n), exponent % n;
    assert stride * n == FFT_SIZE;
    PowMod(r, w, FFT_SIZE, e * stride);
    PowMul(r, w, stride, e);
    assert e * stride == stride * e;
    PowMul(r, w, stride, n);
    PowMod(r, RootOf(r, w, n), n, exponent);
  }

  /** The samples at `from`, `from + stride`, ... */
  ghost function Samples<T>(r: Ring<T>, input: seq<T>, from: nat, stride: nat): nat -> T {
    (t: nat) => if from + stride * t < |input| then input[from + stride * t] else r.zero
  }

  ghost function Wanted<T>(r: Ring<T>, w: T, input: seq<T>, from: nat, stride: nat, n: nat, k: nat): T {
    Transform(r, RootOf(r, w, n), Samples(r, input, from, stride), n, k)
  }

  lemma {:induction false} SameOutsideWiden<T>(a: seq<T>, b: seq<T>, c: seq<T>, at: nat, n: nat, sub: nat, m: nat)
    requires SameOutside(a, b, at, n) && SameOutside(b, c, sub, m) && at <= sub && sub + m <= at + n
    ensures SameOutside(a, c, at, n)
  {
  }

  /** The slice of `n` elements at `at` holds the transform of the samples at `from`, `from + stride`, ... */
  ghost predicate Holds<T>(r: Ring<T>, w: T, input: seq<T>, from: nat, stride: nat, n: nat, a: seq<T>, at: nat) {
    at + n <= |a| && forall i :: at <= i < at + n ==> a[i] == Wanted(r, w, input, from, stride, n, i - at)
  }

  lemma {:induction false} HoldsKept<T>(r: Ring<T>, w: T, input: seq<T>, from: nat, stride: nat, n: nat,
                                        before: seq<T>, after: seq<T>, at: nat, changed: nat, count: nat)
    requires Holds(r, w, input, from, stride, n, before, at)
    requires SameOutside(before, after, changed, count) && at + n <= changed
    ensures Holds(r, w, input, from, stride, n, after, at)
  {
  }

  /** One sample, turned by its root. */
  method DirectTerm<T(!new)>(r: Ring<T>, roots: seq<T>, ghost w: T, input: array<T>, ghost xs: seq<T>, inAt: nat,
                             inputStride: nat, n: nat, k: nat, t: nat) returns (turned: T)
    requires RootTable(r, roots, w) && Reached(n) && input[..] == xs && inAt + inputStride * t < input.Length
    ensures turned == Term(r, RootOf(r, w, n), Samples(r, xs, inAt, inputStride), k)(t)
  {
    var from, exponent: nat := inAt + inputStride * t, k * t;
    assert input[from] == xs[from];
    turned := Mul(r, input[from], FftRoot(r, roots, w, n, exponent));
  }

  /** One output of the direct transform of the smallest size. */
  method DirectPoint<T(!new)>(r: Ring<T>, roots: seq<T>, ghost w: T, input: array<T>, ghost xs: seq<T>, inAt: nat,
                              inputStride: nat, output: array<T>, outAt: nat, n: nat, k: nat)
    requires RootTable(r, roots, w) && Reached(n) && input[..] == xs && input != output && k < n
    requires outAt + n <= output.Length && inAt + inputStride * (n - 1) < input.Length
    modifies output
    ensures output[outAt + k] == Wanted(r, w, xs, inAt, inputStride, n, k)
    ensures SameOutside(old(output[..]), output[..], outAt + k, 1)
  {
    output[outAt + k] := r.zero;
    ghost var term := Term(r, RootOf(r, w, n), Samples(r, xs, inAt, inputStride), k);
    for t := 0 to n
      invariant input[..] == xs
      invariant output[outAt + k] == Sum(r, term, t)
      invariant SameOutside(old(output[..]), output[..], outAt + k, 1)
    {
      StrideInside(inAt, inputStride, t, n, input.Length);
      var turned := DirectTerm(r, roots, w, input, xs, inAt, inputStride, n, k, t);
      output[outAt + k] := Add(r, output[outAt + k], turned);
    }
  }

  method Direct<T(!new)>(r: Ring<T>, roots: seq<T>, ghost w: T, input: array<T>, ghost xs: seq<T>, inAt: nat,
                         inputStride: nat, output: array<T>, outAt: nat, n: nat)
    requires RootTable(r, roots, w) && Reached(n) && input[..] == xs && input != output
    requires outAt + n <= output.Length && inAt + inputStride * (n - 1) < input.Length
    modifies output
    ensures Holds(r, w, xs, inAt, inputStride, n, output[..], outAt)
    ensures SameOutside(old(output[..]), output[..], outAt, n)
  {
    for k := 0 to n
      invariant input[..] == xs
      invariant forall i :: outAt <= i < outAt + k ==> output[i] == Wanted(r, w, xs, inAt, inputStride, n, i - outAt)
      invariant SameOutside(old(output[..]), output[..], outAt, n)
    {
      DirectPoint(r, roots, w, input, xs, inAt, inputStride, output, outAt, n, k);
    }
  }

  lemma {:induction false} StrideInside(from: nat, stride: nat, t: nat, n: nat, length: nat)
    requires t < n && from + stride * (n - 1) < length
    ensures from + stride * t < length
  {
  }

  // ---------------------------------------------------------------------------------------------
  // One level of the recursion
  // ---------------------------------------------------------------------------------------------

  lemma {:induction false} PartSpace(n: nat, factor: nat, m: nat, p: nat, stride: nat)
    requires n == factor * m && p < factor && m > 0
    ensures p * m + m <= n
    ensures p * stride + (stride * factor) * (m - 1) <= stride * (n - 1)
  {
    SlotsOrdered(p, factor, m);
    var before := factor * (m - 1);
    assert before == n - factor;
    TimesAssociative(stride, factor, m - 1);
    Arithmetic.ProductMonotone(p + before, n - 1, stride);
    Distributes(p, before, stride);
  }

  lemma {:induction false} TimesAssociative(x: nat, y: nat, z: nat)
    ensures (x * y) * z == x * (y * z)
  {
  }

  lemma {:induction false} Distributes(x: nat, y: nat, z: nat)
    ensures (x + y) * z == x * z + z * y
  {
  }

  /** Where the part `p` keeps its value for output `k`. */
  function PartSlot(n: nat, factor: nat, m: nat, p: nat, k: nat): (slot: nat)
    requires n == factor * m && p < factor && m > 0
    ensures slot == p * m + k % m < n
  {
    PartSpace(n, factor, m, p, 0);
    p * m + k % m
  }

  lemma {:induction false} PartIsWanted<T(!new)>(r: Ring<T>, w: T, input: seq<T>, inAt: nat, stride: nat, n: nat,
                                                 factor: nat, m: nat, p: nat, k: nat)
    requires IsRing(r) && Reached(n) && n != 5 && factor == FftFactor(n) && m == FftPartSize(n)
    ensures Part(r, RootOf(r, w, n), Samples(r, input, inAt, stride), factor, m, k)(p)
         == Mul(r, Wanted(r, w, input, inAt + p * stride, stride * factor, m, k % m), Pow(r, RootOf(r, w, n), p * k))
  {
    var x := Samples(r, input, inAt, stride);
    var y := Samples(r, input, inAt + p * stride, stride * factor);
    assert FftRootStride(n) * factor == FftRootStride(m);
    PowMul(r, w, FftRootStride(n), factor);
    forall t: nat
      ensures Every(x, p, factor)(t) == y(t)
    {
      assert inAt + stride * (p + factor * t) == inAt + p * stride + (stride * factor) * t;
    }
    TransformSame(r, RootOf(r, w, m), Every(x, p, factor), y, m, k % m);
  }

  lemma {:induction false} SizesMultiply(n: nat)
    requires Reached(n) && n != 5
    ensures n == FftFactor(n) * FftPartSize(n) && Reached(FftPartSize(n)) && FftPartSize(n) < n
    ensures FftRootStride(n) * n == FFT_SIZE
  {
  }

  /** The first `count` parts of output `k`, added up. */
  ghost function Combination<T>(r: Ring<T>, w: T, input: seq<T>, inAt: nat, stride: nat, n: nat, k: nat, count: nat): T
    requires FftPartSize(n) > 0
  {
    Sum(r, Part(r, RootOf(r, w, n), Samples(r, input, inAt, stride), FftFactor(n), FftPartSize(n), k), count)
  }

  /** The combination of the parts is the transform of all samples. */
  lemma {:induction false} Combined<T(!new)>(r: Ring<T>, w: T, input: seq<T>, inAt: nat, stride: nat, n: nat, k: nat)
    requires IsRing(r) && Pow(r, w, FFT_SIZE) == r.one && Reached(n) && n != 5
    ensures Wanted(r, w, input, inAt, stride, n, k)
         == Combination(r, w, input, inAt, stride, n, k, FftFactor(n))
  {
    SizesMultiply(n);
    PowMul(r, w, FftRootStride(n), n);
    DecimationInTime(r, RootOf(r, w, n), Samples(r, input, inAt, stride), FftFactor(n), FftPartSize(n), k);
  }

  /** The slices of `m` elements of `parts` hold the transforms of the parts. */
  ghost predicate PartsHold<T>(r: Ring<T>, w: T, input: seq<T>, inAt: nat, stride: nat, factor: nat, m: nat,
                               parts: seq<T>, at: nat, count: nat) {
    forall p: nat {:trigger PartHolds(r, w, input, inAt, stride, factor, m, parts, at, p)} :: p < count ==>
      PartHolds(r, w, input, inAt, stride, factor, m, parts, at, p)
  }

  ghost predicate PartHolds<T>(r: Ring<T>, w: T, input: seq<T>, inAt: nat, stride: nat, factor: nat, m: nat,
                               parts: seq<T>, at: nat, p: nat) {
    Holds(r, w, input, inAt + p * stride, stride * factor, m, parts, at + p * m)
  }

  /** Adds one part, turned by its root, to the running sum. */
  method AddPart<T(!new)>(r: Ring<T>, roots: seq<T>, ghost w: T, ghost input: seq<T>, ghost inAt: nat,
                          ghost stride: nat, parts: array<T>, at: nat, n: nat, k: nat, p: nat, sum: T) returns (sum': T)
    requires RootTable(r, roots, w) && Reached(n) && n != 5 && p < FftFactor(n) && at + n <= parts.Length
    requires PartHolds(r, w, input, inAt, stride, FftFactor(n), FftPartSize(n), parts[..], at, p)
    requires sum == Combination(r, w, input, inAt, stride, n, k, p)
    ensures sum' == Combination(r, w, input, inAt, stride, n, k, p + 1)
  {
    SizesMultiply(n);
    var factor, m := FftFactor(n), FftPartSize(n);
    var slot, exponent: nat := PartSlot(n, factor, m, p, k), p * k;
    PartIsWanted(r, w, input, inAt, stride, n, factor, m, p, k);
    assert parts[at + slot] == parts[..][at + slot];
    sum' := Add(r, sum, Mul(r, parts[at + slot], FftRoot(r, roots, w, n, exponent)));
  }

  /** One output combined from the transforms of the parts. */
  method CombinePoint<T(!new)>(r: Ring<T>, roots: seq<T>, ghost w: T, ghost input: seq<T>, ghost inAt: nat,
                               ghost stride: nat, output: array<T>, outAt: nat, parts: array<T>, at: nat, n: nat,
                               k: nat)
    requires RootTable(r, roots, w) && Reached(n) && n != 5 && output != parts && k < n
    requires outAt + n <= output.Length && at + n <= parts.Length
    requires PartsHold(r, w, input, inAt, stride, FftFactor(n), FftPartSize(n), parts[..], at, FftFactor(n))
    modifies output
    ensures output[outAt + k] == Wanted(r, w, input, inAt, stride, n, k)
    ensures SameOutside(old(output[..]), output[..], outAt + k, 1)
  {
    ghost var held := parts[..];
    output[outAt + k] := r.zero;
    for p := 0 to FftFactor(n)
      invariant parts[..] == held
      invariant output[outAt + k] == Combination(r, w, input, inAt, stride, n, k, p)
      invariant SameOutside(old(output[..]), output[..], outAt + k, 1)
    {
      assert PartHolds(r, w, input, inAt, stride, FftFactor(n), FftPartSize(n), held, at, p);
      var sum := AddPart(r, roots, w, input, inAt, stride, parts, at, n, k, p, output[outAt + k]);
      output[outAt + k] := sum;
    }
    Combined(r, w, input, inAt, stride, n, k);
  }

  method Combine<T(!new)>(r: Ring<T>, roots: seq<T>, ghost w: T, ghost input: seq<T>, ghost inAt: nat,
                          ghost stride: nat, output: array<T>, outAt: nat, parts: array<T>, at: nat, n: nat)
    requires RootTable(r, roots, w) && Reached(n) && n != 5 && output != parts
    requires outAt + n <= output.Length && at + n <= parts.Length
    requires PartsHold(r, w, input, inAt, stride, FftFactor(n), FftPartSize(n), parts[..], at, FftFactor(n))
    modifies output
    ensures Holds(r, w, input, inAt, stride, n, output[..], outAt)
    ensures SameOutside(old(output[..]), output[..], outAt, n)
  {
    ghost var snapshot := parts[..];
    for k := 0 to n
      invariant parts[..] == snapshot
      invariant forall i :: outAt <= i < outAt + k ==> output[i] == Wanted(r, w, input, inAt, stride, n, i - outAt)
      invariant SameOutside(old(output[..]), output[..], outAt, n)
    {
      CombinePoint(r, roots, w, input, inAt, stride, output, outAt, parts, at, n, k);
    }
  }

  /**
   The whole transform: `output` ends up holding exactly the transform of the samples, and nothing outside
   the slices of `n` elements of the two buffers changes.
   */
  method Fft<T(!new)>(r: Ring<T>, roots: seq<T>, ghost w: T, input: array<T>, ghost xs: seq<T>, inAt: nat, stride: nat,
                      output: array<T>, outAt: nat, scratch: array<T>, scratchAt: nat, n: nat)
    requires RootTable(r, roots, w) && (Reached(n) || n <= 1)
    requires input[..] == xs && input != output && input != scratch && output != scratch
    requires outAt + n <= output.Length && scratchAt + n <= scratch.Length
    requires n > 0 ==> inAt + stride * (n - 1) < input.Length
    modifies output, scratch
    ensures n == 1 ==> output[outAt] == input[inAt]
    ensures n > 1 ==> Holds(r, w, xs, inAt, stride, n, output[..], outAt)
    ensures SameOutside(old(output[..]), output[..], outAt, n)
    ensures SameOutside(old(scratch[..]), scratch[..], scratchAt, n)
    decreases n
  {
    if n <= 1 {
      if n == 1 {
        output[outAt] := input[inAt];
      }
      return;
    }
    var factor := FftFactor(n);
    if factor == n {
      Direct(r, roots, w, input, xs, inAt, stride, output, outAt, n);
      return;
    }
    var m := FftPartSize(n);
    SizesMultiply(n);
    ghost var output0, scratch0 := output[..], scratch[..];
    for part := 0 to factor
      invariant input[..] == xs
      invariant PartsHold(r, w, xs, inAt, stride, factor, m, scratch[..], scratchAt, part)
      invariant SameOutside(output0, output[..], outAt, n)
      invariant SameOutside(scratch0, scratch[..], scratchAt, n)
    {
      PartSpace(n, factor, m, part, stride);
      var slot, from := scratchAt + part * m, inAt + part * stride;
      ghost var output1, scratch1 := output[..], scratch[..];
      Fft(r, roots, w, input, xs, from, stride * factor, scratch, slot, output, outAt + part * m, m);
      SameOutsideWiden(output0, output1, output[..], outAt, n, outAt + part * m, m);
      SameOutsideWiden(scratch0, scratch1, scratch[..], scratchAt, n, slot, m);
      PartsKept(r, w, xs, inAt, stride, factor, m, scratch1, scratch[..], scratchAt, part, from, slot);
    }
    Combine(r, roots, w, xs, inAt, stride, output, outAt, scratch, scratchAt, n);
  }

  lemma {:induction false} SlotsOrdered(p: nat, part: nat, m: nat)
    requires p < part
    ensures p * m + m <= part * m
  {
    Arithmetic.ProductMonotone(p + 1, part, m);
    Distributes(p, 1, m);
  }

  lemma {:induction false} PartsKept<T>(r: Ring<T>, w: T, input: seq<T>, inAt: nat, stride: nat, factor: nat, m: nat,
                                        before: seq<T>, after: seq<T>, at: nat, part: nat, from: nat, slot: nat)
    requires from == inAt + part * stride && slot == at + part * m
    requires PartsHold(r, w, input, inAt, stride, factor, m, before, at, part)
    requires SameOutside(before, after, slot, m)
    requires Holds(r, w, input, from, stride * factor, m, after, slot)
    ensures PartsHold(r, w, input, inAt, stride, factor, m, after, at, part + 1)
  {
    forall p: nat | p < part + 1
      ensures PartHolds(r, w, input, inAt, stride, factor, m, after, at, p)
    {
      if p < part {
        assert PartHolds(r, w, input, inAt, stride, factor, m, before, at, p);
        SlotsOrdered(p, part, m);
        HoldsKept(r, w, input, inAt + p * stride, stride * factor, m, before, after, at + p * m, at + part * m, m);
      }
    }
  }
}
