/**
 The integers modulo 401 have a root of unity of order 400, so the hypotheses of both transforms are met by a
 concrete ring and concrete tables.
 */
module ResidueFft {
  import Arithmetic
  import opened Rings
  import opened ComplexRings
  import FeatureFft
  import WhisperFft

  const MODULUS := 401

  type Below401 = x: int | 0 <= x < MODULUS

  datatype Residue = Residue(v: Below401)

  function Plus(x: Residue, y: Residue): Residue {
    Residue((x.v + y.v) % MODULUS)
  }

  function Times(x: Residue, y: Residue): Residue {
    Residue((x.v * y.v) % MODULUS)
  }

  function Minus(x: Residue): Residue {
    Residue((MODULUS - x.v) % MODULUS)
  }

  function Residues(): Ring<Residue> {
    Ring(Residue(0), Residue(1), Plus, Times, Minus)
  }

  lemma {:induction false} ModProduct(x: nat, y: nat, z: nat)
    ensures ((x * y) % MODULUS * z) % MODULUS == (x * ((y * z) % MODULUS)) % MODULUS
  {
    var xy, yz := x * y, y * z;
    Arithmetic.ModTimes(xy, z, MODULUS);
    Arithmetic.ModTimes(yz, x, MODULUS);
    assert xy * z == yz * x;
    assert (yz % MODULUS) * x == x * (yz % MODULUS);
  }

  lemma {:induction false} ModSum(a: nat, b: nat)
    ensures (a % MODULUS + b) % MODULUS == (a + b) % MODULUS
    ensures (a + b % MODULUS) % MODULUS == (a + b) % MODULUS
  {
  }

  lemma {:induction false} ModSumAssociative(a: nat, b: nat, c: nat)
    ensures ((a + b) % MODULUS + c) % MODULUS == (a + (b + c) % MODULUS) % MODULUS
  {
    ModSum(a + b, c);
    ModSum(a, b + c);
  }

  lemma {:induction false} ModDistribute(x: nat, y: nat, z: nat)
    ensures ((x + y) % MODULUS * z) % MODULUS == ((x * z) % MODULUS + (y * z) % MODULUS) % MODULUS
  {
    var sum, xz, yz := x + y, x * z, y * z;
    Arithmetic.ModTimes(sum, z, MODULUS);
    assert sum * z == xz + yz;
    ModSum(xz, yz % MODULUS);
    ModSum(xz, yz);
  }

  lemma {:induction false} TimesLaws(x: Residue, y: Residue, z: Residue)
    ensures Times(Times(x, y), z) == Times(x, Times(y, z))
    ensures Times(Plus(x, y), z) == Plus(Times(x, z), Times(y, z))
    ensures Times(x, y) == Times(y, x)
  {
    ModProduct(x.v, y.v, z.v);
    ModDistribute(x.v, y.v, z.v);
    assert x.v * y.v == y.v * x.v;
  }

  lemma {:induction false} PlusLaws(x: Residue, y: Residue, z: Residue)
    ensures Plus(Plus(x, y), z) == Plus(x, Plus(y, z))
    ensures Plus(x, y) == Plus(y, x)
  {
    ModSumAssociative(x.v, y.v, z.v);
  }

  lemma {:induction false} UnitLaws(x: Residue)
    ensures Plus(x, Residue(0)) == x && Times(x, Residue(1)) == x && Plus(x, Minus(x)) == Residue(0)
  {
    Small(x.v);
    if x.v == 0 {
      assert Minus(x) == Residue(0);
    } else {
      Small(MODULUS - x.v);
      assert x.v + Minus(x).v == MODULUS;
    }
  }

  lemma {:induction false} Small(v: Below401)
    ensures v % MODULUS == v
  {
  }

  lemma {:induction false} ResiduesAreRing()
    ensures IsRing(Residues())
  {
    forall x: Residue, y: Residue, z: Residue
      ensures Laws(Residues(), x, y, z)
    {
      TimesLaws(x, y, z);
      PlusLaws(x, y, z);
      UnitLaws(x);
    }
  }

  lemma {:induction false} PowSum(x: Residue, m: nat, n: nat, a: Residue, b: Residue, c: Residue)
    requires Pow(Residues(), x, m) == a && Pow(Residues(), x, n) == b && (a.v * b.v) % MODULUS == c.v
    ensures Pow(Residues(), x, m + n) == c
  {
    ResiduesAreRing();
    PowAdd(Residues(), x, m, n);
  }

  lemma {:induction false} ThreeToThe25(n: nat)
    requires n == 5
    ensures Pow(Residues(), Residue(3), 1) == Residue(3) && Pow(Residues(), Residue(3), n * n) == Residue(268)
  {
    var x := Residue(3);
    assert Pow(Residues(), x, 1) == Times(Pow(Residues(), x, 0), x);
    PowSum(x, 1, 1, x, x, Residue(9));
    PowSum(x, n - 3, n - 4, Residue(9), x, Residue(27));
    PowSum(x, n - 2, n - 2, Residue(27), Residue(27), Residue(328));
    PowSum(x, n + 1, n + 1, Residue(328), Residue(328), Residue(116));
    PowSum(x, n + n + 2, n + n + 2, Residue(116), Residue(116), Residue(223));
    PowSum(x, 4 * n + 4, n - 4, Residue(223), x, Residue(268));
  }

  lemma {:induction false} ThreeToThe100(size: nat)
    requires size == FeatureFft.FFT_SIZE
    ensures Pow(Residues(), Residue(3), 1) == Residue(3) && Pow(Residues(), Residue(3), size / 4) == Residue(20)
  {
    var x := Residue(3);
    ThreeToThe25(size / 80);
    PowSum(x, size / 16, size / 16, Residue(268), Residue(268), Residue(45));
    PowSum(x, size / 8, size / 8, Residue(45), Residue(45), Residue(20));
  }

  /** 3 has order 400 modulo 401. */
  lemma {:induction false} PowersOfThree(size: nat)
    requires size == FeatureFft.FFT_SIZE
    ensures Pow(Residues(), Residue(3), 1) == Residue(3)
    ensures Pow(Residues(), Residue(3), size / 2) == Minus(Residue(1))
            && Pow(Residues(), Residue(3), size) == Residue(1)
  {
    var x := Residue(3);
    ThreeToThe100(size);
    PowSum(x, size / 4, size / 4, Residue(20), Residue(20), Residue(400));
    assert size / 4 + size / 4 == size / 2;
    PowSum(x, size / 2, size / 2, Residue(400), Residue(400), Residue(1));
    assert Minus(Residue(1)) == Residue(400);
  }

  /** The mixed-radix transform has a concrete table of roots. */
  lemma {:induction false} RootTableExists() returns (roots: seq<Residue>)
    ensures FeatureFft.RootTable(Residues(), roots, Residue(3)) && roots[1] == Residue(3)
  {
    ResiduesAreRing();
    PowersOfThree(FeatureFft.FFT_SIZE);
    roots := seq(400, (i: nat) => Pow(Residues(), Residue(3), i));
  }

  lemma {:induction false} RealPow<T(!new)>(r: Ring<T>, x: T, n: nat)
    requires IsRing(r)
    ensures Pow(ComplexRing(r), Complex(x, r.zero), n) == Complex(Pow(r, x, n), r.zero)
  {
    if n > 0 {
      RealPow(r, x, n - 1);
      var p := Pow(r, x, n - 1);
      MulZero(r, p);
      MulZero(r, x);
      MulZero(r, r.zero);
      NegZero(r);
      Units(r, Mul(r, p, x));
      Units(r, r.zero);
    }
  }

  lemma {:induction false} NegZero<T(!new)>(r: Ring<T>)
    requires IsRing(r)
    ensures Neg(r, r.zero) == r.zero
  {
    Units(r, r.zero);
    NegUnique(r, r.zero, r.zero);
  }

  /** Any root of unity with half a turn equal to -1 gives tables: its powers, and sines of zero. */
  lemma {:induction false} RealTable<T(!new)>(r: Ring<T>, x: T, n: nat) returns (cos: seq<T>, sin: seq<T>)
    requires IsRing(r) && n == WhisperFft.SIN_COS_N_COUNT
    requires Pow(r, x, n) == r.one && Pow(r, x, n / 2) == Neg(r, r.one)
    ensures WhisperFft.Table(r, cos, sin, Complex(x, r.zero))
  {
    cos, sin := seq(n, (i: nat) => Pow(r, x, i)), seq(n, (i: nat) => r.zero);
    NegZero(r);
    RealPow(r, x, n);
    RealPow(r, x, n / 2);
    forall i: nat | i < n
      ensures Complex(cos[i], Neg(r, sin[i])) == Pow(ComplexRing(r), Complex(x, r.zero), i)
    {
      RealPow(r, x, i);
    }
  }

  lemma {:induction false} HalfTurn(n: nat)
    requires n == WhisperFft.SIN_COS_N_COUNT
    ensures IsRing(Residues()) && Pow(Residues(), Residue(3), n) == Residues().one
    ensures Pow(Residues(), Residue(3), n / 2) == Neg(Residues(), Residues().one)
  {
    ResiduesAreRing();
    PowersOfThree(n);
  }

  /** The radix-2 transform has concrete tables. */
  lemma {:induction false} TableExists(n: nat) returns (cos: seq<Residue>, sin: seq<Residue>)
    requires n == WhisperFft.SIN_COS_N_COUNT
    ensures WhisperFft.Table(Residues(), cos, sin, Complex(Residue(3), Residue(0)))
  {
    HalfTurn(n);
    cos, sin := RealTable(Residues(), Residue(3), n);
  }
}
