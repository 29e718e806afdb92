/** Minimum and maximum, and division and remainder with variable divisors. */
module Arithmetic {

  function Min(a: int, b: int): int {
    if a < b then a else b
  }

  function Max(a: int, b: int): int {
    if a < b then b else a
  }

  lemma {:induction false} MultipleBound(m: int, d: int)
    requires m >= 0
    ensures d >= 1 ==> m * d >= m
    ensures d <= -1 ==> m * d <= -m
  {
  }

  lemma {:induction false} ModUnique(x: int, m: int, q: int, e: int)
    requires 0 <= e < m && x == m * q + e
    ensures x % m == e && x / m == q
  {
    var d := x / m - q;
    assert m * d == e - x % m;
    MultipleBound(m, d);
  }

  lemma {:induction false} ModTimes(k: nat, s: nat, m: nat)
    requires m > 0
    ensures (k * s) % m == ((k % m) * s) % m
  {
    var q, a := k / m, (k % m) * s;
    assert k * s == m * (q * s) + a;
    assert a == m * (a / m) + a % m;
    ModUnique(k * s, m, q * s + a / m, a % m);
  }

  lemma {:induction false} DivideMonotone(a: int, b: int, d: int)
    requires 0 <= a <= b && d > 0
    ensures 0 <= a / d <= b / d
  {
    var more := a / d - b / d;
    assert d * more == a - a % d - (b - b % d);
    MultipleBound(d, more);
    MultipleBound(d, a / d);
  }

  lemma {:induction false} QuotientOf(d: int, o: int)
    requires d > 0
    ensures d * o / d == o
  {
    ModUnique(d * o, d, o, 0);
  }

  lemma {:induction false} ProductMonotone(x: int, y: int, o: int)
    requires 0 <= x <= y && 0 <= o
    ensures 0 <= x * o <= y * o
  {
  }
}
