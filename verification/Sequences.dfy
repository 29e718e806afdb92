/** Facts about sequences used by several modules. */
module Sequences {

  lemma {:induction false} Associative<T>(a: seq<T>, b: seq<T>, c: seq<T>)
    ensures (a + b) + c == a + (b + c)
  {
  }

  lemma {:induction false} EmptyLeft<T>(a: seq<T>)
    ensures [] + a == a
  {
  }

  lemma {:induction false} EmptyRight<T>(a: seq<T>)
    ensures a + [] == a
  {
  }

  /** Nothing outside the slice of `n` elements at `at` differs. */
  ghost predicate SameOutside<T>(before: seq<T>, after: seq<T>, at: nat, n: nat) {
    && |before| == |after|
    && forall i :: 0 <= i < |before| && !(at <= i < at + n) ==> before[i] == after[i]
  }
}
