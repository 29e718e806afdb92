/**
 Two logits processors of CTranslate2 that look at a row's tokens: one forbids repeating an n-gram, one forbids
 given sequences. Tokens are disabled before each step; the theorems are about runs that never sample a disabled
 token.
 */
module LogitsProcessors {

  type Tokens = seq<int>

  predicate OccursAt(s: Tokens, pattern: Tokens, at: int) {
    0 <= at && at + |pattern| <= |s| && s[at..at + |pattern|] == pattern
  }

  ghost predicate Occurs(s: Tokens, pattern: Tokens) {
    exists at :: OccursAt(s, pattern, at)
  }

  /** The last `n` tokens. */
  function Suffix(s: Tokens, n: nat): Tokens
    requires n <= |s|
  {
    s[|s| - n..]
  }

  // ---------------------------------------------------------------------------------------------
  // No repeated n-gram
  // ---------------------------------------------------------------------------------------------

  /** Token `t` would complete an n-gram of `size` tokens that is already there. */
  ghost predicate Completes(s: Tokens, size: nat, t: int)
    requires size > 0
  {
    |s| >= size && Occurs(s, Suffix(s, size - 1) + [t])
  }

  /** The first occurrence of a pattern from `from` on, or the length of the text. */
  method Search(s: Tokens, from: nat, pattern: Tokens) returns (at: nat)
    requires from <= |s|
    ensures from <= at <= |s|
    ensures at < |s| ==> OccursAt(s, pattern, at)
    ensures forall b :: from <= b < at ==> !OccursAt(s, pattern, b)
  {
    at := from;
    while at + |pattern| <= |s|
      invariant from <= at <= |s|
      invariant forall b :: from <= b < at ==> !OccursAt(s, pattern, b)
    {
      if s[at..at + |pattern|] == pattern {
        return;
      }
      at := at + 1;
    }
    at := |s|;
  }

  lemma {:induction false} Extends(s: Tokens, pattern: Tokens, t: int, b: int)
    ensures OccursAt(s, pattern + [t], b) <==> OccursAt(s, pattern, b) && b + |pattern| < |s| && s[b + |pattern|] == t
  {
    if 0 <= b && b + |pattern| < |s| {
      assert s[b..b + |pattern| + 1] == s[b..b + |pattern|] + [s[b + |pattern|]];
      if s[b..b + |pattern| + 1] == pattern + [t] {
        assert (pattern + [t])[..|pattern|] == pattern && (pattern + [t])[|pattern|] == t;
        assert s[b..b + |pattern|] == (s[b..b + |pattern|] + [s[b + |pattern|]])[..|pattern|];
      }
    }
  }

  /** The tokens to disable for one row. */
  method NgramFinals(s: Tokens, size: nat) returns (finals: set<int>)
    requires size > 0
    ensures forall t :: t in finals <==> Completes(s, size, t)
  {
    finals := {};
    if |s| < size {
      return;
    }
    var current := Suffix(s, size - 1);
    var begin := 0;
    while true
      invariant begin <= |s|
      invariant forall t :: t in finals ==> Completes(s, size, t)
      invariant forall b :: 0 <= b < begin && b + size <= |s| && OccursAt(s, current, b) ==> s[b + size - 1] in finals
      decreases |s| - begin
    {
      begin := Search(s, begin, current);
      if begin + size > |s| {
        break;
      }
      Extends(s, current, s[begin + size - 1], begin);
      finals := finals + {s[begin + size - 1]};
      begin := begin + 1;
    }
    forall t | Completes(s, size, t)
      ensures t in finals
    {
      var b :| OccursAt(s, current + [t], b);
      Extends(s, current, t, b);
    }
  }

  /** No n-gram of `size` tokens occurs twice. */
  ghost predicate NoRepeat(s: Tokens, size: nat) {
    forall i, j {:trigger Gram(s, size, i), Gram(s, size, j)} :: 0 <= i < j && j + size <= |s| ==>
           Gram(s, size, i) != Gram(s, size, j)
  }

  ghost function Gram(s: Tokens, size: nat, i: int): Tokens {
    if 0 <= i && i + size <= |s| then s[i..i + size] else []
  }

  /** Each token was allowed when it was sampled. */
  ghost predicate NeverDisabled(s: Tokens, size: nat)
    requires size > 0
  {
    forall k {:trigger s[k]} :: 0 <= k < |s| ==> !Completes(s[..k], size, s[k])
  }

  lemma {:induction false} GramFront(s: Tokens, size: nat, i: int)
    requires 0 <= i && i + size < |s|
    ensures Gram(s[..|s| - 1], size, i) == Gram(s, size, i)
  {
  }

  lemma {:induction false} LastGram(s: Tokens, size: nat)
    requires 0 < size < |s|
    ensures Suffix(s[..|s| - 1], size - 1) + [s[|s| - 1]] == Gram(s, size, |s| - size)
  {
  }

  /** The last token completes an n-gram exactly if the last n-gram occurs before. */
  lemma {:induction false} CompletedGram(s: Tokens, size: nat) returns (b: int)
    requires 0 < size < |s| && Completes(s[..|s| - 1], size, s[|s| - 1])
    ensures 0 <= b && b + size < |s| && Gram(s, size, b) == Gram(s, size, |s| - size)
  {
    var front, pattern := s[..|s| - 1], Gram(s, size, |s| - size);
    LastGram(s, size);
    b :| OccursAt(front, pattern, b);
    GramFront(s, size, b);
  }

  lemma {:induction false} GramCompletes(s: Tokens, size: nat, b: int)
    requires 0 < size < |s| && 0 <= b && b + size < |s| && Gram(s, size, b) == Gram(s, size, |s| - size)
    ensures Completes(s[..|s| - 1], size, s[|s| - 1])
  {
    LastGram(s, size);
    GramFront(s, size, b);
    assert OccursAt(s[..|s| - 1], Gram(s, size, |s| - size), b);
  }

  /** A run repeats no n-gram exactly if it never samples a token that completes one. */
  lemma {:induction false} NoRepeatExactlyIf(s: Tokens, size: nat)
    requires size > 0
    ensures NeverDisabled(s, size) <==> NoRepeat(s, size)
  {
    if s == [] {
      assert NeverDisabled(s, size) && NoRepeat(s, size);
    } else {
      NoRepeatExactlyIf(s[..|s| - 1], size);
      NeverDisabledFront(s, size);
      NoRepeatFront(s, size);
    }
  }

  lemma {:induction false} NeverDisabledFront(s: Tokens, size: nat)
    requires size > 0 && s != []
    ensures NeverDisabled(s, size) <==> NeverDisabled(s[..|s| - 1], size) && !Completes(s[..|s| - 1], size, s[|s| - 1])
  {
    var front := s[..|s| - 1];
    assert forall k :: 0 <= k < |front| ==> front[k] == s[k] && front[..k] == s[..k];
    if NeverDisabled(front, size) && !Completes(front, size, s[|s| - 1]) {
      forall k | 0 <= k < |s|
        ensures !Completes(s[..k], size, s[k])
      {
        assert k < |front| ==> front[k] == s[k] && !Completes(front[..k], size, front[k]);
      }
    }
    if NeverDisabled(s, size) {
      forall k | 0 <= k < |front|
        ensures !Completes(front[..k], size, front[k])
      {
        assert !Completes(s[..k], size, s[k]);
      }
    }
  }

  lemma {:induction false} NoRepeatFront(s: Tokens, size: nat)
    requires size > 0 && s != []
    ensures NoRepeat(s, size) <==> NoRepeat(s[..|s| - 1], size) && !Completes(s[..|s| - 1], size, s[|s| - 1])
  {
    if size < |s| {
      if NoRepeat(s, size) {
        RepeatsNotBefore(s, size);
      } else if !Completes(s[..|s| - 1], size, s[|s| - 1]) {
        RepeatsBefore(s, size);
      }
    }
  }

  lemma {:induction false} RepeatsNotBefore(s: Tokens, size: nat)
    requires 0 < size < |s| && NoRepeat(s, size)
    ensures NoRepeat(s[..|s| - 1], size) && !Completes(s[..|s| - 1], size, s[|s| - 1])
  {
    var front := s[..|s| - 1];
    forall i, j | 0 <= i < j && j + size <= |front|
      ensures Gram(front, size, i) != Gram(front, size, j)
    {
      GramFront(s, size, i);
      GramFront(s, size, j);
    }
    if Completes(front, size, s[|s| - 1]) {
      var b := CompletedGram(s, size);
      assert false;
    }
  }

  lemma {:induction false} RepeatsBefore(s: Tokens, size: nat)
    requires 0 < size < |s| && !NoRepeat(s, size) && !Completes(s[..|s| - 1], size, s[|s| - 1])
    ensures !NoRepeat(s[..|s| - 1], size)
  {
    var i, j :| 0 <= i < j && j + size <= |s| && Gram(s, size, i) == Gram(s, size, j);
    GramFront(s, size, i);
    if j + size == |s| {
      GramCompletes(s, size, i);
    } else {
      GramFront(s, size, j);
    }
  }

  // ---------------------------------------------------------------------------------------------
  // Forbidden sequences
  // ---------------------------------------------------------------------------------------------

  /** The constructor: empty sequences are dropped, single tokens are kept apart. */
  method Split(banned: seq<Tokens>) returns (ids: seq<int>, sequences: seq<Tokens>)
    ensures forall q :: q in sequences <==> q in banned && |q| > 1
    ensures forall t :: t in ids <==> [t] in banned
  {
    ids, sequences := [], [];
    for i := 0 to |banned|
      invariant forall q :: q in sequences <==> q in banned[..i] && |q| > 1
      invariant forall t :: t in ids <==> [t] in banned[..i]
    {
      assert banned[..i + 1] == banned[..i] + [banned[i]];
      if |banned[i]| == 0 {
        continue;
      }
      if |banned[i]| == 1 {
        assert banned[i] == [banned[i][0]];
        ids := ids + [banned[i][0]];
      } else {
        sequences := sequences + [banned[i]];
      }
    }
    assert banned[..|banned|] == banned;
  }

  /** Token `t` would end a banned sequence. */
  ghost predicate EndsBanned(s: Tokens, banned: seq<Tokens>, t: int) {
    exists q :: q in banned && EndsWith(s + [t], q)
  }

  predicate EndsWith(s: Tokens, q: Tokens) {
    0 < |q| <= |s| && s[|s| - |q|..] == q
  }

  lemma {:induction false} EndsWithLast(s: Tokens, t: int, q: Tokens)
    requires |q| > 0
    ensures EndsWith(s + [t], q) <==> q[|q| - 1] == t && |q| - 1 <= |s| && s[|s| - (|q| - 1)..] == q[..|q| - 1]
  {
    if |q| - 1 <= |s| {
      var tail := (s + [t])[|s| + 1 - |q|..];
      assert tail == s[|s| - (|q| - 1)..] + [t];
      assert q == q[..|q| - 1] + [q[|q| - 1]];
      if tail == q {
        assert tail[|q| - 1] == t && tail[..|q| - 1] == s[|s| - (|q| - 1)..];
      }
    }
  }

  /** The tokens to disable for one row. */
  method SuppressedTokens(ids: seq<int>, sequences: seq<Tokens>, ghost banned: seq<Tokens>, s: Tokens)
    returns (disabled: set<int>)
    requires forall q :: q in sequences <==> q in banned && |q| > 1
    requires forall t :: t in ids <==> [t] in banned
    ensures forall t :: t in disabled <==> EndsBanned(s, banned, t)
  {
    disabled := set t | t in ids;
    for i := 0 to |sequences|
      invariant forall t :: t in disabled <==> t in ids || exists k :: 0 <= k < i && EndsWith(s + [t], sequences[k])
    {
      var q := sequences[i];
      assert q in sequences;
      forall t
        ensures EndsWith(s + [t], q) <==> q[|q| - 1] == t && |q| - 1 <= |s| && s[|s| - (|q| - 1)..] == q[..|q| - 1]
      {
        EndsWithLast(s, t, q);
      }
      var compareLength := |q| - 1;
      if |s| < compareLength {
        continue;
      }
      if s[|s| - compareLength..] == q[..compareLength] {
        disabled := disabled + {q[|q| - 1]};
      }
    }
    forall t
      ensures t in disabled <==> EndsBanned(s, banned, t)
    {
      SingleOrLonger(s, ids, sequences, banned, t);
    }
  }

  lemma {:induction false} SingleOrLonger(s: Tokens, ids: seq<int>, sequences: seq<Tokens>, banned: seq<Tokens>, t: int)
    requires forall q :: q in sequences <==> q in banned && |q| > 1
    requires forall t :: t in ids <==> [t] in banned
    ensures EndsBanned(s, banned, t) <==>
            t in ids || exists k :: 0 <= k < |sequences| && EndsWith(s + [t], sequences[k])
  {
    if EndsBanned(s, banned, t) {
      var q :| q in banned && EndsWith(s + [t], q);
      if |q| == 1 {
        assert q == [t];
      } else {
        assert q in sequences;
        var k :| 0 <= k < |sequences| && sequences[k] == q;
      }
    }
    if t in ids {
      assert (s + [t])[|s|..] == [t];
      assert EndsWith(s + [t], [t]);
    }
    if exists k :: 0 <= k < |sequences| && EndsWith(s + [t], sequences[k]) {
      var k :| 0 <= k < |sequences| && EndsWith(s + [t], sequences[k]);
      assert sequences[k] in sequences;
    }
  }

  ghost predicate NeverSuppressed(s: Tokens, banned: seq<Tokens>) {
    forall k {:trigger s[k]} :: 0 <= k < |s| ==> !EndsBanned(s[..k], banned, s[k])
  }

  ghost predicate NoBanned(s: Tokens, banned: seq<Tokens>) {
    forall q, at {:trigger q in banned, OccursAt(s, q, at)} :: q in banned && q != [] ==> !OccursAt(s, q, at)
  }

  /** The token that ended the occurrence was disabled. */
  lemma {:induction false} LastWasDisabled(s: Tokens, q: Tokens, at: int, banned: seq<Tokens>)
    requires q in banned && q != [] && OccursAt(s, q, at)
    ensures !NeverSuppressed(s, banned)
  {
    OccurrenceEnds(s, q, at);
    var k := at + |q| - 1;
    assert EndsBanned(s[..k], banned, s[k]);
  }

  /** A run contains no banned sequence exactly if it never samples a token that ends one. */
  lemma {:induction false} NoBannedExactlyIf(s: Tokens, banned: seq<Tokens>)
    ensures NeverSuppressed(s, banned) <==> NoBanned(s, banned)
  {
    forall q, at, k | q in banned && q != [] && k == at + |q| - 1 && 0 <= at && k < |s|
      ensures OccursAt(s, q, at) <==> EndsWith(s[..k] + [s[k]], q)
    {
      OccurrenceEnds(s, q, at);
    }
    forall q, at | q in banned && q != [] && OccursAt(s, q, at)
      ensures !NeverSuppressed(s, banned)
    {
      LastWasDisabled(s, q, at, banned);
    }
    if NoBanned(s, banned) {
      forall k | 0 <= k < |s|
        ensures !EndsBanned(s[..k], banned, s[k])
      {
        forall q | q in banned
          ensures !EndsWith(s[..k] + [s[k]], q)
        {
          if 0 < |q| <= k + 1 {
            assert !OccursAt(s, q, k + 1 - |q|);
          }
        }
      }
    }
  }

  lemma {:induction false} OccurrenceEnds(s: Tokens, q: Tokens, at: int)
    requires q != [] && 0 <= at && at + |q| <= |s|
    ensures OccursAt(s, q, at) <==> EndsWith(s[..at + |q| - 1] + [s[at + |q| - 1]], q)
  {
    var k := at + |q| - 1;
    assert s[..k] + [s[k]] == s[..k + 1];
    assert s[..k + 1][at..] == s[at..at + |q|];
  }
}
