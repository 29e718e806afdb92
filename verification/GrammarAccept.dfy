/**
 Running a grammar: the initial stacks, accepting a character and accepting a token.

 The stacks reached by accepting `u` accept exactly those `w` for which the start rule derives `u + w`.
 */
module GrammarAccept {
  import opened Grammar
  import opened GrammarStacks
  import Sequences

  // ---------------------------------------------------------------------------------------------
  // Accepting a character
  // ---------------------------------------------------------------------------------------------

  function AcceptOne(rules: Rules, st: Stack, c: nat): seq<Stack>
    requires Usable(rules) && Advanced(rules, st)
  {
    if st.Item? && Matches(rules, st.top, c) then
        AdvanceStack(rules, PushItem(rules, st.below, AfterClass(rules, st.top)))
    else []
  }

  /** The stacks reached from `stacks` by the character `c`. */
  function Accept(rules: Rules, stacks: seq<Stack>, c: nat): seq<Stack>
    requires Usable(rules) && AllAdvanced(rules, stacks)
  {
    if stacks == [] then []
    else Accept(rules, stacks[..|stacks| - 1], c) + AcceptOne(rules, stacks[|stacks| - 1], c)
  }

  method AcceptChar(rules: Rules, stacks: seq<Stack>, c: nat) returns (newStacks: seq<Stack>)
    requires Usable(rules) && AllAdvanced(rules, stacks)
    ensures newStacks == Accept(rules, stacks, c)
  {
    newStacks := [];
    for i := 0 to |stacks|
      invariant newStacks == Accept(rules, stacks[..i], c)
    {
      var st := stacks[i];
      assert stacks[..i + 1][..i] == stacks[..i];
      if st.Item? {
        var matched, pos := MatchChar(rules, st.top, c);
        if matched {
          var newStack := st.below;
          if !IsEndOfSequence(KindAt(rules, pos)) {
            newStack := Item(newStack, pos);
          }
          newStacks := AdvanceStackInto(rules, newStack, newStacks);
        }
      }
    }
    assert stacks[..|stacks|] == stacks;
  }

  lemma {:induction false} AcceptOneIsDerivative(rules: Rules, st: Stack, c: nat, w: seq<nat>)
    requires Usable(rules) && Advanced(rules, st)
    ensures AllAdvanced(rules, AcceptOne(rules, st, c))
    ensures SomeAccepts(rules, AcceptOne(rules, st, c), w) <==> Accepts(rules, st, [c] + w)
  {
    if st.Bottom? {
      forall d | StackDerives(rules, st, d)
        ensures StackWord(d) != [c] + w
      {
        assert |[c] + w| > 0;
      }
    } else {
      var after := AfterClass(rules, st.top);
      var next := PushItem(rules, st.below, after);
      if Accepts(rules, st, [c] + w) {
        var d :| StackDerives(rules, st, d) && StackWord(d) == [c] + w;
        ReadWord(d, c, w);
        var e := PushDerivation(rules, st.below, after, d.below, d.top.rest);
        assert StackDerives(rules, next, e) && StackWord(e) == w;
      }
      if Matches(rules, st.top, c) {
        if Accepts(rules, next, w) {
          var e :| StackDerives(rules, next, e) && StackWord(e) == w;
          var below, rest := PopDerivation(rules, st.below, after, e);
          var d := Layer(below, Read(c, rest));
          Sequences.Associative([c], Word(rest), StackWord(below));
          assert StackDerives(rules, st, d) && StackWord(d) == [c] + w;
        }
        AdvanceKeepsLanguage(rules, next, w);
        AdvanceStackAdvanced(rules, next);
      }
    }
  }

  lemma {:induction false} ReadWord(d: StackDerivation, c: nat, w: seq<nat>)
    requires d.Layer? && d.top.Read? && StackWord(d) == [c] + w
    ensures d.top.c == c && Word(d.top.rest) + StackWord(d.below) == w
  {
    Sequences.Associative([d.top.c], Word(d.top.rest), StackWord(d.below));
    var rest := Word(d.top.rest) + StackWord(d.below);
    assert ([d.top.c] + rest)[0] == ([c] + w)[0];
    assert ([d.top.c] + rest)[1..] == rest && ([c] + w)[1..] == w;
  }

  /** Accepting `c` leaves exactly the words that can follow `c` in the language of the stacks. */
  lemma {:induction false} AcceptIsDerivative(rules: Rules, stacks: seq<Stack>, c: nat, w: seq<nat>)
    requires Usable(rules) && AllAdvanced(rules, stacks)
    ensures AllAdvanced(rules, Accept(rules, stacks, c))
    ensures SomeAccepts(rules, Accept(rules, stacks, c), w) <==> SomeAccepts(rules, stacks, [c] + w)
  {
    if stacks != [] {
      var init, last := stacks[..|stacks| - 1], stacks[|stacks| - 1];
      AcceptIsDerivative(rules, init, c, w);
      AcceptOneIsDerivative(rules, last, c, w);
      SomeAcceptsConcat(rules, Accept(rules, init, c), AcceptOne(rules, last, c), w);
      SomeAcceptsLast(rules, stacks, [c] + w);
    }
  }

  // ---------------------------------------------------------------------------------------------
  // Accepting a token
  // ---------------------------------------------------------------------------------------------

  lemma {:induction false} AcceptAdvanced(rules: Rules, stacks: seq<Stack>, c: nat)
    requires Usable(rules) && AllAdvanced(rules, stacks)
    ensures AllAdvanced(rules, Accept(rules, stacks, c))
  {
    AcceptIsDerivative(rules, stacks, c, []);
  }

  /** The stacks reached by the characters of `u`, one after the other. */
  function AcceptAll(rules: Rules, stacks: seq<Stack>, u: seq<nat>): (r: seq<Stack>)
    requires Usable(rules) && AllAdvanced(rules, stacks)
    ensures AllAdvanced(rules, r)
    decreases |u|
  {
    if u == [] then stacks
    else
      AcceptAdvanced(rules, stacks, u[0]);
      AcceptAll(rules, Accept(rules, stacks, u[0]), u[1..])
  }

  /** Accepts the code points of a token; the last one is the terminating zero. */
  method AcceptToken(rules: Rules, stacks: seq<Stack>, codePoints: seq<nat>) returns (r: seq<Stack>)
    requires Usable(rules) && AllAdvanced(rules, stacks) && |codePoints| > 0
    ensures r == AcceptAll(rules, stacks, codePoints[..|codePoints| - 1])
  {
    r := stacks;
    var u := codePoints[..|codePoints| - 1];
    for i := 0 to |codePoints| - 1
      invariant AllAdvanced(rules, r)
      invariant AcceptAll(rules, r, u[i..]) == AcceptAll(rules, stacks, u)
    {
      assert u[i..][0] == codePoints[i] && u[i..][1..] == u[i + 1..];
      AcceptAdvanced(rules, r, codePoints[i]);
      r := AcceptChar(rules, r, codePoints[i]);
    }
  }

  lemma {:induction false} NothingLeft(rules: Rules, u: seq<nat>)
    requires Usable(rules)
    ensures AcceptAll(rules, [], u) == []
  {
    if u != [] {
      NothingLeft(rules, u[1..]);
    }
  }

  /** Accepting a token leaves exactly the words that can follow it. */
  lemma {:induction false} AcceptAllIsDerivative(rules: Rules, stacks: seq<Stack>, u: seq<nat>, w: seq<nat>)
    requires Usable(rules) && AllAdvanced(rules, stacks)
    ensures SomeAccepts(rules, AcceptAll(rules, stacks, u), w) <==> SomeAccepts(rules, stacks, u + w)
    decreases |u|
  {
    if u == [] {
      assert u + w == w;
    } else {
      AcceptAdvanced(rules, stacks, u[0]);
      AcceptAllIsDerivative(rules, Accept(rules, stacks, u[0]), u[1..], w);
      AcceptIsDerivative(rules, stacks, u[0], u[1..] + w);
      assert [u[0]] + (u[1..] + w) == u + w;
    }
  }

  // ---------------------------------------------------------------------------------------------
  // Initial stacks
  // ---------------------------------------------------------------------------------------------

  /** The alternate of rule `q` that starts at `a` derives `w`. */
  ghost predicate AlternateDerives(rules: Rules, q: nat, a: nat, w: seq<nat>)
    requires WellFormed(rules)
  {
    AltStart(rules, q, a) && exists d :: Derives(rules, AltPos(rules, q, a), d) && Word(d) == w
  }

  /** Some alternate of rule `q` derives `w`. */
  ghost predicate RuleDerives(rules: Rules, q: nat, w: seq<nat>)
    requires WellFormed(rules)
  {
    exists a: nat :: AlternateDerives(rules, q, a, w)
  }

  /** The stacks of the alternates of rule `q` that start at `a` or later. */
  function InitialFrom(rules: Rules, q: nat, a: nat): (r: seq<Stack>)
    requires Usable(rules) && AltStart(rules, q, a)
    decreases |rules[q]| - a
  {
    var e := SeqEnd(rules[q], a, |rules|);
    AdvanceStack(rules, PushItem(rules, Bottom, AltPos(rules, q, a)))
    + if rules[q][e].kind == Alt then InitialFrom(rules, q, e + 1) else []
  }

  ghost function PendingInitial(rules: Rules, q: nat, a: nat, more: bool): seq<Stack>
    requires Usable(rules) && (more ==> AltStart(rules, q, a))
  {
    if more then InitialFrom(rules, q, a) else []
  }

  lemma {:induction false} InitialStep(rules: Rules, q: nat, a: nat, b: nat, more: bool)
    requires Usable(rules) && AltStart(rules, q, a)
    requires var e := SeqEnd(rules[q], a, |rules|);
             more == (rules[q][e].kind == Alt) && (more ==> b == e + 1)
    ensures more ==> AltStart(rules, q, b)
    ensures PendingInitial(rules, q, a, true)
         == AdvanceStack(rules, PushItem(rules, Bottom, AltPos(rules, q, a))) + PendingInitial(rules, q, b, more)
  {
  }

  method InitGrammar(rules: Rules, start: nat) returns (stacks: seq<Stack>)
    requires Usable(rules) && start < |rules|
    ensures stacks == InitialFrom(rules, start, 0)
  {
    stacks := [];
    var pos, more := 0, true;
    ghost var rest := InitialFrom(rules, start, 0);
    while more
      invariant more ==> AltStart(rules, start, pos)
      invariant rest == PendingInitial(rules, start, pos, more)
      invariant InitialFrom(rules, start, 0) == stacks + rest
      decreases |rules[start]| - pos, more
    {
      var stack := Bottom;
      if !IsEndOfSequence(rules[start][pos].kind) {
        stack := Item(stack, AltPos(rules, start, pos));
      }
      ghost var before, from := stacks, pos;
      stacks := AdvanceStackInto(rules, stack, stacks);
      pos := ScanAlternate(rules[start], pos, |rules|);
      more := rules[start][pos].kind == Alt;
      if more {
        pos := pos + 1;
      }
      InitialStep(rules, start, from, pos, more);
      rest := PendingInitial(rules, start, pos, more);
      Sequences.Associative(before, AdvanceStack(rules, stack), rest);
    }
    Sequences.EmptyRight(stacks);
  }

  lemma {:induction false} StartStack(rules: Rules, q: nat, a: nat, w: seq<nat>)
    requires WellFormed(rules) && AltStart(rules, q, a)
    ensures Accepts(rules, PushItem(rules, Bottom, AltPos(rules, q, a)), w) <==> AlternateDerives(rules, q, a, w)
  {
    var p := AltPos(rules, q, a);
    var st := PushItem(rules, Bottom, p);
    if Accepts(rules, st, w) {
      var e :| StackDerives(rules, st, e) && StackWord(e) == w;
      var below, d := PopDerivation(rules, Bottom, p, e);
      Sequences.EmptyRight(Word(d));
    }
    if d :| Derives(rules, p, d) && Word(d) == w {
      var e := PushDerivation(rules, Bottom, p, Nothing, d);
      Sequences.EmptyRight(Word(d));
      assert StackDerives(rules, st, e) && StackWord(e) == w;
    }
  }

  ghost predicate DerivesFrom(rules: Rules, q: nat, a: nat, w: seq<nat>)
    requires WellFormed(rules)
  {
    exists b: nat :: a <= b && AlternateDerives(rules, q, b, w)
  }

  lemma {:induction false} DerivesFromStep(rules: Rules, q: nat, a: nat, w: seq<nat>)
    requires WellFormed(rules) && AltStart(rules, q, a)
    ensures DerivesFrom(rules, q, a, w) <==>
            || AlternateDerives(rules, q, a, w)
            || (rules[q][SeqEnd(rules[q], a, |rules|)].kind == Alt
                && DerivesFrom(rules, q, SeqEnd(rules[q], a, |rules|) + 1, w))
  {
    if DerivesFrom(rules, q, a, w) {
      var b: nat :| a <= b && AlternateDerives(rules, q, b, w);
      if a < b { LaterAlternates(rules, q, a, b); }
    }
  }

  lemma {:induction false} InitialFromLanguage(rules: Rules, q: nat, a: nat, w: seq<nat>)
    requires Usable(rules) && AltStart(rules, q, a)
    ensures AllAdvanced(rules, InitialFrom(rules, q, a))
    ensures SomeAccepts(rules, InitialFrom(rules, q, a), w) <==> DerivesFrom(rules, q, a, w)
    decreases |rules[q]| - a
  {
    var e := SeqEnd(rules[q], a, |rules|);
    var first := AlternateStacks(rules, q, a);
    AlternateStacksLanguage(rules, q, a, w);
    DerivesFromStep(rules, q, a, w);
    if rules[q][e].kind == Alt {
      InitialFromLanguage(rules, q, e + 1, w);
      SomeAcceptsConcat(rules, first, InitialFrom(rules, q, e + 1), w);
    } else {
      Sequences.EmptyRight(first);
    }
  }

  function AlternateStacks(rules: Rules, q: nat, a: nat): seq<Stack>
    requires Usable(rules) && AltStart(rules, q, a)
  {
    AdvanceStack(rules, PushItem(rules, Bottom, AltPos(rules, q, a)))
  }

  lemma {:induction false} AlternateStacksLanguage(rules: Rules, q: nat, a: nat, w: seq<nat>)
    requires Usable(rules) && AltStart(rules, q, a)
    ensures AllAdvanced(rules, AlternateStacks(rules, q, a))
    ensures SomeAccepts(rules, AlternateStacks(rules, q, a), w) <==> AlternateDerives(rules, q, a, w)
  {
    var st := PushItem(rules, Bottom, AltPos(rules, q, a));
    AdvanceKeepsLanguage(rules, st, w);
    AdvanceStackAdvanced(rules, st);
    StartStack(rules, q, a, w);
  }

  /**
   The state of a grammar after its start rule and the characters `u`: what it still accepts is exactly
   what completes `u` to a word of the start rule.
   */
  lemma {:induction false} GrammarTracksStartRule(rules: Rules, start: nat, u: seq<nat>, w: seq<nat>)
    requires Usable(rules) && start < |rules|
    ensures AllAdvanced(rules, InitialFrom(rules, start, 0))
    ensures SomeAccepts(rules, AcceptAll(rules, InitialFrom(rules, start, 0), u), w)
       <==> RuleDerives(rules, start, u + w)
  {
    InitialFromLanguage(rules, start, 0, u + w);
    AcceptAllIsDerivative(rules, InitialFrom(rules, start, 0), u, w);
  }
}
