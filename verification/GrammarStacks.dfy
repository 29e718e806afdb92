/**
 Advancing grammar stacks. `AdvanceStack` replaces a rule reference on top of a stack by the
 alternates of the rule until every stack is empty or positioned at a character class.

 It ends exactly because the grammar has no left recursion, and it keeps the language of the stack;
 hence `Accept` is the derivative of the language by a character.
 */
module GrammarStacks {
  import opened Grammar
  import Sequences

  // ---------------------------------------------------------------------------------------------
  // Left recursion, including through rules that derive the empty string
  // ---------------------------------------------------------------------------------------------

  ghost predicate DerivesEmpty(rules: Rules, q: nat)
    requires WellFormed(rules) && q < |rules|
  {
    exists a: nat, d :: AltStart(rules, q, a) && Derives(rules, AltPos(rules, q, a), d) && Word(d) == []
  }

  /** Some alternate of rule `q` has a reference to rule `r` preceded only by references to nullable rules. */
  ghost predicate LeftCorner(rules: Rules, q: nat, r: nat)
    requires WellFormed(rules)
  {
    q < |rules| && exists a: nat, i: nat :: LeftCornerAt(rules, q, r, a, i)
  }

  ghost predicate LeftCornerAt(rules: Rules, q: nat, r: nat, a: nat, i: nat)
    requires WellFormed(rules) && q < |rules|
  {
    && AltStart(rules, q, a) && a <= i < |rules[q]|
    && rules[q][i] == Elem(RuleRef, r)
    && (forall j :: a <= j < i ==> NullableRef(rules, Pos(q, j)))
  }

  ghost predicate NullableRef(rules: Rules, p: Pos)
    requires WellFormed(rules) && ValidPos(rules, p)
  {
    RefPos(rules, p) && DerivesEmpty(rules, RefAt(rules, p))
  }

  ghost predicate LeftPath(rules: Rules, p: seq<nat>)
    requires WellFormed(rules)
  {
    && |p| > 0 && p[0] < |rules|
    && forall i {:trigger LeftStep(rules, p, i)} :: 0 <= i < |p| - 1 ==> LeftStep(rules, p, i)
  }

  ghost predicate LeftStep(rules: Rules, p: seq<nat>, i: nat)
    requires WellFormed(rules) && i + 1 < |p|
  {
    LeftCorner(rules, p[i], p[i + 1])
  }

  /** No rule can reach itself through left corners. */
  ghost predicate NoLeftRecursion(rules: Rules)
    requires WellFormed(rules)
  {
    forall p: seq<nat> {:trigger LeftPath(rules, p)} :: LeftPath(rules, p) && |p| >= 2 ==> p[0] != p[|p| - 1]
  }

  ghost predicate Usable(rules: Rules) {
    WellFormed(rules) && NoLeftRecursion(rules)
  }

  lemma {:induction false} DistinctBelow(p: seq<nat>, n: nat)
    requires forall i :: 0 <= i < |p| ==> p[i] < n
    requires forall i, j :: 0 <= i < j < |p| ==> p[i] != p[j]
    ensures |p| <= n
  {
    if |p| > 0 {
      assert p[0] < n;
      if n - 1 in p {
        var k :| 0 <= k < |p| && p[k] == n - 1;
        DistinctBelow(p[..k] + p[k + 1..], n - 1);
      } else {
        DistinctBelow(p, n - 1);
      }
    }
  }

  lemma {:induction false} LeftCornerTarget(rules: Rules, q: nat, r: nat)
    requires WellFormed(rules) && LeftCorner(rules, q, r)
    ensures r < |rules|
  {
    var a: nat, i: nat :| LeftCornerAt(rules, q, r, a, i);
    assert ElemOk(rules[q], i, |rules|);
  }

  lemma {:induction false} LeftPathShort(rules: Rules, p: seq<nat>)
    requires Usable(rules) && LeftPath(rules, p)
    ensures |p| <= |rules|
  {
    forall i | 0 <= i < |p|
      ensures p[i] < |rules|
    {
      if i > 0 {
        assert LeftStep(rules, p, i - 1);
        LeftCornerTarget(rules, p[i - 1], p[i]);
      }
    }
    if i, j :| 0 <= i < j < |p| && p[i] == p[j] {
      var cycle := p[i..j + 1];
      forall k | 0 <= k < |cycle| - 1
        ensures LeftStep(rules, cycle, k)
      {
        assert LeftStep(rules, p, i + k);
      }
      assert cycle[0] == cycle[|cycle| - 1];
      assert LeftPath(rules, cycle);
    }
    DistinctBelow(p, |rules|);
  }

  ghost predicate HasPath(rules: Rules, q: nat, k: nat)
    requires WellFormed(rules)
  {
    exists p: seq<nat> :: LeftPath(rules, p) && p[0] == q && |p| == k + 1
  }

  /** The longest left-corner path from `q` of at most `k` steps. */
  ghost function LongestPath(rules: Rules, q: nat, k: nat): (r: nat)
    requires WellFormed(rules) && q < |rules|
    ensures r <= k && HasPath(rules, q, r)
    ensures forall j :: 0 <= j <= k && HasPath(rules, q, j) ==> j <= r
  {
    assert LeftPath(rules, [q]);
    if k == 0 || HasPath(rules, q, k) then k else LongestPath(rules, q, k - 1)
  }

  ghost function Rank(rules: Rules, q: nat): nat
    requires WellFormed(rules) && q < |rules|
  {
    LongestPath(rules, q, |rules|)
  }

  lemma {:induction false} RankDecreases(rules: Rules, q: nat, r: nat)
    requires Usable(rules) && LeftCorner(rules, q, r)
    ensures r < |rules| && Rank(rules, r) < Rank(rules, q)
  {
    LeftCornerTarget(rules, q, r);
    var k := Rank(rules, r);
    var p :| LeftPath(rules, p) && p[0] == r && |p| == k + 1;
    var longer := [q] + p;
    forall i | 0 <= i < |longer| - 1
      ensures LeftStep(rules, longer, i)
    {
      if i > 0 { assert LeftStep(rules, p, i - 1); }
    }
    LeftPathShort(rules, longer);
    assert HasPath(rules, q, k + 1);
  }

  // ---------------------------------------------------------------------------------------------
  // A measure for advancing
  // ---------------------------------------------------------------------------------------------

  /** The sequence from `p` to the end of its alternate derives the empty string. */
  ghost predicate NullableSeq(rules: Rules, p: Pos)
    requires WellFormed(rules) && ItemPos(rules, p)
    decreases |rules[p.rule]| - p.index
  {
    IsEndOfSequence(KindAt(rules, p)) || (NullableRef(rules, p) && NullableSeq(rules, After(rules, p)))
  }

  /** Above the rank of every rule that can come first when the sequence from `p` is expanded. */
  ghost function Bound(rules: Rules, p: Pos): nat
    requires WellFormed(rules) && ItemPos(rules, p)
    decreases |rules[p.rule]| - p.index
  {
    if KindAt(rules, p) != RuleRef then 0
    else
      var own := Rank(rules, RefAt(rules, p)) + 1;
      var rest := if NullableRef(rules, p) then Bound(rules, After(rules, p)) else 0;
      if own < rest then rest else own
  }

  ghost function MaxLength(rules: Rules): (m: nat)
    ensures forall r :: 0 <= r < |rules| ==> |rules[r]| <= m
  {
    if rules == [] then 0
    else
      var m := MaxLength(rules[..|rules| - 1]);
      if m < |rules[|rules| - 1]| then |rules[|rules| - 1]| else m
  }

  ghost function Power(b: nat, e: nat): (r: nat)
    ensures b > 0 ==> r > 0
  {
    if e == 0 then 1 else b * Power(b, e - 1)
  }

  lemma {:induction false} PowerMonotone(b: nat, e: nat, f: nat)
    requires b > 0 && e <= f
    ensures Power(b, e) <= Power(b, f)
    decreases f
  {
    if e < f {
      PowerMonotone(b, e, f - 1);
      assert Power(b, f - 1) <= b * Power(b, f - 1);
    }
  }

  ghost function Weight(rules: Rules, p: Pos): nat
    requires WellFormed(rules) && ItemPos(rules, p)
  {
    var left := SeqEnd(rules[p.rule], p.index, |rules|) - p.index;
    left * Power(MaxLength(rules) + 1, Bound(rules, p))
  }

  /** Counts the items of the stack that can be reached without consuming a character. */
  ghost function StackWeight(rules: Rules, st: Stack): nat
    requires WellFormed(rules) && StackOk(rules, st)
  {
    match st
    case Bottom => 0
    case Item(below, top) => Weight(rules, top) + if NullableSeq(rules, top) then StackWeight(rules, below) else 0
  }

  /** The code never pushes a position at the end of a sequence. */
  function PushItem(rules: Rules, st: Stack, p: Pos): (r: Stack)
    requires WellFormed(rules) && StackOk(rules, st) && ItemPos(rules, p)
    ensures StackOk(rules, r)
  {
    if IsEndOfSequence(KindAt(rules, p)) then st else Item(st, p)
  }

  /** `below` with the rule reference `top` on it replaced by the alternate that starts at `a`. */
  function Expand(rules: Rules, below: Stack, top: Pos, a: nat): (r: Stack)
    requires WellFormed(rules) && StackOk(rules, below) && RefPos(rules, top)
    requires AltStart(rules, RefAt(rules, top), a)
    ensures StackOk(rules, r)
  {
    PushItem(rules, PushItem(rules, below, After(rules, top)), AltPos(rules, RefAt(rules, top), a))
  }

  lemma {:induction false} NullableSeqDerives(rules: Rules, p: Pos) returns (d: Derivation)
    requires WellFormed(rules) && ItemPos(rules, p) && NullableSeq(rules, p)
    ensures Derives(rules, p, d) && Word(d) == []
    decreases |rules[p.rule]| - p.index
  {
    if IsEndOfSequence(KindAt(rules, p)) {
      d := Done;
    } else {
      var q := RefAt(rules, p);
      var a: nat, sub :| AltStart(rules, q, a) && Derives(rules, AltPos(rules, q, a), sub) && Word(sub) == [];
      var rest := NullableSeqDerives(rules, After(rules, p));
      d := Use(a, sub, rest);
    }
  }

  lemma {:induction false} BoundOfAlternate(rules: Rules, q: nat, a: nat, i: nat)
    requires Usable(rules) && AltStart(rules, q, a) && a <= i < |rules[q]| && ItemPos(rules, Pos(q, i))
    requires forall j :: a <= j < i ==> NullableRef(rules, Pos(q, j))
    ensures Bound(rules, Pos(q, i)) <= Rank(rules, q)
    decreases |rules[q]| - i
  {
    var p := Pos(q, i);
    if KindAt(rules, p) == RuleRef {
      assert LeftCornerAt(rules, q, RefAt(rules, p), a, i);
      RankDecreases(rules, q, RefAt(rules, p));
      if NullableRef(rules, p) {
        assert After(rules, p) == Pos(q, i + 1);
        BoundOfAlternate(rules, q, a, i + 1);
      }
    }
  }

  lemma {:induction false} WeightOfPush(rules: Rules, st: Stack, p: Pos)
    requires WellFormed(rules) && StackOk(rules, st) && ItemPos(rules, p)
    ensures StackWeight(rules, PushItem(rules, st, p))
         == Weight(rules, p) + if NullableSeq(rules, p) then StackWeight(rules, st) else 0
  {
  }

  lemma {:induction false} LessByFactor(left: nat, max: nat, power: nat)
    requires left <= max && power > 0
    ensures left * power < (max + 1) * power
  {
    assert (max + 1) * power == max * power + power;
    assert left * power <= max * power;
  }

  lemma {:induction false} MulMonotone(k: nat, x: nat, y: nat)
    requires x <= y
    ensures k * x <= k * y
  {
  }

  lemma {:induction false} WeightOfAlternate(rules: Rules, top: Pos, a: nat)
    requires Usable(rules) && RefPos(rules, top)
    requires AltStart(rules, RefAt(rules, top), a)
    ensures Weight(rules, AltPos(rules, RefAt(rules, top), a)) < Power(MaxLength(rules) + 1, Bound(rules, top))
  {
    var q := RefAt(rules, top);
    var b := MaxLength(rules) + 1;
    var left := SeqEnd(rules[q], a, |rules|) - a;
    assert AltPos(rules, q, a) == Pos(q, a);
    BoundOfAlternate(rules, q, a, a);
    PowerMonotone(b, Bound(rules, AltPos(rules, q, a)), Rank(rules, q));
    PowerMonotone(b, Rank(rules, q) + 1, Bound(rules, top));
    LessByFactor(left, MaxLength(rules), Power(b, Rank(rules, q)));
    MulMonotone(left, Power(b, Bound(rules, AltPos(rules, q, a))), Power(b, Rank(rules, q)));
  }

  lemma {:induction false} WeightOfRest(rules: Rules, top: Pos)
    requires Usable(rules) && RefPos(rules, top)
    ensures NullableRef(rules, top) ==>
              Weight(rules, After(rules, top)) + Power(MaxLength(rules) + 1, Bound(rules, top)) <= Weight(rules, top)
    ensures Power(MaxLength(rules) + 1, Bound(rules, top)) <= Weight(rules, top)
  {
    var b := MaxLength(rules) + 1;
    var left := SeqEnd(rules[top.rule], top.index, |rules|) - top.index;
    var power := Power(b, Bound(rules, top));
    assert left * power == (left - 1) * power + power;
    MulMonotone(left - 1, 0, power);
    if NullableRef(rules, top) {
      PowerMonotone(b, Bound(rules, After(rules, top)), Bound(rules, top));
      MulMonotone(left - 1, Power(b, Bound(rules, After(rules, top))), power);
    }
  }

  lemma {:induction false} ExpandDecreases(rules: Rules, below: Stack, top: Pos, a: nat)
    requires Usable(rules) && StackOk(rules, below) && RefPos(rules, top)
    requires AltStart(rules, RefAt(rules, top), a)
    ensures StackWeight(rules, Expand(rules, below, top, a)) < StackWeight(rules, Item(below, top))
  {
    var sub := AltPos(rules, RefAt(rules, top), a);
    WeightOfPush(rules, below, After(rules, top));
    WeightOfPush(rules, PushItem(rules, below, After(rules, top)), sub);
    WeightOfAlternate(rules, top, a);
    WeightOfRest(rules, top);
    if NullableSeq(rules, sub) {
      var d := NullableSeqDerives(rules, sub);
    }
  }

  // ---------------------------------------------------------------------------------------------
  // Advancing a stack
  // ---------------------------------------------------------------------------------------------

  /** `below` with the rule reference `top` replaced by each alternate that starts at `a` or later. */
  function Expansions(rules: Rules, below: Stack, top: Pos, a: nat): (r: seq<Stack>)
    requires WellFormed(rules) && StackOk(rules, below) && RefPos(rules, top)
    requires AltStart(rules, RefAt(rules, top), a)
    ensures |r| > 0 && AllOk(rules, r)
    decreases |rules[RefAt(rules, top)]| - a
  {
    var rule := rules[RefAt(rules, top)];
    var e := SeqEnd(rule, a, |rules|);
    [Expand(rules, below, top, a)] + if rule[e].kind == Alt then Expansions(rules, below, top, e + 1) else []
  }

  /** What is left to expand when the scan is at `a`: nothing after the last alternate. */
  ghost function Pending(rules: Rules, below: Stack, top: Pos, a: nat, more: bool): seq<Stack>
    requires WellFormed(rules) && StackOk(rules, below) && RefPos(rules, top)
    requires more ==> AltStart(rules, RefAt(rules, top), a)
  {
    if more then Expansions(rules, below, top, a) else []
  }

  lemma {:induction false} ExpansionsStep(rules: Rules, below: Stack, top: Pos, a: nat, b: nat, more: bool)
    requires WellFormed(rules) && StackOk(rules, below) && RefPos(rules, top)
    requires AltStart(rules, RefAt(rules, top), a)
    requires var rule := rules[RefAt(rules, top)];
             var e := SeqEnd(rule, a, |rules|);
             more == (rule[e].kind == Alt) && (more ==> b == e + 1)
    ensures more ==> AltStart(rules, RefAt(rules, top), b)
    ensures Expansions(rules, below, top, a) == [Expand(rules, below, top, a)] + Pending(rules, below, top, b, more)
  {
  }

  ghost predicate AllLighter(rules: Rules, sts: seq<Stack>, bound: nat)
    requires WellFormed(rules) && AllOk(rules, sts)
  {
    forall i :: 0 <= i < |sts| ==> StackWeight(rules, sts[i]) < bound
  }

  /** Each alternate that `top` can be replaced by gives a stack lighter than `bound`. */
  ghost predicate EachLighter(rules: Rules, below: Stack, top: Pos, bound: nat)
    requires WellFormed(rules) && StackOk(rules, below) && RefPos(rules, top)
  {
    forall a: nat {:trigger AltStart(rules, RefAt(rules, top), a)} :: AltStart(rules, RefAt(rules, top), a) ==>
      StackWeight(rules, Expand(rules, below, top, a)) < bound
  }

  lemma {:induction false} ExpansionsBelow(rules: Rules, below: Stack, top: Pos, a: nat, bound: nat)
    requires WellFormed(rules) && StackOk(rules, below) && RefPos(rules, top) && EachLighter(rules, below, top, bound)
    requires AltStart(rules, RefAt(rules, top), a)
    ensures AllLighter(rules, Expansions(rules, below, top, a), bound)
    decreases |rules[RefAt(rules, top)]| - a
  {
    var rule := rules[RefAt(rules, top)];
    var e := SeqEnd(rule, a, |rules|);
    ExpansionsStep(rules, below, top, a, e + 1, rule[e].kind == Alt);
    var first := Expand(rules, below, top, a);
    if rule[e].kind == Alt {
      ExpansionsBelow(rules, below, top, e + 1, bound);
      LighterFirst(rules, first, Expansions(rules, below, top, e + 1), bound);
    } else {
      LighterFirst(rules, first, [], bound);
    }
  }

  lemma {:induction false} LighterFirst(rules: Rules, st: Stack, rest: seq<Stack>, bound: nat)
    requires WellFormed(rules) && StackOk(rules, st) && AllOk(rules, rest)
    requires StackWeight(rules, st) < bound && AllLighter(rules, rest, bound)
    ensures AllOk(rules, [st] + rest) && AllLighter(rules, [st] + rest, bound)
  {
  }

  lemma {:induction false} ExpansionsLighter(rules: Rules, below: Stack, top: Pos, a: nat)
    requires Usable(rules) && StackOk(rules, below) && RefPos(rules, top)
    requires AltStart(rules, RefAt(rules, top), a)
    ensures AllLighter(rules, Expansions(rules, below, top, a), StackWeight(rules, Item(below, top)))
  {
    forall b: nat | AltStart(rules, RefAt(rules, top), b)
      ensures StackWeight(rules, Expand(rules, below, top, b)) < StackWeight(rules, Item(below, top))
    {
      ExpandDecreases(rules, below, top, b);
    }
    ExpansionsBelow(rules, below, top, a, StackWeight(rules, Item(below, top)));
  }

  /** The stacks, all empty or positioned at a character class, that `st` expands to. */
  function AdvanceStack(rules: Rules, st: Stack): (r: seq<Stack>)
    requires Usable(rules) && StackOk(rules, st)
    ensures |r| > 0
    decreases StackWeight(rules, st), 1
  {
    if st.Item? && RefPos(rules, st.top) then
      ExpansionsLighter(rules, st.below, st.top, 0);
      AdvanceAll(rules, Expansions(rules, st.below, st.top, 0), StackWeight(rules, st))
    else [st]
  }

  /** The same for a list of stacks that are lighter than `bound`. */
  function AdvanceAll(rules: Rules, sts: seq<Stack>, ghost bound: nat): (r: seq<Stack>)
    requires Usable(rules) && AllOk(rules, sts) && AllLighter(rules, sts, bound)
    ensures |sts| > 0 ==> |r| > 0
    decreases bound, 0, |sts|
  {
    if sts == [] then []
    else AdvanceAll(rules, sts[..|sts| - 1], bound) + AdvanceStack(rules, sts[|sts| - 1])
  }

  lemma {:induction false} AdvanceStackAdvanced(rules: Rules, st: Stack)
    requires Usable(rules) && StackOk(rules, st)
    ensures AllAdvanced(rules, AdvanceStack(rules, st))
    decreases StackWeight(rules, st), 1
  {
    if st.Item? && RefPos(rules, st.top) {
      ExpansionsLighter(rules, st.below, st.top, 0);
      AdvanceAllAdvanced(rules, Expansions(rules, st.below, st.top, 0), StackWeight(rules, st));
    }
  }

  lemma {:induction false} AdvanceAllAdvanced(rules: Rules, sts: seq<Stack>, bound: nat)
    requires Usable(rules) && AllOk(rules, sts) && AllLighter(rules, sts, bound)
    ensures AllAdvanced(rules, AdvanceAll(rules, sts, bound))
    decreases bound, 0, |sts|
  {
    if sts != [] {
      AdvanceAllAdvanced(rules, sts[..|sts| - 1], bound);
      AdvanceStackAdvanced(rules, sts[|sts| - 1]);
    }
  }

  lemma {:induction false} AdvanceAllAppend(rules: Rules, sts: seq<Stack>, st: Stack, bound: nat)
    requires Usable(rules) && AllOk(rules, sts) && AllLighter(rules, sts, bound)
    requires StackOk(rules, st) && StackWeight(rules, st) < bound
    ensures AllOk(rules, sts + [st]) && AllLighter(rules, sts + [st], bound)
    ensures AdvanceAll(rules, sts + [st], bound) == AdvanceAll(rules, sts, bound) + AdvanceStack(rules, st)
  {
    assert (sts + [st])[..|sts|] == sts;
  }

  lemma {:induction false} AdvanceRef(rules: Rules, below: Stack, top: Pos)
    requires Usable(rules) && StackOk(rules, Item(below, top)) && RefPos(rules, top)
    ensures AllLighter(rules, Expansions(rules, below, top, 0), StackWeight(rules, Item(below, top)))
    ensures AdvanceStack(rules, Item(below, top))
         == AdvanceAll(rules, Expansions(rules, below, top, 0), StackWeight(rules, Item(below, top)))
  {
    ExpansionsLighter(rules, below, top, 0);
  }

  /** Scans to the end of the alternate. */
  method ScanAlternate(rule: seq<Elem>, start: nat, ghost ruleCount: nat) returns (e: nat)
    requires WellFormedRule(rule, ruleCount) && start < |rule|
    ensures e == SeqEnd(rule, start, ruleCount)
  {
    e := start;
    while !IsEndOfSequence(rule[e].kind)
      invariant start <= e < |rule|
      invariant SeqEnd(rule, start, ruleCount) == SeqEnd(rule, e, ruleCount)
      decreases |rule| - e
    {
      e := e + 1;
    }
  }

  /** The stack without its top, with what follows the reference and the alternate pushed if they are nonempty. */
  method NewStack(rules: Rules, below: Stack, pos: Pos, subpos: nat) returns (newStack: Stack)
    requires WellFormed(rules) && StackOk(rules, below) && RefPos(rules, pos)
    requires AltStart(rules, RefAt(rules, pos), subpos)
    ensures newStack == Expand(rules, below, pos, subpos)
  {
    newStack := below;
    if !IsEndOfSequence(KindAt(rules, After(rules, pos))) {
      newStack := Item(newStack, After(rules, pos));
    }
    if !IsEndOfSequence(rules[RefAt(rules, pos)][subpos].kind) {
      newStack := Item(newStack, AltPos(rules, RefAt(rules, pos), subpos));
    }
  }

  /** Appends the advanced stacks to `newStacks`. */
  method AdvanceStackInto(rules: Rules, st: Stack, newStacks: seq<Stack>) returns (out: seq<Stack>)
    requires Usable(rules) && StackOk(rules, st)
    ensures out == newStacks + AdvanceStack(rules, st)
    decreases StackWeight(rules, st), 1
  {
    if st.Bottom? {
      out := newStacks + [Bottom];
    } else if KindAt(rules, st.top) == RuleRef {
      out := AdvanceAlternates(rules, st.below, st.top, newStacks);
    } else {
      out := newStacks + [st];
    }
  }

  /** The loop over the alternates of the rule referred to on top. */
  method AdvanceAlternates(rules: Rules, below: Stack, pos: Pos, newStacks: seq<Stack>) returns (out: seq<Stack>)
    requires Usable(rules) && StackOk(rules, Item(below, pos)) && RefPos(rules, pos)
    ensures out == newStacks + AdvanceStack(rules, Item(below, pos))
    decreases StackWeight(rules, Item(below, pos)), 0
  {
    out := newStacks;
    var q := RefAt(rules, pos);
    var subpos, more := 0, true;
    ghost var bound := StackWeight(rules, Item(below, pos));
    ghost var all := Expansions(rules, below, pos, 0);
    ghost var done: seq<Stack>, rest, added: seq<Stack> := [], all, [];
    AdvanceRef(rules, below, pos);
    while more
      invariant more ==> AltStart(rules, q, subpos)
      invariant rest == Pending(rules, below, pos, subpos, more)
      invariant all == done + rest
      invariant AllOk(rules, done) && AllLighter(rules, done, bound)
      invariant added == AdvanceAll(rules, done, bound)
      invariant out == newStacks + added
      decreases |rest|
    {
      var newStack := NewStack(rules, below, pos, subpos);
      ghost var start := subpos;
      subpos := ScanAlternate(rules[q], subpos, |rules|);
      more := rules[q][subpos].kind == Alt;
      if more {
        subpos := subpos + 1;
      }
      ExpansionsStep(rules, below, pos, start, subpos, more);
      ExpandDecreases(rules, below, pos, start);
      AdvanceAllAppend(rules, done, newStack, bound);
      out := AdvanceStackInto(rules, newStack, out);
      Sequences.Associative(newStacks, added, AdvanceStack(rules, newStack));
      added := added + AdvanceStack(rules, newStack);
      rest := Pending(rules, below, pos, subpos, more);
      Sequences.Associative(done, [newStack], rest);
      done := done + [newStack];
    }
    Sequences.EmptyRight(done);
  }

  // ---------------------------------------------------------------------------------------------
  // Advancing keeps the language
  // ---------------------------------------------------------------------------------------------

  lemma {:induction false} SomeAcceptsConcat(rules: Rules, s: seq<Stack>, t: seq<Stack>, w: seq<nat>)
    requires WellFormed(rules) && AllOk(rules, s) && AllOk(rules, t)
    ensures SomeAccepts(rules, s + t, w) <==> SomeAccepts(rules, s, w) || SomeAccepts(rules, t, w)
  {
    if SomeAccepts(rules, s, w) {
      var i :| 0 <= i < |s| && Accepts(rules, s[i], w);
      assert (s + t)[i] == s[i];
    }
    if SomeAccepts(rules, t, w) {
      var i :| 0 <= i < |t| && Accepts(rules, t[i], w);
      assert (s + t)[|s| + i] == t[i];
    }
  }

  lemma {:induction false} SomeAcceptsLast(rules: Rules, sts: seq<Stack>, w: seq<nat>)
    requires WellFormed(rules) && AllOk(rules, sts) && sts != []
    ensures SomeAccepts(rules, sts, w) <==>
            SomeAccepts(rules, sts[..|sts| - 1], w) || Accepts(rules, sts[|sts| - 1], w)
  {
    var init := sts[..|sts| - 1];
    if SomeAccepts(rules, init, w) {
      var i :| 0 <= i < |init| && Accepts(rules, init[i], w);
      assert sts[i] == init[i];
    }
    if SomeAccepts(rules, sts, w) {
      var i :| 0 <= i < |sts| && Accepts(rules, sts[i], w);
      assert i < |init| ==> init[i] == sts[i];
    }
  }

  lemma {:induction false} PopDerivation(rules: Rules, st: Stack, p: Pos, d: StackDerivation)
    returns (below: StackDerivation, top: Derivation)
    requires WellFormed(rules) && StackOk(rules, st) && ItemPos(rules, p)
    requires StackDerives(rules, PushItem(rules, st, p), d)
    ensures StackDerives(rules, st, below) && Derives(rules, p, top)
    ensures Word(top) + StackWord(below) == StackWord(d)
  {
    if IsEndOfSequence(KindAt(rules, p)) {
      below, top := d, Done;
    } else {
      below, top := d.below, d.top;
    }
  }

  lemma {:induction false} PushDerivation(rules: Rules, st: Stack, p: Pos, below: StackDerivation, top: Derivation)
    returns (d: StackDerivation)
    requires WellFormed(rules) && StackOk(rules, st) && ItemPos(rules, p)
    requires StackDerives(rules, st, below) && Derives(rules, p, top)
    ensures StackDerives(rules, PushItem(rules, st, p), d)
    ensures StackWord(d) == Word(top) + StackWord(below)
  {
    if IsEndOfSequence(KindAt(rules, p)) {
      d := below;
    } else {
      d := Layer(below, top);
    }
  }

  lemma {:induction false} UseDerivation(rules: Rules, st: Stack, p: Pos, a: nat, below: StackDerivation,
                                         sub: Derivation, rest: Derivation)
    returns (d: StackDerivation)
    requires WellFormed(rules) && StackOk(rules, Item(st, p)) && RefPos(rules, p)
    requires AltStart(rules, RefAt(rules, p), a)
    requires Derives(rules, AltPos(rules, RefAt(rules, p), a), sub) && Derives(rules, After(rules, p), rest)
    requires StackDerives(rules, st, below)
    ensures StackDerives(rules, Item(st, p), d)
    ensures StackWord(d) == Word(sub) + (Word(rest) + StackWord(below))
  {
    d := Layer(below, Use(a, sub, rest));
    UseWord(a, below, sub, rest);
  }

  lemma {:induction false} UseWord(a: nat, below: StackDerivation, sub: Derivation, rest: Derivation)
    ensures StackWord(Layer(below, Use(a, sub, rest))) == Word(sub) + (Word(rest) + StackWord(below))
  {
    Sequences.Associative(Word(sub), Word(rest), StackWord(below));
  }

  lemma {:induction false} ExpandKeeps(rules: Rules, below: Stack, top: Pos, a: nat, w: seq<nat>)
    requires WellFormed(rules) && StackOk(rules, below) && RefPos(rules, top)
    requires AltStart(rules, RefAt(rules, top), a)
    requires Accepts(rules, Expand(rules, below, top, a), w)
    ensures Accepts(rules, Item(below, top), w)
  {
    var d :| StackDerives(rules, Expand(rules, below, top, a), d) && StackWord(d) == w;
    var d1, sub := PopDerivation(rules, PushItem(rules, below, After(rules, top)), AltPos(rules, RefAt(rules, top), a),
                                 d);
    var d2, rest := PopDerivation(rules, below, After(rules, top), d1);
    var e := UseDerivation(rules, below, top, a, d2, sub, rest);
  }

  lemma {:induction false} ExpandFinds(rules: Rules, below: Stack, top: Pos, w: seq<nat>) returns (a: nat)
    requires WellFormed(rules) && StackOk(rules, below) && RefPos(rules, top)
    requires Accepts(rules, Item(below, top), w)
    ensures AltStart(rules, RefAt(rules, top), a) && Accepts(rules, Expand(rules, below, top, a), w)
  {
    var d :| StackDerives(rules, Item(below, top), d) && StackWord(d) == w;
    a := d.top.alternate;
    var d1 := PushDerivation(rules, below, After(rules, top), d.below, d.top.rest);
    var d2 := PushDerivation(rules, PushItem(rules, below, After(rules, top)), AltPos(rules, RefAt(rules, top), a), d1,
                             d.top.sub);
    Sequences.Associative(Word(d.top.sub), Word(d.top.rest), StackWord(d.below));
    assert StackDerives(rules, Expand(rules, below, top, a), d2) && StackWord(d2) == w;
  }

  lemma {:induction false} LaterAlternates(rules: Rules, q: nat, a: nat, b: nat)
    requires WellFormed(rules) && AltStart(rules, q, a) && AltStart(rules, q, b) && a < b
    ensures rules[q][SeqEnd(rules[q], a, |rules|)].kind == Alt && SeqEnd(rules[q], a, |rules|) < b
  {
    if b - 1 < SeqEnd(rules[q], a, |rules|) {
      SeqEndIsFirst(rules[q], a, b - 1, |rules|);
    }
    assert ElemOk(rules[q], b - 1, |rules|) && ElemOk(rules[q], SeqEnd(rules[q], a, |rules|), |rules|);
  }

  lemma {:induction false} ExpansionsComplete(rules: Rules, below: Stack, top: Pos, a: nat, b: nat) returns (i: nat)
    requires WellFormed(rules) && StackOk(rules, below) && RefPos(rules, top) && a <= b
    requires AltStart(rules, RefAt(rules, top), a) && AltStart(rules, RefAt(rules, top), b)
    ensures i < |Expansions(rules, below, top, a)|
    ensures Expansions(rules, below, top, a)[i] == Expand(rules, below, top, b)
    decreases b - a
  {
    var q := RefAt(rules, top);
    var e := SeqEnd(rules[q], a, |rules|);
    ExpansionsStep(rules, below, top, a, e + 1, rules[q][e].kind == Alt);
    if a == b {
      i := 0;
    } else {
      LaterAlternates(rules, q, a, b);
      i := ExpansionsComplete(rules, below, top, e + 1, b);
      i := i + 1;
    }
  }

  lemma {:induction false} ExpansionsSound(rules: Rules, below: Stack, top: Pos, a: nat, i: nat) returns (b: nat)
    requires WellFormed(rules) && StackOk(rules, below) && RefPos(rules, top)
    requires AltStart(rules, RefAt(rules, top), a)
    requires i < |Expansions(rules, below, top, a)|
    ensures AltStart(rules, RefAt(rules, top), b)
    ensures Expansions(rules, below, top, a)[i] == Expand(rules, below, top, b)
    decreases i
  {
    var q := RefAt(rules, top);
    var e := SeqEnd(rules[q], a, |rules|);
    ExpansionsStep(rules, below, top, a, e + 1, rules[q][e].kind == Alt);
    if i == 0 {
      b := a;
    } else {
      b := ExpansionsSound(rules, below, top, e + 1, i - 1);
    }
  }

  /** A stack with a rule reference on top has the language of its expansions together. */
  lemma {:induction false} ExpansionsKeepLanguage(rules: Rules, below: Stack, top: Pos, w: seq<nat>)
    requires WellFormed(rules) && StackOk(rules, below) && RefPos(rules, top)
    ensures Accepts(rules, Item(below, top), w) <==> SomeAccepts(rules, Expansions(rules, below, top, 0), w)
  {
    var sts := Expansions(rules, below, top, 0);
    if Accepts(rules, Item(below, top), w) {
      var b := ExpandFinds(rules, below, top, w);
      var i := ExpansionsComplete(rules, below, top, 0, b);
    }
    if SomeAccepts(rules, sts, w) {
      var i: nat :| i < |sts| && Accepts(rules, sts[i], w);
      var b := ExpansionsSound(rules, below, top, 0, i);
      ExpandKeeps(rules, below, top, b, w);
    }
  }

  /** Advancing a stack keeps its language. */
  lemma {:induction false} AdvanceKeepsLanguage(rules: Rules, st: Stack, w: seq<nat>)
    requires Usable(rules) && StackOk(rules, st)
    ensures AllOk(rules, AdvanceStack(rules, st))
    ensures Accepts(rules, st, w) <==> SomeAccepts(rules, AdvanceStack(rules, st), w)
    decreases StackWeight(rules, st), 1
  {
    AdvanceStackAdvanced(rules, st);
    if st.Item? && RefPos(rules, st.top) {
      ExpansionsKeepLanguage(rules, st.below, st.top, w);
      ExpansionsLighter(rules, st.below, st.top, 0);
      AdvanceAllKeepsLanguage(rules, Expansions(rules, st.below, st.top, 0), StackWeight(rules, st), w);
    } else {
      assert AdvanceStack(rules, st)[0] == st;
    }
  }

  lemma {:induction false} AdvanceAllKeepsLanguage(rules: Rules, sts: seq<Stack>, bound: nat, w: seq<nat>)
    requires Usable(rules) && AllOk(rules, sts) && AllLighter(rules, sts, bound)
    ensures AllOk(rules, AdvanceAll(rules, sts, bound))
    ensures SomeAccepts(rules, sts, w) <==> SomeAccepts(rules, AdvanceAll(rules, sts, bound), w)
    decreases bound, 0, |sts|
  {
    AdvanceAllAdvanced(rules, sts, bound);
    if sts != [] {
      var init, last := sts[..|sts| - 1], sts[|sts| - 1];
      AdvanceAllAdvanced(rules, init, bound);
      AdvanceAllKeepsLanguage(rules, init, bound, w);
      AdvanceKeepsLanguage(rules, last, w);
      SomeAcceptsLast(rules, sts, w);
      SomeAcceptsConcat(rules, AdvanceAll(rules, init, bound), AdvanceStack(rules, last), w);
    }
  }
}
