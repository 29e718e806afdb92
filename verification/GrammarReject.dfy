/**
 Pruning token lists: `RejectCandidates` runs many candidates through the stacks at once and returns the
 ones that no stack lets through. It agrees with accepting the candidates one at a time.
 */
module GrammarReject {
  import opened Binary
  import opened Grammar
  import opened GrammarStacks
  import opened GrammarAccept
  import Sequences

  /** A token: a pointer `offset` into its zero-terminated code points, and how its last sequence ended. */
  datatype Candidate = Candidate(id: nat, codePoints: seq<nat>, offset: nat, partial: Partial)

  predicate Terminated(c: Candidate) {
    c.offset < |c.codePoints| && c.codePoints[|c.codePoints| - 1] == 0 && c.partial.remaining <= 3
  }

  function CodeAt(c: Candidate): nat {
    if c.offset < |c.codePoints| then c.codePoints[c.offset] else 0
  }

  function Next(c: Candidate): Candidate {
    c.(offset := c.offset + 1)
  }

  function Previous(c: Candidate): Candidate
    requires c.offset > 0
  {
    c.(offset := c.offset - 1)
  }

  const UINT32 := 0x1_0000_0000

  /** 2^(6 * n); a sequence misses at most three bytes. */
  function Shift6(n: int): nat
  {
    if n == 0 then 1 else if n == 1 then 0x40 else if n == 2 then 0x1000 else 0x4_0000
  }

  /** The lowest code point a partial sequence can complete to; overlong forms are excluded. */
  function PartialLow(partial: Partial): nat
  {
    var low := (partial.value * Shift6(partial.remaining)) % UINT32;
    if low == 0 && partial.remaining == 2 then 0x800
    else if low == 0 && partial.remaining == 3 then 0x1_0000
    else low
  }

  function PartialHigh(partial: Partial): nat
  {
    (partial.value * Shift6(partial.remaining)) % UINT32 + Shift6(partial.remaining) - 1
  }

  /** Some character or range listed from `i` on meets `[low, high]`. */
  predicate Meets(rule: seq<Elem>, i: nat, low: nat, high: nat, ghost ruleCount: nat)
    requires WellFormedRule(rule, ruleCount) && i < |rule| && ClassElem(rule[i].kind)
    decreases |rule| - i
  {
    var e := ElemEnd(rule, i, ruleCount);
    var upper := if rule[i + 1].kind == CharRngUpper then rule[i + 1].value else rule[i].value;
    || (rule[i].value <= high && low <= upper)
    || (rule[e].kind == CharAlt && Meets(rule, e, low, high, ruleCount))
  }

  /** The code's test; for a negated class it answers false as soon as one listed range meets the interval. */
  predicate MatchesPartial(rules: Rules, p: Pos, partial: Partial)
    requires WellFormed(rules) && TerminalPos(rules, p)
  {
    if partial.remaining < 0 || (partial.remaining == 1 && partial.value < 2) then false
    else
      Meets(rules[p.rule], p.index, PartialLow(partial), PartialHigh(partial), |rules|)
      == (KindAt(rules, p) == Char)
  }

  method MatchPartialChar(rules: Rules, p: Pos, partial: Partial) returns (matched: bool)
    requires WellFormed(rules) && TerminalPos(rules, p)
    ensures matched == MatchesPartial(rules, p, partial)
  {
    if partial.remaining < 0 || (partial.remaining == 1 && partial.value < 2) {
      return false;
    }
    var rule := rules[p.rule];
    var positive := rule[p.index].kind == Char;
    var low, high := PartialLow(partial), PartialHigh(partial);
    var i, more := p.index, true;
    while more
      invariant p.index <= i < |rule|
      invariant more ==> ClassElem(rule[i].kind)
                         && Meets(rule, p.index, low, high, |rules|) == Meets(rule, i, low, high, |rules|)
      invariant !more ==> !Meets(rule, p.index, low, high, |rules|)
      decreases |rule| - i, more
    {
      var e := ElemEnd(rule, i, |rules|);
      if rule[i + 1].kind == CharRngUpper {
        if rule[i].value <= high && low <= rule[i + 1].value {
          return positive;
        }
      } else if low <= rule[i].value && rule[i].value <= high {
        return positive;
      }
      i := e;
      more := rule[i].kind == CharAlt;
    }
    return !positive;
  }

  // ---------------------------------------------------------------------------------------------
  // What an incomplete sequence can still become
  // ---------------------------------------------------------------------------------------------

  /** Not malformed, and not the start of an overlong form of two bytes. */
  predicate Completable(partial: Partial) {
    partial.remaining >= 0 && !(partial.remaining == 1 && partial.value < 2)
  }

  /** `c` has the bits so far in front, and is not too small for its number of bytes. */
  predicate CanBecome(partial: Partial, c: nat) {
    && Completable(partial)
    && partial.value * Shift6(partial.remaining) <= c < (partial.value + 1) * Shift6(partial.remaining)
    && (partial.value == 0 && partial.remaining == 2 ==> c >= 0x800)
    && (partial.value == 0 && partial.remaining == 3 ==> c >= 0x1_0000)
  }

  /** No range of the class listed from `i` on is empty. */
  predicate RangesInOrder(rule: seq<Elem>, i: nat, ghost ruleCount: nat)
    requires WellFormedRule(rule, ruleCount) && i < |rule| && ClassElem(rule[i].kind)
    decreases |rule| - i
  {
    var e := ElemEnd(rule, i, ruleCount);
    && (rule[i + 1].kind == CharRngUpper ==> rule[i].value <= rule[i + 1].value)
    && (rule[e].kind == CharAlt ==> RangesInOrder(rule, e, ruleCount))
  }

  ghost predicate ListedWithin(rule: seq<Elem>, i: nat, low: nat, high: nat, c: nat, ruleCount: nat)
    requires WellFormedRule(rule, ruleCount) && i < |rule| && ClassElem(rule[i].kind)
  {
    low <= c <= high && Listed(rule, i, c, ruleCount)
  }

  /** If an interval meets a class, the class lists one of its members. */
  lemma {:induction false} MeetsListed(rule: seq<Elem>, i: nat, low: nat, high: nat, ruleCount: nat) returns (c: nat)
    requires WellFormedRule(rule, ruleCount) && i < |rule| && ClassElem(rule[i].kind)
    requires low <= high && RangesInOrder(rule, i, ruleCount) && Meets(rule, i, low, high, ruleCount)
    ensures ListedWithin(rule, i, low, high, c, ruleCount)
    decreases |rule| - i
  {
    var lower := rule[i].value;
    var upper := if rule[i + 1].kind == CharRngUpper then rule[i + 1].value else lower;
    if lower <= high && low <= upper {
      c := if lower < low then low else lower;
    } else {
      c := MeetsListed(rule, ElemEnd(rule, i, ruleCount), low, high, ruleCount);
    }
  }

  /** And conversely. */
  lemma {:induction false} ListedMeets(rule: seq<Elem>, i: nat, low: nat, high: nat, c: nat, ruleCount: nat)
    requires WellFormedRule(rule, ruleCount) && i < |rule| && ClassElem(rule[i].kind)
    requires ListedWithin(rule, i, low, high, c, ruleCount)
    ensures Meets(rule, i, low, high, ruleCount)
    decreases |rule| - i
  {
    if !ElemCovers(rule, i, c) {
      ListedMeets(rule, ElemEnd(rule, i, ruleCount), low, high, c, ruleCount);
    }
  }

  /** The interval is that of the completions; nothing wraps around for what a decoder carries over. */
  lemma {:induction false} IntervalIsCompletions(partial: Partial, c: nat)
    requires Completable(partial) && (partial.value + 1) * Shift6(partial.remaining) <= UINT32
    ensures PartialLow(partial) <= PartialHigh(partial)
    ensures CanBecome(partial, c) <==> PartialLow(partial) <= c <= PartialHigh(partial)
  {
    assert partial.value == 0 <==> partial.value * Shift6(partial.remaining) == 0;
  }

  /** Some completion is listed in the class at `p`. */
  ghost predicate SomeListed(rules: Rules, p: Pos, partial: Partial)
    requires WellFormed(rules) && TerminalPos(rules, p)
  {
    exists c: nat :: CanBecome(partial, c) && Listed(rules[p.rule], p.index, c, |rules|)
  }

  lemma {:induction false} MeetsCompletions(rules: Rules, p: Pos, partial: Partial)
    requires WellFormed(rules) && TerminalPos(rules, p) && RangesInOrder(rules[p.rule], p.index, |rules|)
    requires Completable(partial) && (partial.value + 1) * Shift6(partial.remaining) <= UINT32
    ensures Meets(rules[p.rule], p.index, PartialLow(partial), PartialHigh(partial), |rules|)
            <==> SomeListed(rules, p, partial)
  {
    var rule, low, high := rules[p.rule], PartialLow(partial), PartialHigh(partial);
    IntervalIsCompletions(partial, 0);
    if Meets(rule, p.index, low, high, |rules|) {
      var c := MeetsListed(rule, p.index, low, high, |rules|);
      IntervalIsCompletions(partial, c);
    }
    if SomeListed(rules, p, partial) {
      var c: nat :| CanBecome(partial, c) && Listed(rule, p.index, c, |rules|);
      IntervalIsCompletions(partial, c);
      ListedMeets(rule, p.index, low, high, c, |rules|);
    }
  }

  /** The class at `p` matches something, or everything, that the sequence can become. */
  ghost predicate MatchesSome(rules: Rules, p: Pos, partial: Partial)
    requires WellFormed(rules) && TerminalPos(rules, p)
  {
    exists c: nat :: CanBecome(partial, c) && Matches(rules, p, c)
  }

  ghost predicate MatchesAll(rules: Rules, p: Pos, partial: Partial)
    requires WellFormed(rules) && TerminalPos(rules, p)
  {
    forall c: nat :: CanBecome(partial, c) ==> Matches(rules, p, c)
  }

  /**
   A class of listed characters lets an incomplete sequence through exactly if it matches something that the sequence
   can become, a negated class exactly if it matches everything that the sequence can become.
   */
  lemma {:induction false} MatchesPartialExactlyIf(rules: Rules, p: Pos, partial: Partial)
    requires WellFormed(rules) && TerminalPos(rules, p) && RangesInOrder(rules[p.rule], p.index, |rules|)
    requires (partial.value + 1) * Shift6(partial.remaining) <= UINT32
    ensures KindAt(rules, p) == Char ==> (MatchesPartial(rules, p, partial) <==> MatchesSome(rules, p, partial))
    ensures KindAt(rules, p) == CharNot ==>
              (MatchesPartial(rules, p, partial) <==> Completable(partial) && MatchesAll(rules, p, partial))
  {
    if Completable(partial) {
      MeetsCompletions(rules, p, partial);
      if KindAt(rules, p) == Char {
        assert forall c: nat :: Matches(rules, p, c) <==> Listed(rules[p.rule], p.index, c, |rules|);
      } else {
        assert forall c: nat :: Matches(rules, p, c) <==> !Listed(rules[p.rule], p.index, c, |rules|);
      }
    }
  }

  // ---------------------------------------------------------------------------------------------
  // When a single candidate is rejected
  // ---------------------------------------------------------------------------------------------

  /** The stack below the top with what follows the class on top pushed. */
  function AfterTop(rules: Rules, st: Stack): (r: Stack)
    requires WellFormed(rules) && Advanced(rules, st) && st.Item?
    ensures StackOk(rules, r)
  {
    PushItem(rules, st.below, AfterClass(rules, st.top))
  }

  /** Decided by the top of the stack alone. */
  predicate RejectedHere(rules: Rules, st: Stack, c: Candidate)
    requires WellFormed(rules) && Advanced(rules, st)
  {
    if st.Bottom? then CodeAt(c) != 0 || c.partial.remaining != 0
    else if CodeAt(c) == 0 then c.partial.remaining != 0 && !MatchesPartial(rules, st.top, c.partial)
    else !Matches(rules, st.top, CodeAt(c))
  }

  predicate PassesHere(rules: Rules, st: Stack, c: Candidate)
    requires WellFormed(rules) && Advanced(rules, st)
  {
    st.Item? && CodeAt(c) != 0 && Matches(rules, st.top, CodeAt(c))
  }

  ghost predicate RejectedByStack(rules: Rules, st: Stack, c: Candidate)
    requires Usable(rules) && Advanced(rules, st)
    decreases |c.codePoints| - c.offset, 0, 0
  {
    || RejectedHere(rules, st, c)
    || (PassesHere(rules, st, c) &&
        (AdvanceStackAdvanced(rules, AfterTop(rules, st));
         RejectedByAll(rules, AdvanceStack(rules, AfterTop(rules, st)), Next(c))))
  }

  /** Every one of the stacks rejects the candidate. */
  ghost predicate RejectedByAll(rules: Rules, stacks: seq<Stack>, c: Candidate)
    requires Usable(rules) && AllAdvanced(rules, stacks)
    decreases |c.codePoints| - c.offset, 1, |stacks|
  {
    stacks == [] || (RejectedByAll(rules, stacks[..|stacks| - 1], c) && RejectedByStack(rules, stacks[|stacks| - 1], c))
  }

  lemma {:induction false} RejectedByStackCases(rules: Rules, st: Stack, c: Candidate)
    requires Usable(rules) && Advanced(rules, st) && st.Item?
    ensures AllAdvanced(rules, AdvanceStack(rules, AfterTop(rules, st)))
    ensures !(RejectedHere(rules, st, c) && PassesHere(rules, st, c))
    ensures RejectedByStack(rules, st, c) <==>
            || RejectedHere(rules, st, c)
            || (PassesHere(rules, st, c) && RejectedByAll(rules, AdvanceStack(rules, AfterTop(rules, st)), Next(c)))
  {
    AdvanceStackAdvanced(rules, AfterTop(rules, st));
  }

  // ---------------------------------------------------------------------------------------------
  // The list algorithm
  // ---------------------------------------------------------------------------------------------

  predicate AllReadable(cs: seq<Candidate>) {
    forall i :: 0 <= i < |cs| ==> Terminated(cs[i])
  }

  /** One more than the most code points left in a candidate. */
  ghost function Fuel(cs: seq<Candidate>): nat {
    if cs == [] then 0
    else
      var last := cs[|cs| - 1];
      var own := if last.offset < |last.codePoints| then |last.codePoints| - last.offset else 0;
      var rest := Fuel(cs[..|cs| - 1]);
      if own < rest then rest else own
  }

  lemma {:induction false} FuelCovers(cs: seq<Candidate>, i: nat)
    requires i < |cs|
    ensures |cs[i].codePoints| - cs[i].offset <= Fuel(cs)
  {
    if i < |cs| - 1 {
      FuelCovers(cs[..|cs| - 1], i);
    }
  }

  lemma {:induction false} FuelBounded(cs: seq<Candidate>, n: nat)
    requires forall i :: 0 <= i < |cs| ==> |cs[i].codePoints| - cs[i].offset <= n
    ensures Fuel(cs) <= n
  {
    if cs != [] {
      FuelBounded(cs[..|cs| - 1], n);
    }
  }

  /** How often `c` occurs. */
  ghost function Times(cs: seq<Candidate>, c: Candidate): nat {
    if cs == [] then 0 else Times(cs[..|cs| - 1], c) + if cs[|cs| - 1] == c then 1 else 0
  }

  lemma {:induction false} TimesIsMultiplicity(cs: seq<Candidate>, c: Candidate)
    ensures Times(cs, c) == multiset(cs)[c]
  {
    if cs != [] {
      TimesIsMultiplicity(cs[..|cs| - 1], c);
      assert cs == cs[..|cs| - 1] + [cs[|cs| - 1]];
    }
  }

  lemma {:induction false} TimesAppend(cs: seq<Candidate>, x: Candidate, c: Candidate)
    ensures Times(cs + [x], c) == Times(cs, c) + if c == x then 1 else 0
  {
  }

  lemma {:induction false} Occurs(cs: seq<Candidate>, c: Candidate)
    ensures Times(cs, c) > 0 <==> exists i :: 0 <= i < |cs| && cs[i] == c
  {
    TimesIsMultiplicity(cs, c);
    assert c in multiset(cs) <==> c in cs;
  }

  /** A list in which nothing occurs more often than in `whole` inherits what holds of the members. */
  lemma {:induction false} PartOf(part: seq<Candidate>, whole: seq<Candidate>)
    requires forall c :: Times(part, c) <= Times(whole, c)
    ensures AllReadable(whole) ==> AllReadable(part)
    ensures Fuel(part) <= Fuel(whole)
  {
    forall i | 0 <= i < |part|
      ensures exists j :: 0 <= j < |whole| && whole[j] == part[i]
      ensures |part[i].codePoints| - part[i].offset <= Fuel(whole)
    {
      Occurs(part, part[i]);
      Occurs(whole, part[i]);
      var j :| 0 <= j < |whole| && whole[j] == part[i];
      FuelCovers(whole, j);
    }
    FuelBounded(part, Fuel(whole));
  }

  ghost predicate IsNext(c: Candidate, fuel: nat) {
    Terminated(c) && c.offset > 0 && |c.codePoints| - c.offset < fuel
  }

  ghost predicate AllNext(cs: seq<Candidate>, fuel: nat) {
    forall k :: 0 <= k < |cs| ==> IsNext(cs[k], fuel)
  }

  lemma {:induction false} AllNextAppend(cs: seq<Candidate>, x: Candidate, fuel: nat)
    requires AllNext(cs, fuel) && IsNext(x, fuel)
    ensures AllNext(cs + [x], fuel)
  {
  }

  lemma {:induction false} AllNextFuel(cs: seq<Candidate>, fuel: nat)
    requires AllNext(cs, fuel)
    ensures AllReadable(cs) && Fuel(cs) <= fuel && (cs != [] ==> Fuel(cs) < fuel)
  {
    assert cs != [] ==> IsNext(cs[0], fuel);
    FuelBounded(cs, if cs == [] then 0 else fuel - 1);
  }

  /** `rejects` are the candidates the top rejects, `next` those that pass it, moved on by one code point. */
  ghost predicate Parts(rules: Rules, st: Stack, cs: seq<Candidate>, rejects: seq<Candidate>, next: seq<Candidate>)
    requires WellFormed(rules) && Advanced(rules, st)
  {
    forall c :: PartsAt(rules, st, cs, rejects, next, c)
  }

  ghost predicate PartsAt(rules: Rules, st: Stack, cs: seq<Candidate>, rejects: seq<Candidate>, next: seq<Candidate>,
                          c: Candidate)
    requires WellFormed(rules) && Advanced(rules, st)
  {
    && Times(rejects, c) == (if RejectedHere(rules, st, c) then Times(cs, c) else 0)
    && Times(next, Next(c)) == (if PassesHere(rules, st, c) then Times(cs, c) else 0)
  }

  lemma {:induction false} PartsStep(rules: Rules, st: Stack, cs: seq<Candidate>, rejects: seq<Candidate>,
                                     next: seq<Candidate>, x: Candidate, reject: bool, pass: bool)
    requires WellFormed(rules) && Advanced(rules, st) && Parts(rules, st, cs, rejects, next)
    requires reject == RejectedHere(rules, st, x) && pass == PassesHere(rules, st, x) && !(reject && pass)
    ensures Parts(rules, st, cs + [x], if reject then rejects + [x] else rejects, if pass then next + [Next(x)]
            else next)
  {
    var rejects', next' := if reject then rejects + [x] else rejects, if pass then next + [Next(x)] else next;
    forall c
      ensures PartsAt(rules, st, cs + [x], rejects', next', c)
    {
      assert PartsAt(rules, st, cs, rejects, next, c);
      TimesAppend(cs, x, c);
      TimesAppend(rejects, x, c);
      TimesAppend(next, Next(x), Next(c));
      assert Next(c) == Next(x) ==> Previous(Next(c)) == Previous(Next(x));
    }
  }

  /** What the top of the stack says about one candidate. */
  method Classify(rules: Rules, st: Stack, tok: Candidate) returns (reject: bool, pass: bool)
    requires Usable(rules) && Advanced(rules, st) && Terminated(tok)
    ensures reject == RejectedHere(rules, st, tok) && pass == PassesHere(rules, st, tok)
    ensures pass ==> !reject && tok.offset + 1 < |tok.codePoints|
  {
    if st.Bottom? {
      return tok.codePoints[tok.offset] != 0 || tok.partial.remaining != 0, false;
    }
    if tok.codePoints[tok.offset] == 0 {
      if tok.partial.remaining == 0 {
        return false, false;
      }
      var matched := MatchPartialChar(rules, st.top, tok.partial);
      return !matched, false;
    }
    var matched, _ := MatchChar(rules, st.top, tok.codePoints[tok.offset]);
    return !matched, matched;
  }

  /** Sorts the candidates by what the top of the stack says; the others are already satisfied. */
  method Partition(rules: Rules, st: Stack, candidates: seq<Candidate>)
    returns (rejects: seq<Candidate>, next: seq<Candidate>)
    requires Usable(rules) && Advanced(rules, st) && AllReadable(candidates)
    ensures Parts(rules, st, candidates, rejects, next) && AllNext(next, Fuel(candidates))
  {
    rejects, next := [], [];
    for i := 0 to |candidates|
      invariant Parts(rules, st, candidates[..i], rejects, next)
      invariant AllNext(next, Fuel(candidates))
    {
      var tok := candidates[i];
      var reject, pass := Classify(rules, st, tok);
      PartsStep(rules, st, candidates[..i], rejects, next, tok, reject, pass);
      assert candidates[..i + 1] == candidates[..i] + [tok];
      FuelCovers(candidates, i);
      if reject {
        rejects := rejects + [tok];
      } else if pass {
        AllNextAppend(next, Next(tok), Fuel(candidates));
        next := next + [Next(tok)];
      }
    }
    assert candidates[..|candidates|] == candidates;
    AllNextFuel(next, Fuel(candidates));
  }

  /** Moves the pointers of the candidates rejected one position later back. */
  lemma {:induction false} OneBack(all: seq<Candidate>, later: seq<Candidate>, tok: Candidate, c: Candidate)
    ensures Times(all + [tok], c) - Times(all, c) == Times(later + [Next(tok)], Next(c)) - Times(later, Next(c))
  {
    TimesAppend(all, tok, c);
    TimesAppend(later, Next(tok), Next(c));
    NextInjective(c, tok);
  }

  lemma {:induction false} NextInjective(c: Candidate, d: Candidate)
    ensures Next(c) == Next(d) <==> c == d
  {
    assert Previous(Next(c)) == c && Previous(Next(d)) == d;
  }

  method StepBack(rejects: seq<Candidate>, later: seq<Candidate>) returns (all: seq<Candidate>)
    requires forall k :: 0 <= k < |later| ==> later[k].offset > 0
    ensures forall c :: Times(all, c) == Times(rejects, c) + Times(later, Next(c))
  {
    all := rejects;
    for k := 0 to |later|
      invariant forall c :: Times(all, c) == Times(rejects, c) + Times(later[..k], Next(c))
    {
      var tok := Previous(later[k]);
      assert later[..k + 1] == later[..k] + [Next(tok)];
      forall c
        ensures Times(all + [tok], c) == Times(rejects, c) + Times(later[..k + 1], Next(c))
      {
        OneBack(all, later[..k], tok, c);
      }
      all := all + [tok];
    }
    assert later[..|later|] == later;
  }

  /** Keeps, with their multiplicity, exactly the candidates that the stack rejects. */
  method RejectCandidatesForStack(rules: Rules, st: Stack, candidates: seq<Candidate>) returns (rejects: seq<Candidate>)
    requires Usable(rules) && Advanced(rules, st) && AllReadable(candidates)
    ensures forall c :: Times(rejects, c) == if RejectedByStack(rules, st, c) then Times(candidates, c) else 0
    decreases Fuel(candidates), 1, 0
  {
    var next;
    rejects, next := Partition(rules, st, candidates);
    if st.Bottom? {
      forall c
        ensures Times(rejects, c) == if RejectedByStack(rules, st, c) then Times(candidates, c) else 0
      {
        assert PartsAt(rules, st, candidates, rejects, next, c);
      }
    } else {
      AdvanceStackAdvanced(rules, AfterTop(rules, st));
      var nextStacks := AdvanceStackInto(rules, AfterTop(rules, st), []);
      Sequences.EmptyLeft(AdvanceStack(rules, AfterTop(rules, st)));
      AllNextFuel(next, Fuel(candidates));
      var nextRejects := RejectCandidates(rules, nextStacks, next);
      forall k | 0 <= k < |nextRejects|
        ensures nextRejects[k].offset > 0
      {
        Occurs(nextRejects, nextRejects[k]);
        Occurs(next, nextRejects[k]);
      }
      var here := rejects;
      rejects := StepBack(here, nextRejects);
      forall c
        ensures Times(rejects, c) == if RejectedByStack(rules, st, c) then Times(candidates, c) else 0
      {
        assert Times(rejects, c) == Times(here, c) + Times(nextRejects, Next(c));
        assert PartsAt(rules, st, candidates, here, next, c);
        RejectedByStackCases(rules, st, c);
      }
    }
  }

  /** Keeps exactly the candidates that every stack rejects; without stacks nothing is rejected. */
  method RejectCandidates(rules: Rules, stacks: seq<Stack>, candidates: seq<Candidate>)
    returns (rejects: seq<Candidate>)
    requires Usable(rules) && AllAdvanced(rules, stacks) && AllReadable(candidates)
    ensures stacks == [] ==> rejects == []
    ensures stacks != [] ==>
              forall c :: Times(rejects, c) == if RejectedByAll(rules, stacks, c) then Times(candidates, c) else 0
    decreases Fuel(candidates), if candidates == [] || stacks == [] then 0 else 2, 0
  {
    if candidates == [] || stacks == [] {
      return [];
    }
    rejects := candidates;
    for i := 0 to |stacks|
      invariant forall c :: Times(rejects, c) == if RejectedByAll(rules, stacks[..i], c) then Times(candidates, c)
                else 0
    {
      assert stacks[..i + 1][..i] == stacks[..i];
      PartOf(rejects, candidates);
      rejects := RejectCandidatesForStack(rules, stacks[i], rejects);
    }
    assert stacks[..|stacks|] == stacks;
  }

  // ---------------------------------------------------------------------------------------------
  // Pruning agrees with accepting
  // ---------------------------------------------------------------------------------------------

  /** A token without zero code points that ends on a code-point boundary. */
  ghost predicate Complete(c: Candidate) {
    && Terminated(c) && c.partial.remaining == 0
    && forall i :: c.offset <= i < |c.codePoints| - 1 ==> c.codePoints[i] != 0
  }

  /** The code points from the pointer to the terminating zero. */
  ghost function Remaining(c: Candidate): seq<nat>
    requires Terminated(c)
  {
    c.codePoints[c.offset..|c.codePoints| - 1]
  }

  lemma {:induction false} AcceptConcat(rules: Rules, s: seq<Stack>, t: seq<Stack>, c: nat)
    requires Usable(rules) && AllAdvanced(rules, s) && AllAdvanced(rules, t)
    ensures Accept(rules, s + t, c) == Accept(rules, s, c) + Accept(rules, t, c)
  {
    if t == [] {
      assert s + t == s;
    } else {
      var init, last := t[..|t| - 1], t[|t| - 1];
      AcceptConcat(rules, s, init, c);
      assert (s + t)[..|s + t| - 1] == s + init;
      Sequences.Associative(Accept(rules, s, c), Accept(rules, init, c), AcceptOne(rules, last, c));
    }
  }

  lemma {:induction false} AcceptAllConcat(rules: Rules, s: seq<Stack>, t: seq<Stack>, u: seq<nat>)
    requires Usable(rules) && AllAdvanced(rules, s) && AllAdvanced(rules, t)
    ensures AcceptAll(rules, s + t, u) == AcceptAll(rules, s, u) + AcceptAll(rules, t, u)
    decreases |u|
  {
    if u != [] {
      AcceptConcat(rules, s, t, u[0]);
      AcceptAdvanced(rules, s, u[0]);
      AcceptAdvanced(rules, t, u[0]);
      AcceptAllConcat(rules, Accept(rules, s, u[0]), Accept(rules, t, u[0]), u[1..]);
    }
  }

  lemma {:induction false} AcceptAllLast(rules: Rules, stacks: seq<Stack>, u: seq<nat>)
    requires Usable(rules) && AllAdvanced(rules, stacks) && stacks != []
    ensures AcceptAll(rules, stacks, u) == [] <==>
            AcceptAll(rules, stacks[..|stacks| - 1], u) == [] && AcceptAll(rules, [stacks[|stacks| - 1]], u) == []
  {
    assert stacks[..|stacks| - 1] + [stacks[|stacks| - 1]] == stacks;
    AcceptAllConcat(rules, stacks[..|stacks| - 1], [stacks[|stacks| - 1]], u);
  }

  lemma {:induction false} AcceptSingle(rules: Rules, st: Stack, c: nat)
    requires Usable(rules) && Advanced(rules, st)
    ensures Accept(rules, [st], c) == AcceptOne(rules, st, c)
  {
  }

  lemma {:induction false} StackPruningAgrees(rules: Rules, st: Stack, c: Candidate)
    requires Usable(rules) && Advanced(rules, st) && Complete(c)
    ensures RejectedByStack(rules, st, c) <==> AcceptAll(rules, [st], Remaining(c)) == []
    decreases |c.codePoints| - c.offset, 0, 0
  {
    var u := Remaining(c);
    if u != [] {
      AcceptSingle(rules, st, u[0]);
      if PassesHere(rules, st, c) {
        RejectedByStackCases(rules, st, c);
        RemainingStep(c);
        PruningAgrees(rules, AdvanceStack(rules, AfterTop(rules, st)), Next(c));
      } else {
        NothingLeft(rules, u[1..]);
      }
    }
  }

  lemma {:induction false} RemainingStep(c: Candidate)
    requires Complete(c) && CodeAt(c) != 0
    ensures Complete(Next(c)) && Remaining(Next(c)) == Remaining(c)[1..]
  {
  }

  /** A complete token is rejected exactly when accepting its code points leaves no stack. */
  lemma {:induction false} PruningAgrees(rules: Rules, stacks: seq<Stack>, c: Candidate)
    requires Usable(rules) && AllAdvanced(rules, stacks) && Complete(c)
    ensures RejectedByAll(rules, stacks, c) <==> AcceptAll(rules, stacks, Remaining(c)) == []
    decreases |c.codePoints| - c.offset, 1, |stacks|
  {
    if stacks == [] {
      NothingLeft(rules, Remaining(c));
    } else {
      var init, last := stacks[..|stacks| - 1], stacks[|stacks| - 1];
      PruningAgrees(rules, init, c);
      StackPruningAgrees(rules, last, c);
      AcceptAllLast(rules, stacks, Remaining(c));
    }
  }

  /** No word of the language starts with a rejected token. */
  lemma {:induction false} PruningIsSafe(rules: Rules, stacks: seq<Stack>, c: Candidate, w: seq<nat>)
    requires Usable(rules) && AllAdvanced(rules, stacks) && Complete(c)
    requires RejectedByAll(rules, stacks, c)
    ensures !SomeAccepts(rules, stacks, Remaining(c) + w)
  {
    PruningAgrees(rules, stacks, c);
    AcceptAllIsDerivative(rules, stacks, Remaining(c), w);
  }
}
