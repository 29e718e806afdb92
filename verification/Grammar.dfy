/**
 Grammar-constrained decoding: rules are flat arrays of elements, a stack is a list of positions
 inside rules, and a grammar state is a list of stacks.

 The meaning of a stack is given by `Accepts`, through the usual context-free derivation trees, which
 know nothing about how stacks are advanced.
 */
module Grammar {

  datatype Kind = End | Alt | RuleRef | Char | CharNot | CharRngUpper | CharAlt

  datatype Elem = Elem(kind: Kind, value: nat)

  type Rules = seq<seq<Elem>>

  /** A pointer into a rule. */
  datatype Pos = Pos(rule: nat, index: nat)

  /** The vector of positions, read from its back. */
  datatype Stack = Bottom | Item(below: Stack, top: Pos)

  // ---------------------------------------------------------------------------------------------
  // Shape of rules
  // ---------------------------------------------------------------------------------------------

  ghost predicate ClassElem(k: Kind) {
    k == Char || k == CharNot || k == CharAlt
  }

  /**
   END is the last element only; a reference names a rule; range ends and class alternates only follow
   an element they can modify.
   */
  ghost predicate ElemOk(rule: seq<Elem>, i: nat, ruleCount: nat)
    requires i < |rule|
  {
    var k := rule[i].kind;
    && (k == End <==> i == |rule| - 1)
    && (k == RuleRef ==> rule[i].value < ruleCount)
    && (k == CharRngUpper ==> i > 0 && ClassElem(rule[i - 1].kind))
    && (k == CharAlt ==> i > 0 && (ClassElem(rule[i - 1].kind) || rule[i - 1].kind == CharRngUpper))
  }

  ghost predicate WellFormedRule(rule: seq<Elem>, ruleCount: nat) {
    |rule| > 0 && forall i {:trigger ElemOk(rule, i, ruleCount)} :: 0 <= i < |rule| ==> ElemOk(rule, i, ruleCount)
  }

  ghost predicate WellFormed(rules: Rules) {
    forall r :: 0 <= r < |rules| ==> WellFormedRule(rules[r], |rules|)
  }

  predicate ValidPos(rules: Rules, p: Pos) {
    p.rule < |rules| && p.index < |rules[p.rule]|
  }

  function KindAt(rules: Rules, p: Pos): Kind
    requires ValidPos(rules, p)
  {
    rules[p.rule][p.index].kind
  }

  predicate IsEndOfSequence(k: Kind) {
    k == End || k == Alt
  }

  /** A position at the start of an item: not in the middle of a character class. */
  predicate ItemPos(rules: Rules, p: Pos) {
    ValidPos(rules, p) && KindAt(rules, p) != CharRngUpper && KindAt(rules, p) != CharAlt
  }

  predicate TerminalPos(rules: Rules, p: Pos) {
    ValidPos(rules, p) && (KindAt(rules, p) == Char || KindAt(rules, p) == CharNot)
  }

  predicate StackOk(rules: Rules, st: Stack) {
    st.Item? ==> ItemPos(rules, st.top) && !IsEndOfSequence(KindAt(rules, st.top)) && StackOk(rules, st.below)
  }

  /** Empty, or positioned at a character class. */
  predicate Advanced(rules: Rules, st: Stack) {
    StackOk(rules, st) && (st.Item? ==> TerminalPos(rules, st.top))
  }

  /** An alternate of a rule starts at its first element or right after an ALT. */
  ghost predicate AltStart(rules: Rules, q: nat, a: nat)
  {
    && q < |rules| && a < |rules[q]|
    && (a == 0 || rules[q][a - 1].kind == Alt)
  }

  /** The first END or ALT at or after `i`. */
  function SeqEnd(rule: seq<Elem>, i: nat, ghost ruleCount: nat): (e: nat)
    requires WellFormedRule(rule, ruleCount) && i < |rule|
    ensures i <= e < |rule| && IsEndOfSequence(rule[e].kind) && (rule[e].kind == Alt ==> e + 1 < |rule|)
    decreases |rule| - i
  {
    assert ElemOk(rule, i, ruleCount);
    if IsEndOfSequence(rule[i].kind) then i else SeqEnd(rule, i + 1, ruleCount)
  }

  lemma {:induction false} SeqEndIsFirst(rule: seq<Elem>, i: nat, j: nat, ruleCount: nat)
    requires WellFormedRule(rule, ruleCount) && i < |rule| && i <= j < SeqEnd(rule, i, ruleCount)
    ensures !IsEndOfSequence(rule[j].kind)
    decreases j - i
  {
    if i < j {
      SeqEndIsFirst(rule, i + 1, j, ruleCount);
    }
  }

  // ---------------------------------------------------------------------------------------------
  // Character classes
  // ---------------------------------------------------------------------------------------------

  /** One past the element (and its range end, if any) at `i`. */
  function ElemEnd(rule: seq<Elem>, i: nat, ghost ruleCount: nat): (e: nat)
    requires WellFormedRule(rule, ruleCount) && i < |rule| && ClassElem(rule[i].kind)
    ensures i < e < |rule| && rule[e].kind != CharRngUpper
  {
    assert ElemOk(rule, i, ruleCount) && ElemOk(rule, i + 1, ruleCount);
    assert rule[i + 1].kind == CharRngUpper ==> ElemOk(rule, i + 2, ruleCount);
    if rule[i + 1].kind == CharRngUpper then i + 2 else i + 1
  }

  /** Where a character class that starts at `i` ends. */
  function ClassEnd(rule: seq<Elem>, i: nat, ghost ruleCount: nat): (e: nat)
    requires WellFormedRule(rule, ruleCount) && i < |rule| && ClassElem(rule[i].kind)
    ensures i < e < |rule| && rule[e].kind != CharRngUpper && rule[e].kind != CharAlt
    decreases |rule| - i
  {
    var e := ElemEnd(rule, i, ruleCount);
    if rule[e].kind == CharAlt then ClassEnd(rule, e, ruleCount) else e
  }

  predicate ElemCovers(rule: seq<Elem>, i: nat, c: nat)
    requires i + 1 < |rule|
  {
    if rule[i + 1].kind == CharRngUpper then rule[i].value <= c <= rule[i + 1].value else rule[i].value == c
  }

  /** Some character or range of the class listed from `i` on contains `c`. */
  predicate Listed(rule: seq<Elem>, i: nat, c: nat, ghost ruleCount: nat)
    requires WellFormedRule(rule, ruleCount) && i < |rule| && ClassElem(rule[i].kind)
    decreases |rule| - i
  {
    var e := ElemEnd(rule, i, ruleCount);
    ElemCovers(rule, i, c) || (rule[e].kind == CharAlt && Listed(rule, e, c, ruleCount))
  }

  predicate Matches(rules: Rules, p: Pos, c: nat)
    requires WellFormed(rules) && TerminalPos(rules, p)
  {
    Listed(rules[p.rule], p.index, c, |rules|) == (KindAt(rules, p) == Char)
  }

  function AfterClass(rules: Rules, p: Pos): (q: Pos)
    requires WellFormed(rules) && TerminalPos(rules, p)
    ensures ItemPos(rules, q) && q.rule == p.rule && q.index > p.index
  {
    Pos(p.rule, ClassEnd(rules[p.rule], p.index, |rules|))
  }

  predicate RefPos(rules: Rules, p: Pos) {
    ValidPos(rules, p) && KindAt(rules, p) == RuleRef
  }

  /** The position after a rule reference. */
  function After(rules: Rules, p: Pos): (q: Pos)
    requires WellFormed(rules) && RefPos(rules, p)
    ensures ItemPos(rules, q) && q == Pos(p.rule, p.index + 1)
  {
    assert ElemOk(rules[p.rule], p.index, |rules|) && ElemOk(rules[p.rule], p.index + 1, |rules|);
    Pos(p.rule, p.index + 1)
  }

  function AltPos(rules: Rules, q: nat, a: nat): (p: Pos)
    requires WellFormed(rules) && AltStart(rules, q, a)
    ensures ItemPos(rules, p) && p == Pos(q, a)
  {
    assert ElemOk(rules[q], a, |rules|);
    Pos(q, a)
  }

  function RefAt(rules: Rules, p: Pos): (q: nat)
    requires WellFormed(rules) && RefPos(rules, p)
    ensures q < |rules|
  {
    assert ElemOk(rules[p.rule], p.index, |rules|);
    rules[p.rule][p.index].value
  }

  /** Tests a character against the class at `p`; the end position does not depend on the character. */
  method MatchChar(rules: Rules, p: Pos, c: nat) returns (matched: bool, next: Pos)
    requires WellFormed(rules) && TerminalPos(rules, p)
    ensures matched == Matches(rules, p, c)
    ensures next == AfterClass(rules, p)
  {
    var rule := rules[p.rule];
    var found := false;
    var positive := rule[p.index].kind == Char;
    var i := p.index;
    var first := true;
    while first || rule[i].kind == CharAlt
      invariant p.index <= i < |rule|
      invariant first ==> i == p.index && !found
      invariant !first ==> i > p.index && rule[i].kind != CharRngUpper
      invariant first || rule[i].kind == CharAlt ==>
          && ClassElem(rule[i].kind)
          && Listed(rule, p.index, c, |rules|) == (found || Listed(rule, i, c, |rules|))
          && ClassEnd(rule, p.index, |rules|) == ClassEnd(rule, i, |rules|)
      invariant !first && rule[i].kind != CharAlt ==>
          Listed(rule, p.index, c, |rules|) == found && ClassEnd(rule, p.index, |rules|) == i
      decreases |rule| - i, first
    {
      assert ElemEnd(rule, i, |rules|) > i;
      if rule[i + 1].kind == CharRngUpper {
        found := found || rule[i].value <= c <= rule[i + 1].value;
        i := i + 2;
      } else {
        found := found || rule[i].value == c;
        i := i + 1;
      }
      first := false;
    }
    return found == positive, Pos(p.rule, i);
  }

  // ---------------------------------------------------------------------------------------------
  // Meaning: derivation trees
  // ---------------------------------------------------------------------------------------------

  /** A derivation from a position to the end of its alternate. */
  datatype Derivation =
    | Done
    | Read(c: nat, rest: Derivation)
    | Use(alternate: nat, sub: Derivation, rest: Derivation)

  /** The characters read by a derivation. */
  ghost function Word(d: Derivation): seq<nat> {
    match d
    case Done => []
    case Read(c, rest) => [c] + Word(rest)
    case Use(_, sub, rest) => Word(sub) + Word(rest)
  }

  ghost predicate Derives(rules: Rules, p: Pos, d: Derivation)
    requires WellFormed(rules) && ItemPos(rules, p)
    decreases d
  {
    match d
    case Done => IsEndOfSequence(KindAt(rules, p))
    case Read(c, rest) =>
      TerminalPos(rules, p) && Matches(rules, p, c) && Derives(rules, AfterClass(rules, p), rest)
    case Use(a, sub, rest) =>
      && RefPos(rules, p) && AltStart(rules, RefAt(rules, p), a)
      && Derives(rules, AltPos(rules, RefAt(rules, p), a), sub)
      && Derives(rules, After(rules, p), rest)
  }

  /** One derivation for each item of a stack. */
  datatype StackDerivation = Nothing | Layer(below: StackDerivation, top: Derivation)

  ghost function StackWord(d: StackDerivation): seq<nat> {
    match d
    case Nothing => []
    case Layer(below, top) => Word(top) + StackWord(below)
  }

  ghost predicate StackDerives(rules: Rules, st: Stack, d: StackDerivation)
    requires WellFormed(rules) && StackOk(rules, st)
  {
    match st
    case Bottom => d == Nothing
    case Item(below, top) => d.Layer? && Derives(rules, top, d.top) && StackDerives(rules, below, d.below)
  }

  /** `w` is in the language of the stack. */
  ghost predicate Accepts(rules: Rules, st: Stack, w: seq<nat>)
    requires WellFormed(rules) && StackOk(rules, st)
  {
    exists d :: StackDerives(rules, st, d) && StackWord(d) == w
  }

  predicate AllOk(rules: Rules, stacks: seq<Stack>) {
    forall i :: 0 <= i < |stacks| ==> StackOk(rules, stacks[i])
  }

  ghost predicate AllAdvanced(rules: Rules, stacks: seq<Stack>) {
    forall i :: 0 <= i < |stacks| ==> Advanced(rules, stacks[i])
  }

  /** `w` is in the language of one of the stacks. */
  ghost predicate SomeAccepts(rules: Rules, stacks: seq<Stack>, w: seq<nat>)
    requires WellFormed(rules) && AllOk(rules, stacks)
  {
    exists i :: 0 <= i < |stacks| && Accepts(rules, stacks[i], w)
  }
}
