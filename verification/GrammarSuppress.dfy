/**
 Where the two halves of the grammar meet: before sampling, every token's text is decoded from where the last token
 stopped and pruned, and the rejected ones are penalised; after sampling, the token's text is accepted. A token
 that ends between sequences is penalised exactly if accepting it would leave no stack.
 */
module GrammarSuppress {
  import opened Binary
  import opened Grammar
  import opened GrammarAccept
  import opened GrammarReject
  import opened GrammarStacks
  import opened GrammarText
  import opened PartialUtf8

  /** The decoded text of a token, as a candidate for pruning. */
  function CandidateOf(id: nat, text: seq<Byte>, partial: Partial): Candidate {
    var d := Decode(text, partial);
    Candidate(id, d.points, 0, d.partial)
  }

  /** Empty texts are never candidates, and without stacks nothing is pruned. */
  ghost predicate Suppressed(rules: Rules, g: Progress, id: nat, text: seq<Byte>)
    requires Usable(rules) && AllAdvanced(rules, g.stacks)
  {
    g.stacks != [] && text != [] && RejectedByAll(rules, g.stacks, CandidateOf(id, text, g.partial))
  }

  /** `c` is the candidate of one of the tokens. */
  ghost predicate IsOffered(texts: seq<seq<Byte>>, partial: Partial, c: Candidate) {
    c.id < |texts| && texts[c.id] != [] && c == CandidateOf(c.id, texts[c.id], partial)
  }

  /** Every token with a text is offered once. */
  method Decoded(texts: seq<seq<Byte>>, partial: Partial) returns (cs: seq<Candidate>)
    requires partial.remaining <= 3
    ensures AllReadable(cs) && forall c :: Times(cs, c) == if IsOffered(texts, partial, c) then 1 else 0
  {
    cs := [];
    for id := 0 to |texts|
      invariant AllReadable(cs)
      invariant forall c :: Times(cs, c) == if c.id < id && IsOffered(texts, partial, c) then 1 else 0
    {
      if |texts[id]| > 0 {
        var d := DecodeUtf8(texts[id], partial);
        TimesPush(cs, Candidate(id, d.points, 0, d.partial));
        cs := cs + [Candidate(id, d.points, 0, d.partial)];
      }
    }
  }

  lemma {:induction false} TimesPush(cs: seq<Candidate>, x: Candidate)
    ensures forall c :: Times(cs + [x], c) == Times(cs, c) + if c == x then 1 else 0
  {
    forall c
      ensures Times(cs + [x], c) == Times(cs, c) + if c == x then 1 else 0
    {
      assert (cs + [x])[..|cs|] == cs;
    }
  }

  lemma {:induction false} TimesOfMember(cs: seq<Candidate>, i: nat)
    requires i < |cs|
    ensures Times(cs, cs[i]) > 0
  {
    if i < |cs| - 1 {
      TimesOfMember(cs[..|cs| - 1], i);
    }
  }

  /** What is subtracted for `c` when every element of `cs` is penalised in turn. */
  ghost function Charged(cs: seq<Candidate>, c: Candidate, penalty: real): real {
    if cs == [] then 0.0
    else Charged(cs[..|cs| - 1], c, penalty) + if cs[|cs| - 1] == c then penalty else 0.0
  }

  ghost function ChargedTo(cs: seq<Candidate>, id: nat, text: seq<Byte>, partial: Partial, penalty: real): real {
    if text == [] then 0.0 else Charged(cs, CandidateOf(id, text, partial), penalty)
  }

  lemma {:induction false} ChargedOnce(cs: seq<Candidate>, c: Candidate, penalty: real)
    requires Times(cs, c) <= 1
    ensures Charged(cs, c, penalty) == if Times(cs, c) == 1 then penalty else 0.0
  {
    if cs != [] {
      ChargedOnce(cs[..|cs| - 1], c, penalty);
    }
  }

  /** Subtracts the penalty once for each rejected candidate. */
  method Penalise(rejects: seq<Candidate>, texts: seq<seq<Byte>>, partial: Partial, logits: array<real>, penalty: real)
    requires |texts| <= logits.Length && forall i :: 0 <= i < |rejects| ==> IsOffered(texts, partial, rejects[i])
    modifies logits
    ensures forall id :: 0 <= id < |texts| ==>
              logits[id] == old(logits[id]) - ChargedTo(rejects, id, texts[id], partial, penalty)
    ensures forall id :: |texts| <= id < logits.Length ==> logits[id] == old(logits[id])
  {
    for i := 0 to |rejects|
      invariant forall id :: 0 <= id < |texts| ==>
                  logits[id] == old(logits[id]) - ChargedTo(rejects[..i], id, texts[id], partial, penalty)
      invariant forall id :: |texts| <= id < logits.Length ==> logits[id] == old(logits[id])
    {
      assert IsOffered(texts, partial, rejects[i]) && rejects[..i + 1][..i] == rejects[..i];
      logits[rejects[i].id] := logits[rejects[i].id] - penalty;
    }
    assert rejects[..|rejects|] == rejects;
  }

  /** `texts` are those of the tokens below the end-of-text token. */
  method SuppressInvalidGrammar(rules: Rules, g: Progress, texts: seq<seq<Byte>>, logits: array<real>, penalty: real)
    requires Usable(rules) && AllAdvanced(rules, g.stacks) && g.partial.remaining <= 3 && |texts| <= logits.Length
    modifies logits
    ensures forall id :: 0 <= id < |texts| ==>
              logits[id] == old(logits[id]) - if Suppressed(rules, g, id, texts[id]) then penalty else 0.0
    ensures forall id :: |texts| <= id < logits.Length ==> logits[id] == old(logits[id])
  {
    if |g.stacks| == 0 {
      return;
    }
    var candidates := Decoded(texts, g.partial);
    var rejects := RejectCandidates(rules, g.stacks, candidates);
    forall i | 0 <= i < |rejects|
      ensures IsOffered(texts, g.partial, rejects[i])
    {
      TimesOfMember(rejects, i);
    }
    Penalise(rejects, texts, g.partial, logits, penalty);
    forall id: nat | id < |texts| && texts[id] != []
      ensures Charged(rejects, CandidateOf(id, texts[id], g.partial), penalty)
           == if Suppressed(rules, g, id, texts[id]) then penalty else 0.0
    {
      ChargedOnce(rejects, CandidateOf(id, texts[id], g.partial), penalty);
    }
  }

  /** The text, behind what was carried over, ends between sequences and holds no zero code point. */
  ghost predicate EndsBetween(g: Progress, text: seq<Byte>) {
    var d := Decode(text, g.partial);
    d.partial.remaining == 0 && 0 !in Found(d)
  }

  /** A token is penalised exactly if accepting it would leave no stack. */
  lemma {:induction false} SuppressedExactlyIf(rules: Rules, g: Progress, id: nat, text: seq<Byte>)
    requires Usable(rules) && AllAdvanced(rules, g.stacks) && g.stacks != []
    requires EndsBetween(g, text) && text != [] && !Skipped(text)
    ensures Suppressed(rules, g, id, text) <==> AcceptText(rules, g, text).stacks == []
  {
    var c := CandidateOf(id, text, g.partial);
    assert Remaining(c) == Found(Decode(text, g.partial));
    forall i | 0 <= i < |c.codePoints| - 1
      ensures c.codePoints[i] != 0
    {
      assert Found(Decode(text, g.partial))[i] == c.codePoints[i];
    }
    PruningAgrees(rules, g.stacks, c);
  }

  lemma {:induction false} RefusedByAll(rules: Rules, stacks: seq<Stack>, c: Candidate)
    requires Usable(rules) && AllAdvanced(rules, stacks)
    requires c.codePoints == [0] && c.offset == 0 && c.partial.remaining < 0
    ensures RejectedByAll(rules, stacks, c)
  {
    if stacks == [] {
      assert RejectedByAll(rules, [], c);
    } else {
      RefusedByAll(rules, stacks[..|stacks| - 1], c);
      assert RejectedHere(rules, stacks[|stacks| - 1], c);
    }
  }

  /** A text that the decoder refuses is penalised. */
  lemma {:induction false} RefusedIsSuppressed(rules: Rules, g: Progress, id: nat, text: seq<Byte>)
    requires Usable(rules) && AllAdvanced(rules, g.stacks) && g.stacks != [] && text != []
    requires Decode(text, g.partial) == INVALID
    ensures Suppressed(rules, g, id, text)
  {
    RefusedByAll(rules, g.stacks, CandidateOf(id, text, g.partial));
  }

  /** A byte that does not continue what was carried over is refused. */
  lemma {:induction false} StrayIsSuppressed(rules: Rules, g: Progress, id: nat, text: seq<Byte>)
    requires Usable(rules) && AllAdvanced(rules, g.stacks) && g.stacks != [] && text != [] && text[0] != 0
    requires g.partial.remaining > 0 && !(0x80 <= text[0] <= 0xBF)
    ensures Suppressed(rules, g, id, text)
  {
    assert UpToZero(text)[0] == text[0];
    RefusedIsSuppressed(rules, g, id, text);
  }
}
