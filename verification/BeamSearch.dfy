/**
 The candidate replacement of CTranslate2's beam search, for one row of the batch: 2B candidates are kept so
 that beams that ended can be replaced. Candidates are flat ids beam * vocabulary + word.
 */
module BeamSearch {
  import Arithmetic

  function Origin(flat: nat, vocabulary: nat): nat
    requires vocabulary > 0
  {
    flat / vocabulary
  }

  function Word(flat: nat, vocabulary: nat): nat
    requires vocabulary > 0
  {
    flat % vocabulary
  }

  predicate Distinct(s: seq<nat>) {
    forall i, j :: 0 <= i < j < |s| ==> s[i] != s[j]
  }

  /** The number of positions in from..end whose word is, or is not, an end id. */
  function Count(ids: seq<nat>, endIds: set<nat>, ends: bool, from: nat, end: nat): (n: nat)
    requires from <= end <= |ids|
    ensures n <= end - from
    decreases end
  {
    if from == end then 0
    else Count(ids, endIds, ends, from, end - 1) + if (ids[end - 1] in endIds) == ends then 1 else 0
  }

  lemma {:induction false} CountSplit(ids: seq<nat>, endIds: set<nat>, ends: bool, from: nat, mid: nat, end: nat)
    requires from <= mid <= end <= |ids|
    ensures Count(ids, endIds, ends, from, end)
            == Count(ids, endIds, ends, from, mid) + Count(ids, endIds, ends, mid, end)
    decreases end
  {
    if mid < end {
      CountSplit(ids, endIds, ends, from, mid, end - 1);
    }
  }

  lemma {:induction false} CountBoth(ids: seq<nat>, endIds: set<nat>, from: nat, end: nat)
    requires from <= end <= |ids|
    ensures Count(ids, endIds, true, from, end) + Count(ids, endIds, false, from, end) == end - from
    decreases end
  {
    if from < end {
      CountBoth(ids, endIds, from, end - 1);
    }
  }

  lemma {:induction false} CountNone(ids: seq<nat>, endIds: set<nat>, ends: bool, from: nat, end: nat)
    requires from <= end <= |ids| && forall j :: from <= j < end ==> (ids[j] in endIds) != ends
    ensures Count(ids, endIds, ends, from, end) == 0
    decreases end
  {
    if from < end {
      CountNone(ids, endIds, ends, from, end - 1);
    }
  }

  lemma {:induction false} CountZero(ids: seq<nat>, endIds: set<nat>, ends: bool, from: nat, end: nat)
    requires from <= end <= |ids| && Count(ids, endIds, ends, from, end) == 0
    ensures forall j :: from <= j < end ==> (ids[j] in endIds) != ends
    decreases end
  {
    if from < end {
      CountZero(ids, endIds, ends, from, end - 1);
    }
  }

  /** The first candidate from `offset` on that is no end, or the number of candidates. */
  method FindSubstitute(ids: seq<nat>, endIds: set<nat>, offset: nat) returns (j: nat)
    requires offset <= |ids|
    ensures offset <= j <= |ids|
    ensures j < |ids| ==> ids[j] !in endIds
    ensures forall i :: offset <= i < j ==> ids[i] in endIds
  {
    j := offset;
    while j < |ids|
      invariant offset <= j <= |ids|
      invariant forall i :: offset <= i < j ==> ids[i] in endIds
    {
      if ids[j] !in endIds {
        return;
      }
      j := j + 1;
    }
  }

  /** Whether the substitutes among the second half suffice for the ends below `k`. */
  ghost predicate Enough(ids: seq<nat>, endIds: set<nat>, beams: nat, k: nat)
    requires k <= beams && |ids| == 2 * beams
  {
    Count(ids, endIds, true, 0, k) <= Count(ids, endIds, false, beams, 2 * beams)
  }

  /** No chosen candidate ends. */
  ghost predicate NoneEnds(ids: seq<nat>, endIds: set<nat>, active: seq<nat>) {
    forall k :: 0 <= k < |active| ==> active[k] < |ids| && ids[active[k]] !in endIds
  }

  lemma {:induction false} NoneEndsNext(ids: seq<nat>, endIds: set<nat>, active: seq<nat>, next: nat)
    requires next < |ids|
    ensures NoneEnds(ids, endIds, active + [next]) <==> NoneEnds(ids, endIds, active) && ids[next] !in endIds
  {
    var longer := active + [next];
    assert longer[|active|] == next;
    if NoneEnds(ids, endIds, longer) {
      forall k | 0 <= k < |active|
        ensures active[k] < |ids| && ids[active[k]] !in endIds
      {
        assert longer[k] == active[k];
      }
    }
  }

  /** What the scan keeps: substitutes are used in order, and as many as there were ends, while they last. */
  ghost predicate Scanned(ids: seq<nat>, endIds: set<nat>, beams: nat, active: seq<nat>, offset: nat)
    requires |active| <= beams <= offset <= 2 * beams == |ids|
  {
    var k := |active|;
    && (NoneEnds(ids, endIds, active) <==> Enough(ids, endIds, beams, k))
    && (Enough(ids, endIds, beams, k) ==> Count(ids, endIds, false, beams, offset) == Count(ids, endIds, true, 0, k))
    && (!Enough(ids, endIds, beams, k) ==> Count(ids, endIds, false, offset, 2 * beams) == 0)
  }

  lemma {:induction false} KeepsScanned(ids: seq<nat>, endIds: set<nat>, beams: nat, active: seq<nat>, offset: nat)
    requires |active| < beams <= offset <= 2 * beams == |ids| && Scanned(ids, endIds, beams, active, offset)
    requires ids[|active|] !in endIds
    ensures Scanned(ids, endIds, beams, active + [|active|], offset)
  {
    NoneEndsNext(ids, endIds, active, |active|);
  }

  lemma {:induction false} ReplacesScanned(ids: seq<nat>, endIds: set<nat>, beams: nat, active: seq<nat>, offset: nat,
                                           j: nat)
    requires |active| < beams <= offset <= j <= 2 * beams == |ids| && Scanned(ids, endIds, beams, active, offset)
    requires ids[|active|] in endIds && (forall i :: offset <= i < j ==> ids[i] in endIds)
             && (j < |ids| ==> ids[j] !in endIds)
    ensures if j < |ids| then Scanned(ids, endIds, beams, active + [j], j + 1)
            else Scanned(ids, endIds, beams, active + [|active|], offset)
  {
    ScanCounts(ids, endIds, beams, offset, j);
    NoneEndsNext(ids, endIds, active, if j < |ids| then j else |active|);
  }

  /** Each beam keeps its place unless it ended; then it takes a substitute from the second half. */
  ghost predicate Placed(ids: seq<nat>, endIds: set<nat>, beams: nat, active: seq<nat>, offset: nat)
    requires |active| <= beams <= offset <= |ids|
  {
    && Distinct(active)
    && forall i {:trigger active[i]} :: 0 <= i < |active| ==>
         active[i] == i || (beams <= active[i] < offset && ids[i] in endIds && ids[active[i]] !in endIds)
  }

  lemma {:induction false} PlacedNext(ids: seq<nat>, endIds: set<nat>, beams: nat, active: seq<nat>, offset: nat,
                                      next: nat, after: nat)
    requires |active| < beams <= offset <= after <= |ids| && Placed(ids, endIds, beams, active, offset)
    requires next == |active| || (offset <= next < after && ids[|active|] in endIds && ids[next] !in endIds)
    ensures Placed(ids, endIds, beams, active + [next], after)
  {
  }

  /** Candidate `j` is the substitute of the end at `k`: as many others come before it as ends before `k`. */
  ghost predicate IsSubstitute(ids: seq<nat>, endIds: set<nat>, beams: nat, k: nat, j: nat)
    requires k < beams <= |ids|
  {
    && beams <= j < |ids| && ids[j] !in endIds
    && Count(ids, endIds, false, beams, j) == Count(ids, endIds, true, 0, k)
  }

  /** Ends get their substitutes in order, while they last; everything else stays. */
  ghost predicate Replaced(ids: seq<nat>, endIds: set<nat>, beams: nat, active: seq<nat>, k: nat)
    requires k < |active| && k < beams && |ids| == 2 * beams
  {
    if ids[k] in endIds && Enough(ids, endIds, beams, k + 1) then IsSubstitute(ids, endIds, beams, k, active[k])
    else active[k] == k
  }

  ghost predicate AllReplaced(ids: seq<nat>, endIds: set<nat>, beams: nat, active: seq<nat>)
    requires |active| <= beams && |ids| == 2 * beams
  {
    forall k: nat {:trigger Replaced(ids, endIds, beams, active, k)} :: k < |active| ==>
      Replaced(ids, endIds, beams, active, k)
  }

  lemma {:induction false} AllReplacedNext(ids: seq<nat>, endIds: set<nat>, beams: nat, active: seq<nat>, next: nat)
    requires |active| < beams && |ids| == 2 * beams && AllReplaced(ids, endIds, beams, active)
    requires Replaced(ids, endIds, beams, active + [next], |active|)
    ensures AllReplaced(ids, endIds, beams, active + [next])
  {
    forall k: nat | k < |active|
      ensures Replaced(ids, endIds, beams, active + [next], k)
    {
      assert Replaced(ids, endIds, beams, active, k);
    }
  }

  /** What the scan does with an end is right. */
  lemma {:induction false} ReplacedAt(ids: seq<nat>, endIds: set<nat>, beams: nat, active: seq<nat>, offset: nat,
                                     j: nat)
    requires |active| < beams <= offset <= j <= 2 * beams == |ids| && Scanned(ids, endIds, beams, active, offset)
    requires ids[|active|] in endIds && (forall i :: offset <= i < j ==> ids[i] in endIds)
             && (j < |ids| ==> ids[j] !in endIds)
    ensures Replaced(ids, endIds, beams, active + [if j < |ids| then j else |active|], |active|)
  {
    ScanCounts(ids, endIds, beams, offset, j);
    assert Count(ids, endIds, true, 0, |active| + 1) == Count(ids, endIds, true, 0, |active|) + 1;
  }

  /**
   The replacement scan of a step that is not the last: active beams are always distinct candidates, and none
   ends exactly if the second half has a substitute for every end of the first.
   */
  method SelectBeams(ids: seq<nat>, endIds: set<nat>, beams: nat) returns (active: seq<nat>)
    requires |ids| == 2 * beams
    ensures |active| == beams && Placed(ids, endIds, beams, active, 2 * beams)
    ensures NoneEnds(ids, endIds, active) <==> Enough(ids, endIds, beams, beams)
    ensures AllReplaced(ids, endIds, beams, active)
  {
    active := [];
    var offset := beams;
    for k := 0 to beams
      invariant |active| == k && beams <= offset <= 2 * beams && Placed(ids, endIds, beams, active, offset)
      invariant Scanned(ids, endIds, beams, active, offset) && AllReplaced(ids, endIds, beams, active)
    {
      var next := k;
      ghost var start := offset;
      if ids[k] in endIds {
        var j := FindSubstitute(ids, endIds, offset);
        ReplacesScanned(ids, endIds, beams, active, offset, j);
        ReplacedAt(ids, endIds, beams, active, offset, j);
        if j < |ids| {
          next, offset := j, j + 1;
        }
      } else {
        KeepsScanned(ids, endIds, beams, active, offset);
      }
      PlacedNext(ids, endIds, beams, active, start, next, offset);
      AllReplacedNext(ids, endIds, beams, active, next);
      active := active + [next];
    }
  }

  lemma {:induction false} ScanCounts(ids: seq<nat>, endIds: set<nat>, beams: nat, offset: nat, j: nat)
    requires |ids| == 2 * beams && beams <= offset <= j <= 2 * beams
    requires forall i :: offset <= i < j ==> ids[i] in endIds
    requires j < |ids| ==> ids[j] !in endIds
    ensures Count(ids, endIds, false, beams, j) == Count(ids, endIds, false, beams, offset)
    ensures Count(ids, endIds, false, beams, 2 * beams)
         == Count(ids, endIds, false, beams, offset) + Count(ids, endIds, false, offset, 2 * beams)
    ensures j < |ids| ==> Count(ids, endIds, false, beams, j + 1) == Count(ids, endIds, false, beams, offset) + 1
    ensures j < |ids| ==> Count(ids, endIds, false, offset, 2 * beams) > 0
    ensures j == |ids| ==> Count(ids, endIds, false, offset, 2 * beams) == 0
  {
    CountNone(ids, endIds, false, offset, j);
    CountSplit(ids, endIds, false, beams, offset, j);
    CountSplit(ids, endIds, false, beams, offset, 2 * beams);
    if j < |ids| {
      CountSplit(ids, endIds, false, offset, j + 1, 2 * beams);
    }
  }

  // ---------------------------------------------------------------------------------------------
  // The pigeonhole argument
  // ---------------------------------------------------------------------------------------------

  predicate Candidates(flat: seq<nat>, vocabulary: nat, sources: nat) {
    vocabulary > 0 && Distinct(flat) && forall j :: 0 <= j < |flat| ==> Origin(flat[j], vocabulary) < sources
  }

  function Words(flat: seq<nat>, vocabulary: nat): (ids: seq<nat>)
    requires vocabulary > 0
    ensures |ids| == |flat|
  {
    seq(|flat|, (j: nat) requires j < |flat| => Word(flat[j], vocabulary))
  }

  /** The source beams of the candidates below `n` that end. */
  ghost function EndOrigins(flat: seq<nat>, vocabulary: nat, eos: nat, n: nat): set<nat>
    requires vocabulary > 0 && n <= |flat|
  {
    set j | 0 <= j < n && Word(flat[j], vocabulary) == eos :: Origin(flat[j], vocabulary)
  }

  lemma {:induction false} SameFlat(a: nat, b: nat, vocabulary: nat)
    requires vocabulary > 0 && Origin(a, vocabulary) == Origin(b, vocabulary)
             && Word(a, vocabulary) == Word(b, vocabulary)
    ensures a == b
  {
  }

  lemma {:induction false} EndOriginsNext(flat: seq<nat>, vocabulary: nat, eos: nat, n: nat)
    requires vocabulary > 0 && n < |flat|
    ensures EndOrigins(flat, vocabulary, eos, n + 1) == EndOrigins(flat, vocabulary, eos, n)
            + if Word(flat[n], vocabulary) == eos then {Origin(flat[n], vocabulary)} else {}
  {
    forall x
      ensures x in EndOrigins(flat, vocabulary, eos, n + 1) <==>
              || x in EndOrigins(flat, vocabulary, eos, n)
              || (Word(flat[n], vocabulary) == eos && x == Origin(flat[n], vocabulary))
    {
    }
  }

  /** Distinct candidates with the same word have different source beams. */
  lemma {:induction false} NewOrigin(flat: seq<nat>, vocabulary: nat, eos: nat, n: nat)
    requires vocabulary > 0 && Distinct(flat) && n < |flat| && Word(flat[n], vocabulary) == eos
    ensures Origin(flat[n], vocabulary) !in EndOrigins(flat, vocabulary, eos, n)
  {
    if Origin(flat[n], vocabulary) in EndOrigins(flat, vocabulary, eos, n) {
      var j :| 0 <= j < n && Word(flat[j], vocabulary) == eos
               && Origin(flat[j], vocabulary) == Origin(flat[n], vocabulary);
      SameFlat(flat[j], flat[n], vocabulary);
    }
  }

  lemma {:induction false} OnePerSource(flat: seq<nat>, vocabulary: nat, eos: nat, n: nat)
    requires vocabulary > 0 && Distinct(flat) && n <= |flat|
    ensures Count(Words(flat, vocabulary), {eos}, true, 0, n) == |EndOrigins(flat, vocabulary, eos, n)|
  {
    if n > 0 {
      OnePerSource(flat, vocabulary, eos, n - 1);
      EndOriginsNext(flat, vocabulary, eos, n - 1);
      if Word(flat[n - 1], vocabulary) == eos {
        NewOrigin(flat, vocabulary, eos, n - 1);
      }
    }
  }

  ghost function Range(n: nat): (s: set<nat>)
    ensures |s| == n && forall x: nat :: x in s <==> x < n
  {
    if n == 0 then {} else Range(n - 1) + {n - 1}
  }

  lemma {:induction false} SubsetSize(a: set<nat>, b: set<nat>)
    requires a <= b
    ensures |a| <= |b|
  {
    assert b == a + (b - a);
  }

  /** With one end id each source beam ends at most once, so the substitutes always suffice. */
  lemma {:induction false} SubstitutesSuffice(flat: seq<nat>, vocabulary: nat, sources: nat, eos: nat, beams: nat)
    requires Candidates(flat, vocabulary, sources) && |flat| == 2 * beams && sources <= beams
    ensures Enough(Words(flat, vocabulary), {eos}, beams, beams)
  {
    var ids := Words(flat, vocabulary);
    OnePerSource(flat, vocabulary, eos, 2 * beams);
    SubsetSize(EndOrigins(flat, vocabulary, eos, 2 * beams), Range(sources));
    CountSplit(ids, {eos}, true, 0, beams, 2 * beams);
    CountBoth(ids, {eos}, beams, 2 * beams);
  }

  /** No two words of the vocabulary end a hypothesis. */
  ghost predicate AtMostOneEnd(endIds: set<nat>, vocabulary: nat) {
    forall a, b :: a in endIds && b in endIds && a < vocabulary && b < vocabulary ==> a == b
  }

  lemma {:induction false} SameCount(ids: seq<nat>, endIds: set<nat>, others: set<nat>, ends: bool, from: nat, end: nat)
    requires from <= end <= |ids| && forall j :: 0 <= j < |ids| ==> (ids[j] in endIds <==> ids[j] in others)
    ensures Count(ids, endIds, ends, from, end) == Count(ids, others, ends, from, end)
    decreases end
  {
    if from < end {
      SameCount(ids, endIds, others, ends, from, end - 1);
    }
  }

  /** The same for any set of end ids of which at most one is in the vocabulary. */
  lemma {:induction false} OneEndSuffices(flat: seq<nat>, vocabulary: nat, sources: nat, endIds: set<nat>, beams: nat)
    requires Candidates(flat, vocabulary, sources) && |flat| == 2 * beams && sources <= beams
    requires AtMostOneEnd(endIds, vocabulary)
    ensures Enough(Words(flat, vocabulary), endIds, beams, beams)
  {
    var ids := Words(flat, vocabulary);
    var eos := if e: nat :| e in endIds && e < vocabulary then e else vocabulary;
    forall j | 0 <= j < |ids|
      ensures ids[j] in endIds <==> ids[j] in {eos}
    {
      assert ids[j] == Word(flat[j], vocabulary) < vocabulary;
    }
    SubstitutesSuffice(flat, vocabulary, sources, eos, beams);
    SameCount(ids, endIds, {eos}, true, 0, beams);
    SameCount(ids, endIds, {eos}, false, beams, 2 * beams);
  }

  /** Every beam's candidates are the words `a` and `b`, all `a` first. */
  function BothWords(vocabulary: nat, a: nat, b: nat, beams: nat): (flat: seq<nat>)
    ensures |flat| == 2 * beams
  {
    seq(2 * beams, (j: nat) => if j < beams then j * vocabulary + a else (j - beams) * vocabulary + b)
  }

  lemma {:induction false} FlatOf(vocabulary: nat, beam: nat, word: nat)
    requires word < vocabulary
    ensures var flat := beam * vocabulary + word; Origin(flat, vocabulary) == beam && Word(flat, vocabulary) == word
  {
    Arithmetic.ModUnique(beam * vocabulary + word, vocabulary, beam, word);
  }

  lemma {:induction false} BothWordsAre(vocabulary: nat, a: nat, b: nat, beams: nat, j: nat)
    requires a < vocabulary && b < vocabulary && j < 2 * beams
    ensures var flat := BothWords(vocabulary, a, b, beams);
            && Origin(flat[j], vocabulary) == (if j < beams then j else j - beams)
            && Word(flat[j], vocabulary) == (if j < beams then a else b)
  {
    FlatOf(vocabulary, if j < beams then j else j - beams, if j < beams then a else b);
  }

  lemma {:induction false} BothWordsDistinct(vocabulary: nat, a: nat, b: nat, beams: nat)
    requires a < vocabulary && b < vocabulary && a != b
    ensures Candidates(BothWords(vocabulary, a, b, beams), vocabulary, beams)
  {
    var flat := BothWords(vocabulary, a, b, beams);
    forall j | 0 <= j < |flat|
      ensures Origin(flat[j], vocabulary) < beams
    {
      BothWordsAre(vocabulary, a, b, beams, j);
    }
    forall i, j | 0 <= i < j < |flat|
      ensures flat[i] != flat[j]
    {
      BothWordsAre(vocabulary, a, b, beams, i);
      BothWordsAre(vocabulary, a, b, beams, j);
    }
  }

  /** When both words end, so do all candidates. */
  lemma {:induction false} TwoEndsFail(vocabulary: nat, endIds: set<nat>, a: nat, b: nat, beams: nat)
    requires a in endIds && b in endIds && a < vocabulary && b < vocabulary && beams > 0
    ensures !Enough(Words(BothWords(vocabulary, a, b, beams), vocabulary), endIds, beams, beams)
  {
    var ids := Words(BothWords(vocabulary, a, b, beams), vocabulary);
    forall j | 0 <= j < |ids|
      ensures ids[j] in endIds
    {
      BothWordsAre(vocabulary, a, b, beams, j);
    }
    CountNone(ids, endIds, false, 0, beams);
    CountNone(ids, endIds, false, beams, 2 * beams);
    CountBoth(ids, endIds, 0, beams);
  }

  /** The substitutes suffice for all distinct candidates exactly if at most one word of the vocabulary is an end. */
  lemma {:induction false} SubstitutesSufficeExactlyIf(vocabulary: nat, endIds: set<nat>, beams: nat)
    requires vocabulary > 0 && beams > 0
    ensures (forall flat {:trigger Words(flat, vocabulary)} ::
               Candidates(flat, vocabulary, beams) && |flat| == 2 * beams ==>
                 Enough(Words(flat, vocabulary), endIds, beams, beams))
            <==> AtMostOneEnd(endIds, vocabulary)
  {
    if AtMostOneEnd(endIds, vocabulary) {
      forall flat | Candidates(flat, vocabulary, beams) && |flat| == 2 * beams
        ensures Enough(Words(flat, vocabulary), endIds, beams, beams)
      {
        OneEndSuffices(flat, vocabulary, beams, endIds, beams);
      }
    } else {
      var a, b :| a in endIds && b in endIds && a < vocabulary && b < vocabulary && a != b;
      BothWordsDistinct(vocabulary, a, b, beams);
      TwoEndsFail(vocabulary, endIds, a, b, beams);
    }
  }

  // ---------------------------------------------------------------------------------------------
  // Whole runs
  // ---------------------------------------------------------------------------------------------

  predicate NoEnd(h: seq<nat>, eos: nat) {
    forall t :: 0 <= t < |h| ==> h[t] != eos
  }

  ghost predicate AllLive(beams: seq<seq<nat>>, eos: nat, length: nat) {
    forall k :: 0 <= k < |beams| ==> NoEnd(beams[k], eos) && |beams[k]| == length
  }

  /** A hypothesis holds no end, except as its last token when ends are included. */
  predicate HypothesisOk(h: seq<nat>, eos: nat, includeEos: bool) {
    if includeEos && |h| > 0 then NoEnd(h[..|h| - 1], eos) else NoEnd(h, eos)
  }

  /** A candidate taken apart: the beam it extends, and the word. */
  datatype Choice = Choice(origin: nat, word: nat)

  function Unflatten(flat: seq<nat>, vocabulary: nat): (choices: seq<Choice>)
    requires vocabulary > 0
    ensures |choices| == |flat|
  {
    seq(|flat|, (j: nat) requires j < |flat| => Choice(Origin(flat[j], vocabulary), Word(flat[j], vocabulary)))
  }

  predicate IsChoice(flat: nat, vocabulary: nat, choice: Choice) {
    flat == choice.origin * vocabulary + choice.word && choice.word < vocabulary
  }

  ghost predicate AreChoices(flat: seq<nat>, vocabulary: nat, choices: seq<Choice>) {
    |choices| == |flat| && forall j :: 0 <= j < |flat| ==> IsChoice(flat[j], vocabulary, choices[j])
  }

  lemma {:induction false} UnflattenOne(flat: nat, vocabulary: nat)
    requires vocabulary > 0
    ensures IsChoice(flat, vocabulary, Choice(Origin(flat, vocabulary), Word(flat, vocabulary)))
  {
  }

  lemma {:induction false} UnflattenIs(flat: seq<nat>, vocabulary: nat)
    requires vocabulary > 0
    ensures AreChoices(flat, vocabulary, Unflatten(flat, vocabulary))
    ensures WordsOf(Unflatten(flat, vocabulary)) == Words(flat, vocabulary)
  {
    forall j | 0 <= j < |flat|
      ensures IsChoice(flat[j], vocabulary, Unflatten(flat, vocabulary)[j])
    {
      UnflattenOne(flat[j], vocabulary);
    }
  }

  function WordsOf(choices: seq<Choice>): (ids: seq<nat>)
    ensures |ids| == |choices|
  {
    seq(|choices|, (j: nat) requires j < |choices| => choices[j].word)
  }

  ghost predicate OriginsBelow(choices: seq<Choice>, sources: nat) {
    forall j :: 0 <= j < |choices| ==> choices[j].origin < sources
  }

  lemma {:induction false} UnflattenBelow(flat: seq<nat>, vocabulary: nat, sources: nat)
    requires Candidates(flat, vocabulary, sources)
    ensures OriginsBelow(Unflatten(flat, vocabulary), sources)
  {
  }

  function Histories(alive: seq<seq<nat>>, choices: seq<Choice>): (r: seq<seq<nat>>)
    requires OriginsBelow(choices, |alive|)
    ensures |r| == |choices|
  {
    seq(|choices|, (j: nat) requires j < |choices| => alive[choices[j].origin] + [choices[j].word])
  }

  function Take<T>(s: seq<T>, index: seq<nat>): (r: seq<T>)
    requires forall k :: 0 <= k < |index| ==> index[k] < |s|
    ensures |r| == |index|
  {
    seq(|index|, (k: nat) requires k < |index| => s[index[k]])
  }

  /** A beam made of the beam that the candidate comes from and the candidate's word. */
  predicate Extends(h: seq<nat>, before: seq<seq<nat>>, choice: Choice) {
    choice.origin < |before| && h == before[choice.origin] + [choice.word]
  }

  ghost predicate AllExtend(histories: seq<seq<nat>>, before: seq<seq<nat>>, choices: seq<Choice>) {
    |histories| == |choices| && forall j :: 0 <= j < |choices| ==> Extends(histories[j], before, choices[j])
  }

  /** What is registered for candidates below `k`: those that end, or all in the last step. */
  ghost function Registered(before: seq<seq<nat>>, choices: seq<Choice>, eos: nat, includeEos: bool, last: bool,
                            k: nat): seq<seq<nat>>
    requires k <= |choices|
  {
    if k == 0 then []
    else
      var origin, word := choices[k - 1].origin, choices[k - 1].word;
      Registered(before, choices, eos, includeEos, last, k - 1) +
      if origin < |before| && (last || word == eos)
      then [before[origin] + if word == eos && !includeEos then [] else [word]] else []
  }

  /** Registers the hypotheses that end in this step. */
  method Register(histories: seq<seq<nat>>, beams: nat, eos: nat, includeEos: bool, last: bool, step: nat,
                  hypotheses: seq<seq<nat>>, ghost before: seq<seq<nat>>, ghost choices: seq<Choice>)
    returns (r: seq<seq<nat>>)
    requires beams <= |histories| && AllExtend(histories, before, choices)
    requires forall j :: 0 <= j < |histories| ==> |histories[j]| == step + 1 && NoEnd(histories[j][..step], eos)
    requires forall h :: h in hypotheses ==> HypothesisOk(h, eos, includeEos)
    ensures forall h :: h in r ==> HypothesisOk(h, eos, includeEos)
    ensures r == hypotheses + Registered(before, choices, eos, includeEos, last, beams)
  {
    r := hypotheses;
    for k := 0 to beams
      invariant forall h :: h in r ==> HypothesisOk(h, eos, includeEos)
      invariant r == hypotheses + Registered(before, choices, eos, includeEos, last, k)
    {
      assert Extends(histories[k], before, choices[k]);
      var ends := histories[k][step] == eos;
      if ends || last {
        var end := if ends && !includeEos then step else step + 1;
        var h := histories[k][..end];
        assert NoEnd(histories[k][..step], eos);
        assert end == step + 1 ==> h == histories[k] && h[..step] == histories[k][..step];
        assert h == before[choices[k].origin] + if ends && !includeEos then [] else [choices[k].word];
        r := r + [h];
      }
    }
  }

  // ---------------------------------------------------------------------------------------------
  // What a run is
  // ---------------------------------------------------------------------------------------------

  /** One row: `sources` beams at the start, `beams` later on. */
  datatype Settings = Settings(vocabulary: nat, beams: nat, sources: nat, eos: nat, includeEos: bool,
                               allowEarlyExit: bool, numHypotheses: nat, maxCandidates: nat)

  /** The candidates of each step, taken apart, come from beams that are there. */
  ghost predicate StepsOk(s: Settings, steps: seq<seq<Choice>>) {
    forall t: nat {:trigger steps[t]} :: t < |steps| ==>
      |steps[t]| == 2 * s.beams && OriginsBelow(steps[t], if t == 0 then s.sources else s.beams)
  }

  /** The beams before step `t`: empty ones at first. */
  ghost function Before(s: Settings, live: seq<seq<seq<nat>>>, t: nat): seq<seq<nat>>
    requires t <= |live|
  {
    if t == 0 then seq(s.sources, (i: nat) => []) else live[t - 1]
  }

  /** The hypotheses of the first `n` steps, in order. */
  ghost function AllRegistered(s: Settings, steps: seq<seq<Choice>>, live: seq<seq<seq<nat>>>, n: nat): seq<seq<nat>>
    requires n <= |steps| && n <= |live| + 1 && StepsOk(s, steps)
  {
    if n == 0 then []
    else
      AllRegistered(s, steps, live, n - 1) +
      Registered(Before(s, live, n - 1), steps[n - 1], s.eos, s.includeEos, n == |steps|, s.beams)
  }

  /** The best candidate has ended in step `t` or before. */
  ghost predicate TopEnded(s: Settings, steps: seq<seq<Choice>>, t: nat) {
    exists u :: 0 <= u <= t && u < |steps| && |steps[u]| > 0 && steps[u][0].word == s.eos
  }

  /** The run is over after step `t`. */
  ghost predicate Done(s: Settings, steps: seq<seq<Choice>>, live: seq<seq<seq<nat>>>, t: nat)
    requires t < |steps| && t <= |live| && StepsOk(s, steps)
  {
    || t + 1 == |steps|
    || if s.allowEarlyExit
       then TopEnded(s, steps, t) && |AllRegistered(s, steps, live, t + 1)| >= s.numHypotheses
       else |AllRegistered(s, steps, live, t + 1)| >= s.maxCandidates
  }

  /** After a step each place holds its own candidate, or the substitute of one that ended; none ends. */
  ghost predicate Survives(s: Settings, choices: seq<Choice>, before: seq<seq<nat>>, after: seq<seq<nat>>,
                           chosen: seq<nat>)
    requires |choices| == 2 * s.beams
  {
    && |chosen| == |after| == s.beams && AllReplaced(WordsOf(choices), {s.eos}, s.beams, chosen)
    && Enough(WordsOf(choices), {s.eos}, s.beams, s.beams)
    && forall k :: 0 <= k < s.beams ==> chosen[k] < |choices| && Extends(after[k], before, choices[chosen[k]])
  }

  /** Step `t` made `live[t]` of the beams before, and the run was not over. */
  ghost predicate Goes(s: Settings, steps: seq<seq<Choice>>, live: seq<seq<seq<nat>>>, chosen: seq<seq<nat>>, t: nat)
    requires StepsOk(s, steps) && t < |live| == |chosen| && t < |steps|
  {
    Survives(s, steps[t], Before(s, live, t), live[t], chosen[t]) && !Done(s, steps, live, t)
  }

  ghost predicate IsRun(s: Settings, steps: seq<seq<Choice>>, live: seq<seq<seq<nat>>>, chosen: seq<seq<nat>>)
    requires StepsOk(s, steps)
  {
    && |live| == |chosen| <= |steps|
    && forall t: nat {:trigger Goes(s, steps, live, chosen, t)} :: t < |live| ==> Goes(s, steps, live, chosen, t)
  }

  /** Steps before `n` do not depend on later beams. */
  lemma {:induction false} RegisteredKept(s: Settings, steps: seq<seq<Choice>>, live: seq<seq<seq<nat>>>,
                                          next: seq<seq<nat>>, n: nat)
    requires StepsOk(s, steps) && n <= |steps| && n <= |live| + 1
    ensures AllRegistered(s, steps, live + [next], n) == AllRegistered(s, steps, live, n)
  {
    if n > 0 {
      RegisteredKept(s, steps, live, next, n - 1);
      assert Before(s, live + [next], n - 1) == Before(s, live, n - 1);
    }
  }

  lemma {:induction false} GoesKept(s: Settings, steps: seq<seq<Choice>>, live: seq<seq<seq<nat>>>,
                                    chosen: seq<seq<nat>>, next: seq<seq<nat>>, active: seq<nat>, t: nat)
    requires StepsOk(s, steps) && t < |live| == |chosen| && t < |steps| && Goes(s, steps, live, chosen, t)
    ensures Goes(s, steps, live + [next], chosen + [active], t)
  {
    RegisteredKept(s, steps, live, next, t + 1);
    assert Before(s, live + [next], t) == Before(s, live, t);
    assert (live + [next])[t] == live[t] && (chosen + [active])[t] == chosen[t];
  }

  lemma {:induction false} RunNext(s: Settings, steps: seq<seq<Choice>>, live: seq<seq<seq<nat>>>,
                                   chosen: seq<seq<nat>>, next: seq<seq<nat>>, active: seq<nat>)
    requires StepsOk(s, steps) && IsRun(s, steps, live, chosen) && |live| < |steps| && !Done(s, steps, live, |live|)
    requires Survives(s, steps[|live|], Before(s, live, |live|), next, active)
    ensures IsRun(s, steps, live + [next], chosen + [active])
  {
    var n := |live|;
    forall t: nat | t < n
      ensures Goes(s, steps, live + [next], chosen + [active], t)
    {
      GoesKept(s, steps, live, chosen, next, active, t);
    }
    GoesLast(s, steps, live, chosen, next, active);
  }

  lemma {:induction false} GoesLast(s: Settings, steps: seq<seq<Choice>>, live: seq<seq<seq<nat>>>,
                                    chosen: seq<seq<nat>>, next: seq<seq<nat>>, active: seq<nat>)
    requires StepsOk(s, steps) && |live| == |chosen| < |steps| && !Done(s, steps, live, |live|)
    requires Survives(s, steps[|live|], Before(s, live, |live|), next, active)
    ensures Goes(s, steps, live + [next], chosen + [active], |live|)
  {
    var n := |live|;
    RegisteredKept(s, steps, live, next, n + 1);
    assert Before(s, live + [next], n) == Before(s, live, n);
    assert (live + [next])[n] == next && (chosen + [active])[n] == active;
  }

  /** The candidates of a step. */
  ghost predicate CandidatesOk(s: Settings, flat: seq<nat>, sources: nat) {
    |flat| == 2 * s.beams && Candidates(flat, s.vocabulary, sources)
  }

  ghost predicate CallOk(s: Settings, candidates: seq<seq<nat>>) {
    && 0 < s.sources <= s.beams && s.vocabulary > 0
    && forall t: nat {:trigger candidates[t]} :: t < |candidates| ==>
         CandidatesOk(s, candidates[t], if t == 0 then s.sources else s.beams)
  }

  ghost function Unflattened(s: Settings, candidates: seq<seq<nat>>): (steps: seq<seq<Choice>>)
    requires CallOk(s, candidates)
    ensures |steps| == |candidates|
  {
    seq(|candidates|, (t: nat) requires t < |candidates| => Unflatten(candidates[t], s.vocabulary))
  }

  lemma {:induction false} UnflattenedOk(s: Settings, candidates: seq<seq<nat>>)
    requires CallOk(s, candidates)
    ensures StepsOk(s, Unflattened(s, candidates))
    ensures forall t :: 0 <= t < |candidates| ==>
              AreChoices(candidates[t], s.vocabulary, Unflattened(s, candidates)[t])
  {
    forall t: nat | t < |candidates|
      ensures AreChoices(candidates[t], s.vocabulary, Unflattened(s, candidates)[t])
      ensures OriginsBelow(Unflattened(s, candidates)[t], if t == 0 then s.sources else s.beams)
    {
      UnflattenIs(candidates[t], s.vocabulary);
      UnflattenBelow(candidates[t], s.vocabulary, if t == 0 then s.sources else s.beams);
    }
  }

  /** With one end id there are substitutes for all ends. */
  lemma {:induction false} ChoicesSuffice(s: Settings, flat: seq<nat>, sources: nat)
    requires Candidates(flat, s.vocabulary, sources) && |flat| == 2 * s.beams && sources <= s.beams
    ensures Enough(WordsOf(Unflatten(flat, s.vocabulary)), {s.eos}, s.beams, s.beams)
  {
    SubstitutesSuffice(flat, s.vocabulary, sources, s.eos, s.beams);
    UnflattenIs(flat, s.vocabulary);
  }

  /** The beams that go on after a step. */
  method Survivors(s: Settings, flat: seq<nat>, ghost choices: seq<Choice>, histories: seq<seq<nat>>, ids: seq<nat>,
                   ghost before: seq<seq<nat>>, ghost step: nat) returns (alive: seq<seq<nat>>, active: seq<nat>)
    requires s.vocabulary > 0 && |flat| == 2 * s.beams && |before| <= s.beams
    requires Candidates(flat, s.vocabulary, |before|) && choices == Unflatten(flat, s.vocabulary)
    requires AllExtend(histories, before, choices) && ids == WordsOf(choices) && AllLive(before, s.eos, step)
    ensures Survives(s, choices, before, alive, active) && AllLive(alive, s.eos, step + 1)
  {
    active := SelectBeams(ids, {s.eos}, s.beams);
    ChoicesSuffice(s, flat, |before|);
    alive := Take(histories, active);
    StillLive(histories, choices, before, active, alive, s.eos, step);
  }

  /** No live beam contains the end id, and no hypothesis except as its last token. */
  ghost predicate NoneContainsEnd(s: Settings, live: seq<seq<seq<nat>>>, hypotheses: seq<seq<nat>>) {
    && (forall h :: h in hypotheses ==> HypothesisOk(h, s.eos, s.includeEos))
    && forall t :: 0 <= t < |live| ==> |live[t]| == s.beams && AllLive(live[t], s.eos, t + 1)
  }

  /** What holds before a step. */
  ghost predicate AtStep(s: Settings, steps: seq<seq<Choice>>, live: seq<seq<seq<nat>>>, chosen: seq<seq<nat>>,
                         alive: seq<seq<nat>>, hypotheses: seq<seq<nat>>, topBeamFinished: bool)
    requires StepsOk(s, steps)
  {
    && IsRun(s, steps, live, chosen) && NoneContainsEnd(s, live, hypotheses)
    && alive == Before(s, live, |live|) && AllLive(alive, s.eos, |live|)
    && hypotheses == AllRegistered(s, steps, live, |live|)
    && (topBeamFinished <==> |live| > 0 && TopEnded(s, steps, |live| - 1))
  }

  /** The hypotheses of a step, and whether the run is over. */
  method RegisterStep(s: Settings, step: nat, choices: seq<Choice>, histories: seq<seq<nat>>, ids: seq<nat>, last: bool,
                      hypotheses0: seq<seq<nat>>, topBeamFinished0: bool, ghost steps: seq<seq<Choice>>,
                      ghost live: seq<seq<seq<nat>>>, ghost chosen: seq<seq<nat>>, ghost alive: seq<seq<nat>>)
    returns (over: bool, hypotheses: seq<seq<nat>>, topBeamFinished: bool)
    requires StepsOk(s, steps) && s.beams > 0 && step == |live| < |steps| && choices == steps[step]
    requires AtStep(s, steps, live, chosen, alive, hypotheses0, topBeamFinished0) && last == (|live| + 1 == |steps|)
    requires AllExtend(histories, alive, choices) && ids == WordsOf(choices)
    requires forall j :: 0 <= j < |histories| ==> |histories[j]| == |live| + 1 && NoEnd(histories[j][..|live|], s.eos)
    ensures hypotheses == AllRegistered(s, steps, live, |live| + 1) && NoneContainsEnd(s, live, hypotheses)
    ensures over <==> Done(s, steps, live, |live|)
    ensures !last ==> (topBeamFinished <==> TopEnded(s, steps, |live|))
  {
    hypotheses := Register(histories, s.beams, s.eos, s.includeEos, last, step, hypotheses0, alive, choices);
    topBeamFinished := topBeamFinished0 || last || ids[0] == s.eos;
    TopEndedNext(s, steps, step);
    var enough := if s.allowEarlyExit then topBeamFinished && |hypotheses| >= s.numHypotheses
                  else |hypotheses| >= s.maxCandidates;
    over := last || enough;
  }

  /** One step; it is the last if the run is over. */
  method OneStep(s: Settings, step: nat, flat: seq<nat>, last: bool, alive0: seq<seq<nat>>, hypotheses0: seq<seq<nat>>,
                 topBeamFinished0: bool, ghost steps: seq<seq<Choice>>, ghost live0: seq<seq<seq<nat>>>,
                 ghost chosen0: seq<seq<nat>>)
    returns (over: bool, alive: seq<seq<nat>>, hypotheses: seq<seq<nat>>, topBeamFinished: bool,
             ghost live: seq<seq<seq<nat>>>, ghost chosen: seq<seq<nat>>)
    requires StepsOk(s, steps) && s.vocabulary > 0 && 0 < |alive0| <= s.beams && step == |live0| < |steps|
    requires CandidatesOk(s, flat, |alive0|)
    requires steps[|live0|] == Unflatten(flat, s.vocabulary) && last == (|live0| + 1 == |steps|)
    requires AtStep(s, steps, live0, chosen0, alive0, hypotheses0, topBeamFinished0)
    ensures hypotheses == AllRegistered(s, steps, live0, |live0| + 1) && NoneContainsEnd(s, live0, hypotheses)
    ensures over <==> Done(s, steps, live0, |live0|)
    ensures if over then live == live0 && chosen == chosen0
            else |live| == |live0| + 1 && |alive| == s.beams
                 && AtStep(s, steps, live, chosen, alive, hypotheses, topBeamFinished)
  {
    var choices := Unflatten(flat, s.vocabulary);
    UnflattenBelow(flat, s.vocabulary, |alive0|);
    var histories, ids := Histories(alive0, choices), WordsOf(choices);
    HistoriesLive(alive0, choices, s.eos, |live0|);
    over, hypotheses, topBeamFinished := RegisterStep(s, step, choices, histories, ids, last, hypotheses0,
                                                      topBeamFinished0, steps, live0, chosen0, alive0);
    alive, live, chosen := alive0, live0, chosen0;
    if !over {
      var active;
      alive, active := Survivors(s, flat, choices, histories, ids, alive0, |live0|);
      AtNext(s, steps, live0, chosen0, alive0, alive, active, hypotheses, topBeamFinished);
      live, chosen := live0 + [alive], chosen0 + [active];
    }
  }

  lemma {:induction false} AtNext(s: Settings, steps: seq<seq<Choice>>, live: seq<seq<seq<nat>>>,
                                  chosen: seq<seq<nat>>, before: seq<seq<nat>>, alive: seq<seq<nat>>,
                                  active: seq<nat>, hypotheses: seq<seq<nat>>, topBeamFinished: bool)
    requires StepsOk(s, steps) && IsRun(s, steps, live, chosen) && |live| < |steps| && !Done(s, steps, live, |live|)
    requires Survives(s, steps[|live|], before, alive, active) && before == Before(s, live, |live|)
    requires AllLive(alive, s.eos, |live| + 1) && NoneContainsEnd(s, live, hypotheses)
    requires hypotheses == AllRegistered(s, steps, live, |live| + 1) && topBeamFinished == TopEnded(s, steps, |live|)
    ensures AtStep(s, steps, live + [alive], chosen + [active], alive, hypotheses, topBeamFinished)
  {
    RunNext(s, steps, live, chosen, alive, active);
    RegisteredKept(s, steps, live, alive, |live| + 1);
    LiveNext(s, live, alive, hypotheses);
  }

  lemma {:induction false} LiveNext(s: Settings, live: seq<seq<seq<nat>>>, alive: seq<seq<nat>>,
                                    hypotheses: seq<seq<nat>>)
    requires NoneContainsEnd(s, live, hypotheses) && |alive| == s.beams && AllLive(alive, s.eos, |live| + 1)
    ensures NoneContainsEnd(s, live + [alive], hypotheses)
  {
  }

  /** The loop over the steps. */
  method RunSteps(s: Settings, candidates: seq<seq<nat>>, ghost steps: seq<seq<Choice>>)
    returns (hypotheses: seq<seq<nat>>, ghost live: seq<seq<seq<nat>>>, ghost chosen: seq<seq<nat>>)
    requires CallOk(s, candidates) && steps == Unflattened(s, candidates) && StepsOk(s, steps)
    ensures IsRun(s, steps, live, chosen) && NoneContainsEnd(s, live, hypotheses)
    ensures candidates == [] ==> hypotheses == [] && live == []
    ensures candidates != [] ==>
              && |live| < |candidates| && Done(s, steps, live, |live|)
              && hypotheses == AllRegistered(s, steps, live, |live| + 1)
  {
    hypotheses, live, chosen := [], [], [];
    var topBeamFinished := false;
    var alive: seq<seq<nat>> := seq(s.sources, (i: nat) => []);
    for step := 0 to |candidates|
      invariant |live| == step && |alive| == if step == 0 then s.sources else s.beams
      invariant AtStep(s, steps, live, chosen, alive, hypotheses, topBeamFinished)
      invariant step == |candidates| ==> step == 0
    {
      assert CandidatesOk(s, candidates[step], |alive|);
      var over;
      over, alive, hypotheses, topBeamFinished, live, chosen :=
        OneStep(s, step, candidates[step], step + 1 == |candidates|, alive, hypotheses, topBeamFinished, steps, live,
                chosen);
      if over {
        break;
      }
    }
  }

  /**
   The run of one row, where `candidates[t]` is what the sampler returns in step t, and `steps[t]` the same taken apart.
   Live beams extend those of the step before, at the places chosen; none of them contains the end id. Hypotheses are
   those that end, step by step, until there are enough.
   */
  method Search(s: Settings, candidates: seq<seq<nat>>)
    returns (hypotheses: seq<seq<nat>>, ghost steps: seq<seq<Choice>>, ghost live: seq<seq<seq<nat>>>,
             ghost chosen: seq<seq<nat>>)
    requires CallOk(s, candidates)
    ensures |steps| == |candidates| && StepsOk(s, steps) && IsRun(s, steps, live, chosen)
    ensures forall t :: 0 <= t < |steps| ==> AreChoices(candidates[t], s.vocabulary, steps[t])
    ensures NoneContainsEnd(s, live, hypotheses)
    ensures candidates == [] ==> hypotheses == [] && live == []
    ensures candidates != [] ==>
              && |live| < |candidates| && Done(s, steps, live, |live|)
              && hypotheses == AllRegistered(s, steps, live, |live| + 1)
  {
    steps := Unflattened(s, candidates);
    UnflattenedOk(s, candidates);
    hypotheses, live, chosen := RunSteps(s, candidates, steps);
  }

  lemma {:induction false} TopEndedNext(s: Settings, steps: seq<seq<Choice>>, t: nat)
    requires t < |steps| && |steps[t]| > 0
    ensures TopEnded(s, steps, t) <==> steps[t][0].word == s.eos || (t > 0 && TopEnded(s, steps, t - 1))
  {
  }

  lemma {:induction false} HistoriesLive(alive: seq<seq<nat>>, choices: seq<Choice>, eos: nat, step: nat)
    requires OriginsBelow(choices, |alive|) && AllLive(alive, eos, step)
    ensures AllExtend(Histories(alive, choices), alive, choices)
    ensures forall j :: 0 <= j < |choices| ==>
              var h := Histories(alive, choices)[j];
              |h| == step + 1 && NoEnd(h[..step], eos) && h[step] == choices[j].word
  {
  }

  lemma {:induction false} StillLive(histories: seq<seq<nat>>, choices: seq<Choice>, before: seq<seq<nat>>,
                                     active: seq<nat>, alive: seq<seq<nat>>, eos: nat, step: nat)
    requires AllExtend(histories, before, choices) && |alive| == |active| && AllLive(before, eos, step)
    requires NoneEnds(WordsOf(choices), {eos}, active)
    requires forall k :: 0 <= k < |active| ==> alive[k] == histories[active[k]]
    ensures AllLive(alive, eos, step + 1)
  {
    forall k | 0 <= k < |alive|
      ensures NoEnd(alive[k], eos) && |alive[k]| == step + 1
    {
      assert Extends(histories[active[k]], before, choices[active[k]]);
      assert WordsOf(choices)[active[k]] == choices[active[k]].word;
    }
  }
}
