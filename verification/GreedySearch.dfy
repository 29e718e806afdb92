/**
 Batched greedy search of CTranslate2: finished rows leave the batch, and the remaining rows move up. The model
 is an oracle that sees a row's own input, the tokens fed to it and the tokens sampled for it.
 */
module GreedySearch {

  datatype Best = Best(id: int, score: real)

  datatype Oracle = Oracle(choose: (nat, seq<int>, seq<int>) -> Best)

  function Choose(m: Oracle, input: nat, fed: seq<int>, sampled: seq<int>): Best {
    m.choose(input, fed, sampled)
  }

  /** A hypothesis with its score, and how often it was finalised. */
  datatype Result = Result(tokens: seq<int>, score: real, finals: nat)

  /** `inputs` names the examples of the batch; empty prefixes stand for no prefixes. */
  datatype Config = Config(inputs: seq<nat>, starts: seq<int>, prefixes: seq<seq<nat>>, endIds: set<int>,
                           maxLength: nat, returnPrefix: bool, includeEos: bool)

  predicate ConfigOk(c: Config) {
    |c.inputs| == |c.prefixes| == |c.starts|
  }

  // ---------------------------------------------------------------------------------------------
  // One row on its own
  // ---------------------------------------------------------------------------------------------

  /** A row that still runs: the tokens fed so far, the sampled ones, and the token to feed next. */
  datatype Row = Running(fed: seq<int>, sampled: seq<int>, next: int, result: Result) | Finished(result: Result)

  /** Prefix tokens override the sample, with score 0. */
  function Forced(c: Config, input: nat, step: nat, best: Best): Best
    requires input < |c.prefixes|
  {
    if step < |c.prefixes[input]| then Best(c.prefixes[input][step], 0.0) else best
  }

  /** The step after which a row ends in any case. */
  function LastStep(c: Config, input: nat): int
    requires input < |c.prefixes|
  {
    c.maxLength + if c.returnPrefix then 0 else |c.prefixes[input]|
  }

  predicate Ends(c: Config, input: nat, step: nat, id: int)
    requires input < |c.prefixes|
  {
    (id in c.endIds && step >= |c.prefixes[input]|) || step + 1 == LastStep(c, input)
  }

  predicate Shown(c: Config, input: nat, step: nat, id: int)
    requires input < |c.prefixes|
  {
    (id !in c.endIds || c.includeEos) && (c.returnPrefix || step >= |c.prefixes[input]|)
  }

  function Updated(c: Config, input: nat, step: nat, best: Best, r: Result): Result
    requires input < |c.prefixes|
  {
    Result(
      if Shown(c, input, step, best.id) then r.tokens + [best.id] else r.tokens,
      r.score + best.score,
      if Ends(c, input, step, best.id) then r.finals + 1 else r.finals
    )
  }

  function StepRow(m: Oracle, c: Config, input: nat, step: nat, row: Row): Row
    requires ConfigOk(c) && input < |c.prefixes| && row.Running?
  {
    var fed := row.fed + [row.next];
    var best := Forced(c, input, step, Choose(m, c.inputs[input], fed, row.sampled));
    var result := Updated(c, input, step, best, row.result);
    if Ends(c, input, step, best.id) then Finished(result)
    else Running(fed, row.sampled + [best.id], best.id, result)
  }

  function FirstRow(c: Config, input: nat): Row
    requires input < |c.starts|
  {
    Running([], [], c.starts[input], Result([], 0.0, 0))
  }

  /** What a row ends with when at most `maxStep` steps are made in all. */
  function RunRow(m: Oracle, c: Config, input: nat, step: nat, maxStep: nat, row: Row): Result
    requires ConfigOk(c) && input < |c.prefixes|
    decreases maxStep - step
  {
    if row.Finished? || step >= maxStep then row.result
    else RunRow(m, c, input, step + 1, maxStep, StepRow(m, c, input, step, row))
  }

  // ---------------------------------------------------------------------------------------------
  // The batched search
  // ---------------------------------------------------------------------------------------------

  /** Per row of the batch: the decoder state of one input, with everything fed to it. */
  datatype DecoderRow = DecoderRow(input: nat, fed: seq<int>)

  predicate Increasing(s: seq<nat>) {
    forall i, j :: 0 <= i < j < |s| ==> s[i] < s[j]
  }

  function MaxOver(lengths: seq<seq<nat>>, maxLength: nat): nat {
    if lengths == [] then 0
    else
      var rest, last := MaxOver(lengths[..|lengths| - 1], maxLength), |lengths[|lengths| - 1]| + maxLength;
      if rest > last then rest else last
  }

  /** The number of steps of a batch. */
  function MaxStep(c: Config): nat {
    if c.returnPrefix then c.maxLength else MaxOver(c.prefixes, c.maxLength)
  }

  method GetMaxStep(c: Config) returns (maxStep: nat)
    ensures maxStep == MaxStep(c)
  {
    if c.returnPrefix {
      return c.maxLength;
    }
    maxStep := 0;
    for i := 0 to |c.prefixes|
      invariant maxStep == MaxOver(c.prefixes[..i], c.maxLength)
    {
      assert c.prefixes[..i + 1][..i] == c.prefixes[..i];
      var length := |c.prefixes[i]| + c.maxLength;
      maxStep := if maxStep > length then maxStep else length;
    }
    assert c.prefixes[..|c.prefixes|] == c.prefixes;
  }

  /** Which rows of the batch go on after this step. */
  ghost predicate IsSelection(c: Config, batchOffset: seq<nat>, step: nat, best: seq<Best>, upTo: nat, chosen: seq<nat>)
    requires forall i :: 0 <= i < |batchOffset| ==> batchOffset[i] < |c.prefixes|
    requires upTo <= |batchOffset| == |best|
  {
    && Increasing(chosen)
    && (forall k :: 0 <= k < |chosen| ==> chosen[k] < upTo)
    && forall i: nat :: i < upTo ==> (i in chosen <==> !Ends(c, batchOffset[i], step, best[i].id))
  }

  ghost predicate OffsetsOk(c: Config, batchOffset: seq<nat>) {
    Increasing(batchOffset) && forall i :: 0 <= i < |batchOffset| ==> batchOffset[i] < |c.prefixes|
  }

  /** The first `upTo` rows of the batch have had their results and samples updated, and nothing else changed. */
  ghost predicate Progress(c: Config, step: nat, offset: seq<nat>, best: seq<Best>, before: seq<Result>,
                           after: seq<Result>, sample: seq<int>, upTo: nat)
    requires OffsetsOk(c, offset) && |before| == |after| == |c.prefixes| && upTo <= |best| == |sample| == |offset|
  {
    && (forall i {:trigger offset[i]} :: 0 <= i < |offset| ==>
          after[offset[i]] == if i < upTo then Updated(c, offset[i], step, best[i], before[offset[i]])
              else before[offset[i]])
    && (forall b: nat {:trigger before[b]} :: b < |before| && b !in offset ==> after[b] == before[b])
    && forall i {:trigger sample[i]} :: 0 <= i < upTo && !Ends(c, offset[i], step, best[i].id) ==>
       sample[i] == best[i].id
  }

  lemma {:induction false} ProgressNext(c: Config, step: nat, offset: seq<nat>, best: seq<Best>, before: seq<Result>,
                                        after: seq<Result>, next: seq<Result>, sample: seq<int>, nextSample: seq<int>,
                                        i: nat)
    requires OffsetsOk(c, offset) && |before| == |after| == |c.prefixes| && i < |best| == |sample| == |offset|
    requires Progress(c, step, offset, best, before, after, sample, i)
    requires next == after[offset[i] := Updated(c, offset[i], step, best[i], after[offset[i]])]
    requires nextSample == if Ends(c, offset[i], step, best[i].id) then sample else sample[i := best[i].id]
    ensures Progress(c, step, offset, best, before, next, nextSample, i + 1)
  {
    forall k | 0 <= k < |offset|
      ensures k != i ==> next[offset[k]] == after[offset[k]]
      ensures k == i ==> next[offset[k]] == Updated(c, offset[i], step, best[i], before[offset[i]])
    {
      assert k != i ==> offset[k] != offset[i];
    }
    forall b: nat | b < |before| && b !in offset
      ensures next[b] == before[b]
    {
      assert b != offset[i];
    }
  }

  lemma {:induction false} SelectionNext(c: Config, offset: seq<nat>, step: nat, best: seq<Best>, i: nat,
                                         chosen: seq<nat>)
    requires OffsetsOk(c, offset) && i < |offset| == |best| && IsSelection(c, offset, step, best, i, chosen)
    ensures var ends := Ends(c, offset[i], step, best[i].id);
            IsSelection(c, offset, step, best, i + 1, if ends then chosen else chosen + [i])
  {
  }

  /** The loop over the rows of one step. */
  method ProcessRows(c: Config, step: nat, batchOffset: seq<nat>, best: seq<Best>, results: seq<Result>,
                     sampleFrom: seq<int>)
    returns (newResults: seq<Result>, newSample: seq<int>, nonFinished: seq<nat>)
    requires ConfigOk(c) && OffsetsOk(c, batchOffset) && |results| == |c.prefixes|
    requires |best| == |sampleFrom| == |batchOffset|
    ensures |newResults| == |results| && |newSample| == |sampleFrom|
    ensures IsSelection(c, batchOffset, step, best, |best|, nonFinished)
    ensures Progress(c, step, batchOffset, best, results, newResults, newSample, |best|)
  {
    newResults, newSample, nonFinished := results, sampleFrom, [];
    for i := 0 to |best|
      invariant |newResults| == |results| && |newSample| == |sampleFrom|
      invariant IsSelection(c, batchOffset, step, best, i, nonFinished)
      invariant Progress(c, step, batchOffset, best, results, newResults, newSample, i)
    {
      var wordId, batchId := best[i].id, batchOffset[i];
      ghost var results0, sample0 := newResults, newSample;
      SelectionNext(c, batchOffset, step, best, i, nonFinished);
      var r := newResults[batchId];
      if Shown(c, batchId, step, wordId) {
        r := r.(tokens := r.tokens + [wordId]);
      }
      r := r.(score := r.score + best[i].score);
      if Ends(c, batchId, step, wordId) {
        r := r.(finals := r.finals + 1);
      } else {
        nonFinished := nonFinished + [i];
        newSample := newSample[i := wordId];
      }
      assert r == Updated(c, batchId, step, best[i], results0[batchId]);
      newResults := newResults[batchId := r];
      ProgressNext(c, step, batchOffset, best, results, results0, newResults, sample0, newSample, i);
    }
  }

  function Gather<T>(s: seq<T>, index: seq<nat>): (r: seq<T>)
    requires forall k :: 0 <= k < |index| ==> index[k] < |s|
  {
    seq(|index|, (k: nat) requires k < |index| => s[index[k]])
  }

  lemma {:induction false} InGather<T>(s: seq<T>, index: seq<nat>, i: nat)
    requires forall k :: 0 <= k < |index| ==> index[k] < |s|
    ensures i in index ==> s[i] in Gather(s, index)
  {
    if i in index {
      var k :| 0 <= k < |index| && index[k] == i;
      assert Gather(s, index)[k] == s[i];
    }
  }

  /** The batch at the head of the step loop. */
  datatype Batch = Batch(offset: seq<nat>, state: seq<DecoderRow>, alive: seq<seq<int>>, sample: seq<int>,
                         results: seq<Result>)

  ghost predicate BatchOk(c: Config, s: Batch) {
    && ConfigOk(c) && OffsetsOk(c, s.offset) && |s.results| == |c.prefixes|
    && |s.offset| == |s.state| == |s.alive| == |s.sample|
    && forall i :: 0 <= i < |s.state| ==> s.state[i].input == c.inputs[s.offset[i]]
  }

  /** The row that position `i` of the batch stands for. */
  ghost function RowAt(c: Config, s: Batch, i: nat): Row
    requires BatchOk(c, s) && i < |s.offset|
  {
    Running(s.state[i].fed, s.alive[i], s.sample[i], s.results[s.offset[i]])
  }

  ghost function Whole(m: Oracle, c: Config, b: nat): Result
    requires ConfigOk(c) && b < |c.prefixes|
  {
    RunRow(m, c, b, 0, MaxStep(c), FirstRow(c, b))
  }

  /** The row at `i` ends, after the steps to come, with what its input ends with on its own. */
  ghost predicate OnCourse(m: Oracle, c: Config, step: nat, s: Batch, i: nat)
    requires BatchOk(c, s) && i < |s.offset|
  {
    RunRow(m, c, s.offset[i], step, MaxStep(c), RowAt(c, s, i)) == Whole(m, c, s.offset[i])
  }

  ghost predicate AllOnCourse(m: Oracle, c: Config, step: nat, s: Batch)
    requires BatchOk(c, s)
  {
    && (forall i: nat {:trigger OnCourse(m, c, step, s, i)} :: i < |s.offset| ==> OnCourse(m, c, step, s, i))
    && forall b: nat {:trigger Whole(m, c, b)} :: b < |s.results| && b !in s.offset ==> s.results[b] == Whole(m, c, b)
  }

  /** Feeds the last sample of each row to the decoder. */
  function Feed(state: seq<DecoderRow>, sample: seq<int>): seq<DecoderRow>
    requires |state| == |sample|
  {
    seq(|state|, (i: nat) requires i < |state| => state[i].(fed := state[i].fed + [sample[i]]))
  }

  /** Samples each row and lets prefixes override it. */
  method SampleRows(m: Oracle, c: Config, step: nat, offset: seq<nat>, state: seq<DecoderRow>, alive: seq<seq<int>>)
    returns (best: seq<Best>)
    requires ConfigOk(c) && OffsetsOk(c, offset) && |state| == |alive| == |offset|
    ensures |best| == |state|
    ensures forall i :: 0 <= i < |state| ==>
              best[i] == Forced(c, offset[i], step, Choose(m, state[i].input, state[i].fed, alive[i]))
  {
    best := seq(|state|, (i: nat) requires i < |state| => Choose(m, state[i].input, state[i].fed, alive[i]));
    ghost var sampled := best;
    for i := 0 to |best|
      invariant |best| == |state|
      invariant forall k :: 0 <= k < i ==> best[k] == Forced(c, offset[k], step, sampled[k])
      invariant forall k :: i <= k < |best| ==> best[k] == sampled[k]
    {
      if step < |c.prefixes[offset[i]]| {
        best := best[i := Best(c.prefixes[offset[i]][step], 0.0)];
      }
    }
  }

  function Appended(alive: seq<seq<int>>, best: seq<Best>): seq<seq<int>>
    requires |alive| == |best|
  {
    seq(|alive|, (i: nat) requires i < |alive| => alive[i] + [best[i].id])
  }

  /** What one step makes of the batch: rows that end leave, the others move up in order. */
  ghost predicate Stepped(m: Oracle, c: Config, step: nat, s: Batch, t: Batch, best: seq<Best>, chosen: seq<nat>)
    requires BatchOk(c, s)
  {
    && |best| == |s.offset| && |t.results| == |s.results| && IsSelection(c, s.offset, step, best, |best|, chosen)
    && t.offset == Gather(s.offset, chosen) && t.state == Gather(Feed(s.state, s.sample), chosen)
    && t.alive == Gather(Appended(s.alive, best), chosen) && |t.sample| == |chosen|
    && (forall i :: 0 <= i < |best| ==>
          best[i] == Forced(c, s.offset[i], step,
                            Choose(m, s.state[i].input, s.state[i].fed + [s.sample[i]], s.alive[i])))
    && (forall i :: 0 <= i < |best| ==>
          t.results[s.offset[i]] == Updated(c, s.offset[i], step, best[i], s.results[s.offset[i]]))
    && (forall b: nat :: b < |s.results| && b !in s.offset ==> t.results[b] == s.results[b])
    && forall k :: 0 <= k < |chosen| ==> t.sample[k] == best[chosen[k]].id
  }

  lemma {:induction false} SteppedOk(m: Oracle, c: Config, step: nat, s: Batch, t: Batch, best: seq<Best>,
                                     chosen: seq<nat>)
    requires BatchOk(c, s) && Stepped(m, c, step, s, t, best, chosen)
    ensures BatchOk(c, t)
  {
  }

  lemma {:induction false} EndedRow(m: Oracle, c: Config, step: nat, s: Batch, t: Batch, best: seq<Best>,
                                    chosen: seq<nat>, i: nat)
    requires BatchOk(c, s) && Stepped(m, c, step, s, t, best, chosen) && step < MaxStep(c)
    requires i < |best| && OnCourse(m, c, step, s, i) && Ends(c, s.offset[i], step, best[i].id)
    ensures t.results[s.offset[i]] == Whole(m, c, s.offset[i])
  {
    var row := StepRow(m, c, s.offset[i], step, RowAt(c, s, i));
    assert row == Finished(t.results[s.offset[i]]);
    assert RunRow(m, c, s.offset[i], step + 1, MaxStep(c), row) == row.result;
  }

  lemma {:induction false} GoingRow(m: Oracle, c: Config, step: nat, s: Batch, t: Batch, best: seq<Best>,
                                    chosen: seq<nat>, k: nat)
    requires BatchOk(c, s) && Stepped(m, c, step, s, t, best, chosen) && BatchOk(c, t) && step < MaxStep(c)
    requires k < |chosen| && OnCourse(m, c, step, s, chosen[k])
    ensures OnCourse(m, c, step + 1, t, k)
  {
  }

  lemma {:induction false} StepKeepsCourse(m: Oracle, c: Config, step: nat, s: Batch, t: Batch, best: seq<Best>,
                                           chosen: seq<nat>)
    requires BatchOk(c, s) && Stepped(m, c, step, s, t, best, chosen) && BatchOk(c, t) && step < MaxStep(c)
    requires AllOnCourse(m, c, step, s)
    ensures AllOnCourse(m, c, step + 1, t)
  {
    var after := step + 1;
    forall k: nat | k < |t.offset|
      ensures OnCourse(m, c, after, t, k)
    {
      assert OnCourse(m, c, step, s, chosen[k]);
      GoingRow(m, c, step, s, t, best, chosen, k);
    }
    forall b: nat | b < |t.results| && b !in t.offset
      ensures t.results[b] == Whole(m, c, b)
    {
      if b in s.offset {
        var i: nat :| i < |s.offset| && s.offset[i] == b;
        assert OnCourse(m, c, step, s, i);
        InGather(s.offset, chosen, i);
        EndedRow(m, c, step, s, t, best, chosen, i);
      }
    }
  }

  function InitialBatch(c: Config): Batch
    requires ConfigOk(c)
  {
    var n := |c.starts|;
    Batch(seq(n, (i: nat) => i), seq(n, (i: nat) requires i < n => DecoderRow(c.inputs[i], [])), seq(n, (i: nat) => []),
          c.starts, seq(n, (i: nat) => Result([], 0.0, 0)))
  }

  lemma {:induction false} StartsOnCourse(m: Oracle, c: Config)
    requires ConfigOk(c)
    ensures BatchOk(c, InitialBatch(c)) && AllOnCourse(m, c, 0, InitialBatch(c))
  {
    var s := InitialBatch(c);
    forall i: nat | i < |s.offset|
      ensures OnCourse(m, c, 0, s, i)
    {
      assert s.offset[i] == i && RowAt(c, s, i) == FirstRow(c, i);
    }
    forall b: nat | b < |s.results|
      ensures b in s.offset
    {
      assert s.offset[b] == b;
    }
  }

  /** When all steps are made, or no row is left, every result is final. */
  lemma {:induction false} EndsWhole(m: Oracle, c: Config, step: nat, s: Batch)
    requires BatchOk(c, s) && AllOnCourse(m, c, step, s) && (step >= MaxStep(c) || s.offset == [])
    ensures forall b: nat :: b < |c.starts| ==> s.results[b] == Whole(m, c, b)
  {
    forall b: nat | b < |c.starts|
      ensures s.results[b] == Whole(m, c, b)
    {
      if b in s.offset {
        var i: nat :| i < |s.offset| && s.offset[i] == b;
        assert OnCourse(m, c, step, s, i);
      }
    }
  }

  /** One step of the search; the batch shrinks only if some row ended. */
  method Step(m: Oracle, c: Config, step: nat, s: Batch) returns (t: Batch)
    requires BatchOk(c, s) && AllOnCourse(m, c, step, s) && step < MaxStep(c)
    ensures BatchOk(c, t) && AllOnCourse(m, c, step + 1, t)
  {
    var state := Feed(s.state, s.sample);
    var best := SampleRows(m, c, step, s.offset, state, s.alive);
    var alive := Appended(s.alive, best);
    var results, sample, nonFinished := ProcessRows(c, step, s.offset, best, s.results, s.sample);
    if |nonFinished| != |s.offset| {
      t := Batch(Gather(s.offset, nonFinished), Gather(state, nonFinished), Gather(alive, nonFinished),
                 Gather(sample, nonFinished), results);
    } else {
      GatherAll(nonFinished, |s.offset|);
      t := Batch(s.offset, state, alive, sample, results);
    }
    SteppedOk(m, c, step, s, t, best, nonFinished);
    StepKeepsCourse(m, c, step, s, t, best, nonFinished);
  }

  /** Every input of a batch ends exactly as it would on its own, with the batch's step limit. */
  method Search(m: Oracle, c: Config) returns (results: seq<Result>)
    requires ConfigOk(c)
    ensures |results| == |c.starts|
    ensures forall b: nat {:trigger Whole(m, c, b)} :: b < |c.starts| ==> results[b] == Whole(m, c, b)
    ensures c.maxLength > 0 ==> forall b: nat {:trigger results[b]} :: b < |c.starts| ==> Answers(m, c, b, results[b])
  {
    var s := InitialBatch(c);
    var maxStep := GetMaxStep(c);
    StartsOnCourse(m, c);
    var step := 0;
    while step < maxStep
      invariant step <= maxStep == MaxStep(c)
      invariant BatchOk(c, s) && AllOnCourse(m, c, step, s)
    {
      s := Step(m, c, step, s);
      step := step + 1;
      if |s.offset| == 0 {
        break;
      }
    }
    EndsWhole(m, c, step, s);
    results := s.results;
    if c.maxLength > 0 {
      forall b: nat | b < |c.starts|
        ensures Answers(m, c, b, results[b])
      {
        assert results[b] == Whole(m, c, b);
        WholeYields(m, c, b);
      }
    }
  }

  /** Choosing as many rows as there are chooses them all, in place. */
  lemma {:induction false} GatherAll(chosen: seq<nat>, n: nat)
    requires Increasing(chosen) && |chosen| == n && forall k :: 0 <= k < n ==> chosen[k] < n
    ensures forall k :: 0 <= k < n ==> chosen[k] == k
  {
    Below(chosen, n, n);
  }

  lemma {:induction false} Below(chosen: seq<nat>, n: nat, k: nat)
    requires Increasing(chosen) && |chosen| == n && k <= n && forall i :: 0 <= i < n ==> chosen[i] < n
    ensures forall i :: 0 <= i < k ==> i <= chosen[i]
    ensures forall i :: n - k <= i < n ==> chosen[i] <= i
    decreases k
  {
    if k > 0 {
      Below(chosen, n, k - 1);
      assert k > 1 ==> chosen[k - 2] < chosen[k - 1];
      assert k > 1 ==> chosen[n - k] < chosen[n - k + 1];
    }
  }

  // ---------------------------------------------------------------------------------------------
  // Batch and solo
  // ---------------------------------------------------------------------------------------------

  /** The configuration of one input on its own. */
  function Solo(c: Config, b: nat): Config
    requires ConfigOk(c) && b < |c.starts|
  {
    c.(inputs := [c.inputs[b]], starts := [c.starts[b]], prefixes := [c.prefixes[b]])
  }

  lemma {:induction false} MaxOverBounds(lengths: seq<seq<nat>>, maxLength: nat, b: nat)
    requires b < |lengths|
    ensures |lengths[b]| + maxLength <= MaxOver(lengths, maxLength)
  {
    if b < |lengths| - 1 {
      MaxOverBounds(lengths[..|lengths| - 1], maxLength, b);
    }
  }

  /** A row runs in a batch as it runs alone, step by step. */
  lemma {:induction false} SoloRow(m: Oracle, c: Config, b: nat, step: nat, maxStep: nat, row: Row)
    requires ConfigOk(c) && b < |c.starts|
    ensures RunRow(m, Solo(c, b), 0, step, maxStep, row) == RunRow(m, c, b, step, maxStep, row)
    decreases maxStep - step
  {
    if row.Running? && step < maxStep {
      assert StepRow(m, Solo(c, b), 0, step, row) == StepRow(m, c, b, step, row);
      SoloRow(m, c, b, step + 1, maxStep, StepRow(m, c, b, step, row));
    }
  }

  /** Steps beyond a row's last step do not change it, and it is finalised once. */
  lemma {:induction false} ExtraSteps(m: Oracle, c: Config, b: nat, step: nat, maxStep: nat, row: Row)
    requires ConfigOk(c) && b < |c.starts| && LastStep(c, b) <= maxStep
    requires row.Running? ==> step < LastStep(c, b) && row.result.finals == 0
    requires row.Finished? ==> row.result.finals == 1
    ensures RunRow(m, c, b, step, maxStep, row) == RunRow(m, c, b, step, LastStep(c, b), row)
    ensures RunRow(m, c, b, step, maxStep, row).finals == 1
    decreases maxStep - step
  {
    if row.Running? {
      ExtraSteps(m, c, b, step + 1, maxStep, StepRow(m, c, b, step, row));
    }
  }

  lemma {:induction false} SoloMaxStep(c: Config, b: nat)
    requires ConfigOk(c) && b < |c.starts|
    ensures MaxStep(Solo(c, b)) == LastStep(c, b) <= MaxStep(c)
  {
    assert MaxOver([c.prefixes[b]][..0], c.maxLength) == 0;
    MaxOverBounds(c.prefixes, c.maxLength, b);
  }

  /** An input that has a step of its own ends in the batch as it does alone, and is finalised once. */
  lemma {:induction false} BatchIsSolo(m: Oracle, c: Config, b: nat)
    requires ConfigOk(c) && b < |c.starts| && LastStep(c, b) > 0
    ensures Whole(m, c, b) == Whole(m, Solo(c, b), 0)
    ensures Whole(m, c, b).finals == 1
  {
    SoloMaxStep(c, b);
    ExtraSteps(m, c, b, 0, MaxStep(c), FirstRow(c, b));
    SoloRow(m, c, b, 0, LastStep(c, b), FirstRow(c, b));
  }

  // ---------------------------------------------------------------------------------------------
  // What a row ends with
  // ---------------------------------------------------------------------------------------------

  /** Without the end ids. */
  function Without(h: seq<int>, endIds: set<int>): seq<int> {
    if h == [] then []
    else Without(h[..|h| - 1], endIds) + if h[|h| - 1] in endIds then [] else [h[|h| - 1]]
  }

  function Total(scores: seq<real>): real {
    if scores == [] then 0.0 else Total(scores[..|scores| - 1]) + scores[|scores| - 1]
  }

  /** Token `t` is the prefix's, with score 0, or what the model chooses after the start token and those before `t`. */
  ghost predicate IsToken(m: Oracle, input: nat, start: int, prefix: seq<nat>, h: seq<int>, scores: seq<real>, t: nat)
    requires t < |h| == |scores|
  {
    if t < |prefix| then h[t] == prefix[t] && scores[t] == 0.0
    else Choose(m, input, [start] + h[..t], h[..t]) == Best(h[t], scores[t])
  }

  /** An end id that no prefix forces, or the length limit. */
  predicate StopsAt(prefix: seq<nat>, endIds: set<int>, limit: int, h: seq<int>, t: nat)
    requires t < |h|
  {
    (h[t] in endIds && t >= |prefix|) || t + 1 == limit
  }

  /** Everything that is generated: it stops at the first position where it has to. */
  ghost predicate IsHistory(m: Oracle, input: nat, start: int, prefix: seq<nat>, endIds: set<int>, limit: int,
                            h: seq<int>, scores: seq<real>) {
    && |h| == |scores| > 0
    && forall t: nat {:trigger h[t]} :: t < |h| ==>
         IsToken(m, input, start, prefix, h, scores, t) && (StopsAt(prefix, endIds, limit, h, t) <==> t == |h| - 1)
  }

  /** The hypothesis leaves out a prefix that is not returned, and end ids that are not included. */
  ghost predicate Yields(h: seq<int>, scores: seq<real>, prefix: seq<nat>, endIds: set<int>, returnPrefix: bool,
                         includeEos: bool, r: Result) {
    && (returnPrefix || |prefix| <= |h|)
    && var shown := if returnPrefix then h else h[|prefix|..];
       r == Result(if includeEos then shown else Without(shown, endIds), Total(scores), 1)
  }

  /** The answer for one input: start token, prefix and settings. */
  ghost predicate IsAnswer(m: Oracle, input: nat, start: int, prefix: seq<nat>, endIds: set<int>, maxLength: nat,
                           returnPrefix: bool, includeEos: bool, r: Result) {
    exists h, scores ::
      && IsHistory(m, input, start, prefix, endIds, maxLength + if returnPrefix then 0 else |prefix|, h, scores)
      && Yields(h, scores, prefix, endIds, returnPrefix, includeEos, r)
  }

  /** The answer for input `b` of a batch. */
  ghost predicate Answers(m: Oracle, c: Config, b: nat, r: Result)
    requires ConfigOk(c) && b < |c.prefixes|
  {
    IsAnswer(m, c.inputs[b], c.starts[b], c.prefixes[b], c.endIds, c.maxLength, c.returnPrefix, c.includeEos, r)
  }

  /** There is only one: two histories agree as far as both go, and then both stop. */
  lemma {:induction false} HistoriesAgree(m: Oracle, input: nat, start: int, prefix: seq<nat>, endIds: set<int>,
                                          limit: int, h: seq<int>, scores: seq<real>, h2: seq<int>, scores2: seq<real>,
                                          n: nat)
    requires IsHistory(m, input, start, prefix, endIds, limit, h, scores)
    requires IsHistory(m, input, start, prefix, endIds, limit, h2, scores2) && n <= |h| && n <= |h2|
    ensures h[..n] == h2[..n] && scores[..n] == scores2[..n]
  {
    if n > 0 {
      HistoriesAgree(m, input, start, prefix, endIds, limit, h, scores, h2, scores2, n - 1);
      assert IsToken(m, input, start, prefix, h, scores, n - 1) && IsToken(m, input, start, prefix, h2, scores2, n - 1)
      by {
        assert h[n - 1] == h[n - 1] && h2[n - 1] == h2[n - 1];
      }
      assert h[..n] == h[..n - 1] + [h[n - 1]] && h2[..n] == h2[..n - 1] + [h2[n - 1]];
      assert scores[..n] == scores[..n - 1] + [scores[n - 1]] && scores2[..n] == scores2[..n - 1] + [scores2[n - 1]];
    }
  }

  lemma {:induction false} HistoryUnique(m: Oracle, input: nat, start: int, prefix: seq<nat>, endIds: set<int>,
                                         limit: int, h: seq<int>, scores: seq<real>, h2: seq<int>, scores2: seq<real>)
    requires IsHistory(m, input, start, prefix, endIds, limit, h, scores)
    requires IsHistory(m, input, start, prefix, endIds, limit, h2, scores2)
    ensures h == h2 && scores == scores2
  {
    var n := if |h| < |h2| then |h| else |h2|;
    HistoriesAgree(m, input, start, prefix, endIds, limit, h, scores, h2, scores2, n);
    assert h[n - 1] == h[..n][n - 1] == h2[..n][n - 1] == h2[n - 1];
    assert StopsAt(prefix, endIds, limit, h, n - 1) == StopsAt(prefix, endIds, limit, h2, n - 1);
    assert h == h[..n] && h2 == h2[..n] && scores == scores[..n] && scores2 == scores2[..n];
  }

  /** What the result holds of the tokens so far. */
  function ShownOf(c: Config, b: nat, h: seq<int>): seq<int>
    requires b < |c.prefixes|
  {
    var shown := if c.returnPrefix || |h| <= |c.prefixes[b]| then (if c.returnPrefix then h else [])
                 else h[|c.prefixes[b]|..];
    if c.includeEos then shown else Without(shown, c.endIds)
  }

  /** Tokens `h` have been generated without a stop. */
  ghost predicate Generated(m: Oracle, c: Config, b: nat, h: seq<int>, scores: seq<real>)
    requires ConfigOk(c) && b < |c.prefixes|
  {
    && |h| == |scores|
    && forall t: nat {:trigger h[t]} :: t < |h| ==>
         && IsToken(m, c.inputs[b], c.starts[b], c.prefixes[b], h, scores, t)
         && !StopsAt(c.prefixes[b], c.endIds, LastStep(c, b), h, t)
  }

  /** A running row has generated its sampled tokens and shows them. */
  ghost predicate RowHolds(m: Oracle, c: Config, b: nat, row: Row, scores: seq<real>)
    requires ConfigOk(c) && b < |c.prefixes|
  {
    && row.Running? && Generated(m, c, b, row.sampled, scores)
    && row.fed + [row.next] == [c.starts[b]] + row.sampled
    && row.result == Result(ShownOf(c, b, row.sampled), Total(scores), 0)
  }

  lemma {:induction false} ShownNext(c: Config, b: nat, h: seq<int>, id: int)
    requires b < |c.prefixes|
    ensures ShownOf(c, b, h + [id]) == ShownOf(c, b, h) + if Shown(c, b, |h|, id) then [id] else []
  {
    var from := if c.returnPrefix then 0 else |c.prefixes[b]|;
    if from <= |h| {
      assert (h + [id])[from..] == h[from..] + [id];
      assert (h[from..] + [id])[..|h[from..]|] == h[from..];
      assert h[0..] == h && (h + [id])[0..] == h + [id];
    }
  }

  lemma {:induction false} TotalNext(scores: seq<real>, score: real)
    ensures Total(scores + [score]) == Total(scores) + score
  {
    assert (scores + [score])[..|scores|] == scores;
  }

  /** The tokens before `t` do not depend on what follows. */
  lemma {:induction false} TokenKept(m: Oracle, c: Config, b: nat, h: seq<int>, scores: seq<real>, best: Best, t: nat)
    requires ConfigOk(c) && b < |c.prefixes| && Generated(m, c, b, h, scores) && t < |h|
    ensures IsToken(m, c.inputs[b], c.starts[b], c.prefixes[b], h + [best.id], scores + [best.score], t)
    ensures !StopsAt(c.prefixes[b], c.endIds, LastStep(c, b), h + [best.id], t)
  {
    var longer := h + [best.id];
    assert longer[t] == h[t] && longer[..t] == h[..t];
  }

  /** One step generates one token more. */
  lemma {:induction false} TokenNext(m: Oracle, c: Config, b: nat, row: Row, scores: seq<real>) returns (best: Best)
    requires ConfigOk(c) && b < |c.prefixes| && RowHolds(m, c, b, row, scores)
    ensures best == Forced(c, b, |row.sampled|, Choose(m, c.inputs[b], row.fed + [row.next], row.sampled))
    ensures IsToken(m, c.inputs[b], c.starts[b], c.prefixes[b], row.sampled + [best.id], scores + [best.score],
                    |row.sampled|)
  {
    best := Forced(c, b, |row.sampled|, Choose(m, c.inputs[b], row.fed + [row.next], row.sampled));
    var h := row.sampled + [best.id];
    assert h[..|row.sampled|] == row.sampled && h[|row.sampled|] == best.id;
    assert (scores + [best.score])[|row.sampled|] == best.score;
  }

  /** All tokens but the last: where the last one stops, this is a history, and else it is generated without a stop. */
  lemma {:induction false} StopsOrNot(m: Oracle, c: Config, b: nat, row: Row, scores: seq<real>, best: Best)
    requires ConfigOk(c) && b < |c.prefixes| && RowHolds(m, c, b, row, scores)
    requires IsToken(m, c.inputs[b], c.starts[b], c.prefixes[b], row.sampled + [best.id], scores + [best.score],
                     |row.sampled|)
    ensures var h, more := row.sampled + [best.id], scores + [best.score];
            if Ends(c, b, |row.sampled|, best.id)
            then IsHistory(m, c.inputs[b], c.starts[b], c.prefixes[b], c.endIds, LastStep(c, b), h, more)
            else Generated(m, c, b, h, more)
  {
    var h, more := row.sampled + [best.id], scores + [best.score];
    forall t: nat | t < |row.sampled|
      ensures IsToken(m, c.inputs[b], c.starts[b], c.prefixes[b], h, more, t)
      ensures !StopsAt(c.prefixes[b], c.endIds, LastStep(c, b), h, t)
    {
      TokenKept(m, c, b, row.sampled, scores, best, t);
    }
    assert h[|row.sampled|] == best.id;
  }

  lemma {:induction false} RowNext(m: Oracle, c: Config, b: nat, row: Row, scores: seq<real>)
    returns (h: seq<int>, more: seq<real>)
    requires ConfigOk(c) && b < |c.prefixes| && RowHolds(m, c, b, row, scores)
    ensures |h| == |row.sampled| + 1 && |more| == |h|
    ensures var after := StepRow(m, c, b, |row.sampled|, row);
            if after.Finished? then
              && IsHistory(m, c.inputs[b], c.starts[b], c.prefixes[b], c.endIds, LastStep(c, b), h, more)
              && after.result == Result(ShownOf(c, b, h), Total(more), 1)
            else RowHolds(m, c, b, after, more) && after.sampled == h
  {
    var best := TokenNext(m, c, b, row, scores);
    h, more := row.sampled + [best.id], scores + [best.score];
    StopsOrNot(m, c, b, row, scores, best);
    ShownNext(c, b, row.sampled, best.id);
    TotalNext(scores, best.score);
    assert row.fed + [row.next] + [best.id] == [c.starts[b]] + h;
  }

  lemma {:induction false} RunYields(m: Oracle, c: Config, b: nat, row: Row, scores: seq<real>)
    requires ConfigOk(c) && b < |c.prefixes| && RowHolds(m, c, b, row, scores) && |row.sampled| < LastStep(c, b)
    ensures Answers(m, c, b, RunRow(m, c, b, |row.sampled|, LastStep(c, b), row))
    decreases LastStep(c, b) - |row.sampled|
  {
    var step, limit := |row.sampled|, LastStep(c, b);
    var h, more := RowNext(m, c, b, row, scores);
    var after := StepRow(m, c, b, step, row);
    assert RunRow(m, c, b, step, limit, row) == RunRow(m, c, b, step + 1, limit, after);
    if after.Finished? {
      HistoryYields(m, c, b, h, more);
    } else {
      RunYields(m, c, b, after, more);
    }
  }

  /** A history that is shown is long enough. */
  lemma {:induction false} HistoryYields(m: Oracle, c: Config, b: nat, h: seq<int>, scores: seq<real>)
    requires ConfigOk(c) && b < |c.prefixes|
    requires IsHistory(m, c.inputs[b], c.starts[b], c.prefixes[b], c.endIds, LastStep(c, b), h, scores)
    ensures Answers(m, c, b, Result(ShownOf(c, b, h), Total(scores), 1))
  {
    assert h[|h| - 1] == h[|h| - 1];
    assert StopsAt(c.prefixes[b], c.endIds, LastStep(c, b), h, |h| - 1);
    assert h[|h|..] == [] && h[0..] == h;
    assert Yields(h, scores, c.prefixes[b], c.endIds, c.returnPrefix, c.includeEos,
                  Result(ShownOf(c, b, h), Total(scores), 1));
  }

  /** What an input ends with that has steps of its own. */
  lemma {:induction false} WholeYields(m: Oracle, c: Config, b: nat)
    requires ConfigOk(c) && b < |c.starts| && LastStep(c, b) > 0
    ensures Answers(m, c, b, Whole(m, c, b))
  {
    var row := FirstRow(c, b);
    SoloMaxStep(c, b);
    ExtraSteps(m, c, b, 0, MaxStep(c), row);
    assert row.fed + [row.next] == [c.starts[b]] + row.sampled;
    assert ShownOf(c, b, []) == [];
    RunYields(m, c, b, row, []);
  }

  /** What input `b` of a call is on its own. */
  function Alone(inputs: seq<nat>, startTokens: seq<seq<nat>>, endIds: set<int>, maxLength: nat, returnPrefix: bool,
                 includeEos: bool, b: nat): (c: Config)
    requires b < |inputs| == |startTokens| && startTokens[b] != []
    ensures ConfigOk(c)
  {
    Config([inputs[b]], [startTokens[b][0]], [startTokens[b][1..]], endIds, maxLength, returnPrefix, includeEos)
  }

  /** The first token of each input starts it, the others are its prefix. */
  method SplitStartTokens(startTokens: seq<seq<nat>>) returns (ok: bool, starts: seq<int>, prefixes: seq<seq<nat>>)
    ensures ok <==> [] !in startTokens
    ensures ok ==> |starts| == |prefixes| == |startTokens|
    ensures ok ==> forall b :: 0 <= b < |startTokens| ==>
              startTokens[b] != [] && starts[b] == startTokens[b][0] && prefixes[b] == startTokens[b][1..]
  {
    starts, prefixes := [], [];
    for i := 0 to |startTokens|
      invariant |starts| == |prefixes| == i
      invariant forall b :: 0 <= b < i ==>
                  startTokens[b] != [] && starts[b] == startTokens[b][0] && prefixes[b] == startTokens[b][1..]
    {
      if |startTokens[i]| == 0 {
        return false, [], [];
      }
      starts, prefixes := starts + [startTokens[i][0]], prefixes + [startTokens[i][1..]];
    }
    ok := true;
  }

  /**
   A call with its checks: a length limit of 0 and an input without start token are refused. Otherwise every input
   of the batch ends as it would in a call of its own, finalised once.
   */
  method DecodeBatch(m: Oracle, inputs: seq<nat>, startTokens: seq<seq<nat>>, endIds: set<int>, maxLength: nat,
                     returnPrefix: bool, includeEos: bool) returns (ok: bool, results: seq<Result>)
    requires |inputs| == |startTokens|
    ensures ok <==> maxLength > 0 && [] !in startTokens
    ensures ok ==> |results| == |inputs| && forall b: nat {:trigger results[b]} :: b < |inputs| ==>
              && startTokens[b] != []
              && results[b] == Whole(m, Alone(inputs, startTokens, endIds, maxLength, returnPrefix, includeEos, b), 0)
              && results[b].finals == 1
              && IsAnswer(m, inputs[b], startTokens[b][0], startTokens[b][1..], endIds, maxLength, returnPrefix,
                          includeEos, results[b])
  {
    results := [];
    if maxLength == 0 {
      return false, [];
    }
    var starts, prefixes;
    ok, starts, prefixes := SplitStartTokens(startTokens);
    if !ok {
      return;
    }
    var c := Config(inputs, starts, prefixes, endIds, maxLength, returnPrefix, includeEos);
    results := Search(m, c);
    forall b: nat | b < |inputs|
      ensures startTokens[b] != []
      ensures results[b] == Whole(m, Alone(inputs, startTokens, endIds, maxLength, returnPrefix, includeEos, b), 0)
      ensures results[b].finals == 1
      ensures IsAnswer(m, inputs[b], startTokens[b][0], startTokens[b][1..], endIds, maxLength, returnPrefix,
                       includeEos, results[b])
    {
      WholeYields(m, c, b);
      assert Solo(c, b) == Alone(inputs, startTokens, endIds, maxLength, returnPrefix, includeEos, b);
      BatchIsSolo(m, c, b);
    }
  }

  /** An input without steps of its own is never finalised, and alone it yields nothing. */
  lemma {:induction false} NoSteps(m: Oracle, c: Config, b: nat)
    requires ConfigOk(c) && b < |c.starts| && LastStep(c, b) == 0
    ensures Whole(m, Solo(c, b), 0) == Result([], 0.0, 0)
  {
    SoloMaxStep(c, b);
  }

  /** The oracle that always samples `id`. */
  function Constant(id: int): Oracle {
    Oracle((input: nat, fed: seq<int>, sampled: seq<int>) => Best(id, 1.0))
  }

  lemma {:induction false} FirstStepShows(c: Config, b: nat, id: int, step: nat, maxStep: nat, row: Row)
    requires ConfigOk(c) && b < |c.starts| && c.prefixes[b] == [] && id !in c.endIds
    ensures |row.result.tokens| <= |RunRow(Constant(id), c, b, step, maxStep, row).tokens|
    ensures row.Running? && step < maxStep ==>
            |row.result.tokens| < |RunRow(Constant(id), c, b, step, maxStep, row).tokens|
    decreases maxStep - step
  {
    if row.Running? && step < maxStep {
      FirstStepShows(c, b, id, step + 1, maxStep, StepRow(Constant(id), c, b, step, row));
    }
  }

  /** Whether every input has steps of its own, or none of the batch has. */
  predicate SameStart(c: Config) {
    MaxStep(c) == 0 || c.maxLength > 0 || forall b :: 0 <= b < |c.prefixes| ==> c.prefixes[b] != []
  }

  /**
   A remark on the search without the checks of its callers: batching agrees with solo runs for every oracle exactly
   if the length limit is positive, or the batch makes no steps, or every input has a prefix. With a limit of 0, which
   the checks refuse, an input without prefix would run along with the others.
   */
  lemma {:induction false} BatchingIsInvisibleExactlyIf(c: Config, id: int)
    requires ConfigOk(c) && id !in c.endIds
    ensures SameStart(c) <==> forall m, b: nat {:trigger Whole(m, c, b)} :: b < |c.starts| ==>
            Whole(m, c, b) == Whole(m, Solo(c, b), 0)
  {
    if SameStart(c) {
      forall m, b: nat | b < |c.starts|
        ensures Whole(m, c, b) == Whole(m, Solo(c, b), 0)
      {
        SoloMaxStep(c, b);
        if LastStep(c, b) > 0 {
          BatchIsSolo(m, c, b);
        } else {
          NoSteps(m, c, b);
        }
      }
    } else {
      var b: nat :| b < |c.prefixes| && c.prefixes[b] == [];
      NoSteps(Constant(id), c, b);
      FirstStepShows(c, b, id, 0, MaxStep(c), FirstRow(c, b));
      assert Whole(Constant(id), c, b) != Whole(Constant(id), Solo(c, b), 0);
    }
  }
}
