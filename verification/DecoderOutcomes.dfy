/**
 What decoding a window comes to: in every run the state of a decoder is a function of its tokens. The predicates here
 read the tokens alone; the update knows only its fields and the last token.
 */
module DecoderOutcomes {
  import opened Timestamps

  // ---------------------------------------------------------------------------------------------
  // Reading the tokens
  // ---------------------------------------------------------------------------------------------

  /** The number of tokens up to the last timestamp above the first one, 0 without any. */
  function UpToLast(v: Vocab, tokens: seq<int>): (r: nat)
    ensures r <= |tokens| && (r > 0 ==> tokens[r - 1] > v.beg)
    ensures forall k :: r <= k < |tokens| ==> tokens[k] <= v.beg
  {
    if tokens == [] then 0
    else if tokens[|tokens| - 1] > v.beg then |tokens|
    else UpToLast(v, tokens[..|tokens| - 1])
  }

  /** How far that timestamp moves the window; without any the window moves by a chunk. */
  function Distance(v: Vocab, tokens: seq<int>): int {
    var r := UpToLast(v, tokens);
    if r == 0 then CHUNK else 2 * (tokens[r - 1] - v.beg)
  }

  /** At most 100 ms are left behind a window that moves by `delta`. */
  predicate NearEnd(w: Window, delta: int) {
    w.seek + delta + DELTA_MIN >= w.seekEnd
  }

  /** The text ends, the token limit is reached, or a timestamp is near the end of the audio. */
  predicate EndsWith(v: Vocab, w: Window, tokens: seq<int>)
    requires tokens != []
  {
    || tokens[|tokens| - 1] == v.eot
    || (w.maxTokens > 0 && |tokens| > w.maxTokens)
    || (UpToLast(v, tokens) > 0 && NearEnd(w, Distance(v, tokens)))
  }

  /** After the last iteration there is no timestamp, or none in the second half of the chunk. */
  predicate Repeats(v: Vocab, w: Window, tokens: seq<int>) {
    |tokens| == w.lastIteration + 1 && (UpToLast(v, tokens) == 0 || Distance(v, tokens) < CHUNK / 2)
  }

  predicate GoesOn(v: Vocab, w: Window, tokens: seq<int>)
    requires tokens != []
  {
    !EndsWith(v, w, tokens) && !Repeats(v, w, tokens) && w.loaded
  }

  /** Without any timestamp the end of the text is a failure, unless the chunk reaches the end of the audio. */
  predicate FailsWith(v: Vocab, w: Window, tokens: seq<int>)
    requires tokens != []
  {
    if EndsWith(v, w, tokens) then UpToLast(v, tokens) == 0 && !w.noTimestamps && !NearEnd(w, CHUNK)
    else w.loaded && Repeats(v, w, tokens)
  }

  /** The result of a decoder that completes: up to its last timestamp, or everything. */
  predicate ResultIs(v: Vocab, w: Window, d: State) {
    var r := UpToLast(v, d.tokens);
    if d.tokens != [] && !EndsWith(v, w, d.tokens) then d.resultLen == r && d.seekDelta == CHUNK
    else if w.singleSegment || w.noTimestamps then d.resultLen == |d.tokens| && d.seekDelta == CHUNK
    else d.resultLen == (if r == 0 then |d.tokens| else r) && d.seekDelta == Distance(v, d.tokens)
  }

  /** Every token but the last let decoding go on. */
  ghost predicate WentOn(v: Vocab, w: Window, tokens: seq<int>) {
    forall k: nat {:trigger tokens[..k]} :: 0 < k < |tokens| ==> GoesOn(v, w, tokens[..k])
  }

  /** What the tokens make of the decoder. */
  ghost predicate IsOutcome(v: Vocab, w: Window, d: State) {
    && d.tokens != [] && WentOn(v, w, d.tokens) && d.hasTs == (UpToLast(v, d.tokens) > 0)
    && (Live(d) <==> GoesOn(v, w, d.tokens))
    && (d.failed <==> FailsWith(v, w, d.tokens))
    && !(d.failed && d.completed)
    && if d.completed then ResultIs(v, w, d)
       else d.resultLen == UpToLast(v, d.tokens) && d.seekDelta == Distance(v, d.tokens)
  }

  ghost predicate FreshOrOutcome(v: Vocab, w: Window, d: State) {
    d == FRESH || IsOutcome(v, w, d)
  }

  lemma {:induction false} UpToLastNext(v: Vocab, tokens: seq<int>, id: int)
    ensures UpToLast(v, tokens + [id]) == if id > v.beg then |tokens| + 1 else UpToLast(v, tokens)
    ensures Distance(v, tokens + [id]) == if id > v.beg then 2 * (id - v.beg) else Distance(v, tokens)
  {
    assert (tokens + [id])[..|tokens|] == tokens;
  }

  lemma {:induction false} WentOnNext(v: Vocab, w: Window, tokens: seq<int>, id: int)
    requires WentOn(v, w, tokens) && (tokens != [] ==> GoesOn(v, w, tokens))
    ensures WentOn(v, w, tokens + [id])
  {
    forall k: nat | 0 < k < |tokens + [id]|
      ensures GoesOn(v, w, (tokens + [id])[..k])
    {
      assert (tokens + [id])[..k] == if k == |tokens| then tokens else tokens[..k];
    }
  }

  // ---------------------------------------------------------------------------------------------
  // The masks forbid nothing else
  // ---------------------------------------------------------------------------------------------

  /** The rules for a whole sequence. */
  ghost predicate Allowed(v: Vocab, p: Params, tokens: seq<int>) {
    && Nondecreasing(v, tokens) && Paired(v, tokens)
    && !(|tokens| >= 2 && IsTs(v, tokens[0]) && IsTs(v, tokens[1]))
    && (|tokens| > 0 && p.limitInitial ==> tokens[0] <= v.beg + p.maxInitial)
    && (!p.singleSegment && p.maxTokens > 0 ==> forall k :: p.maxTokens <= k < |tokens| ==> tokens[k] >= v.eot)
  }

  /** Timestamps stay in order exactly if the new one is not before the last one above the first. */
  lemma {:induction false} OrderedExactlyIf(v: Vocab, tokens: seq<int>, id: int)
    requires Nondecreasing(v, tokens)
    ensures Nondecreasing(v, tokens + [id])
            <==> !(IsTs(v, id) && UpToLast(v, tokens) > 0 && id < tokens[UpToLast(v, tokens) - 1])
  {
    var longer, r := tokens + [id], UpToLast(v, tokens);
    if r > 0 {
      assert longer[r - 1] == tokens[r - 1] && longer[|tokens|] == id;
    }
    if !(IsTs(v, id) && r > 0 && id < tokens[r - 1]) {
      forall k, m | 0 <= k < m < |longer| && IsTs(v, longer[k]) && IsTs(v, longer[m])
        ensures longer[k] <= longer[m]
      {
        assert longer[k] == tokens[k];
        if m == |tokens| && r > 0 && k < r - 1 {
          assert tokens[k] <= tokens[r - 1];
        }
      }
    }
  }

  lemma {:induction false} PairedExactlyIf(v: Vocab, tokens: seq<int>, id: int)
    requires Paired(v, tokens)
    ensures Paired(v, tokens + [id])
            <==> !ThreeAt(v, tokens + [id], |tokens| - 2) && !UnpairedAt(v, tokens + [id], |tokens| - 2)
  {
    var longer := tokens + [id];
    forall k | k != |tokens| - 2
      ensures !ThreeAt(v, longer, k) && !UnpairedAt(v, longer, k)
    {
      assert !ThreeAt(v, tokens, k) && !UnpairedAt(v, tokens, k);
    }
  }

  lemma {:induction false} PastExactlyIf(v: Vocab, w: Window, d: State, id: int)
    requires FreshOrOutcome(v, w, d) && Live(d) && Nondecreasing(v, d.tokens)
    ensures MaskedAsPast(v, d, id) <==> !Nondecreasing(v, d.tokens + [id])
  {
    OrderedExactlyIf(v, d.tokens, id);
  }

  lemma {:induction false} PairsExactlyIf(v: Vocab, d: State, id: int)
    requires VocabOk(v) && Paired(v, d.tokens)
    ensures MaskedByPairs(v, d, id)
            <==> !Paired(v, d.tokens + [id]) || (|d.tokens| == 1 && IsTs(v, d.tokens[0]) && IsTs(v, id))
  {
    var tokens := d.tokens;
    PairedExactlyIf(v, tokens, id);
    if |tokens| >= 2 {
      assert (tokens + [id])[|tokens| - 2] == tokens[|tokens| - 2];
      assert (tokens + [id])[|tokens| - 1] == tokens[|tokens| - 1];
    }
  }

  /** A live decoder's masks forbid exactly the tokens that would break a rule. */
  lemma {:induction false} MaskedExactlyIf(v: Vocab, p: Params, w: Window, d: State, id: int)
    requires VocabOk(v) && FreshOrOutcome(v, w, d) && Live(d) && Allowed(v, p, d.tokens)
    ensures !Masked(v, p, d, id) <==> Allowed(v, p, d.tokens + [id])
  {
    PastExactlyIf(v, w, d, id);
    PairsExactlyIf(v, d, id);
    RestExactlyIf(v, p, d, id);
  }

  lemma {:induction false} RestExactlyIf(v: Vocab, p: Params, d: State, id: int)
    requires Allowed(v, p, d.tokens)
    ensures var longer := d.tokens + [id];
            && (MaskedAtStart(v, p, d, id) <==> p.limitInitial && longer[0] > v.beg + p.maxInitial)
            && (MaskedByLimit(v, p, d, id)
                <==> !p.singleSegment && p.maxTokens > 0
                     && exists k :: p.maxTokens <= k < |longer| && longer[k] < v.eot)
            && ((|d.tokens| == 1 && IsTs(v, d.tokens[0]) && IsTs(v, id))
                <==> |longer| >= 2 && IsTs(v, longer[0]) && IsTs(v, longer[1]))
  {
    var longer := d.tokens + [id];
    assert longer[|d.tokens|] == id;
    assert forall k :: 0 <= k < |d.tokens| ==> longer[k] == d.tokens[k];
  }

  // ---------------------------------------------------------------------------------------------
  // Every run
  // ---------------------------------------------------------------------------------------------

  /** The fields of a live decoder say what its tokens say. */
  ghost predicate Reads(v: Vocab, w: Window, t: State) {
    && t.tokens != [] && Live(t) && WentOn(v, w, t.tokens) && t.hasTs == (UpToLast(v, t.tokens) > 0)
    && t.resultLen == UpToLast(v, t.tokens) && t.seekDelta == Distance(v, t.tokens)
  }

  lemma {:induction false} MovedReads(v: Vocab, w: Window, d: State, id: int)
    requires FreshOrOutcome(v, w, d) && Live(d)
    ensures Reads(v, w, Moved(v, Taken(d, id))) && Moved(v, Taken(d, id)).tokens == d.tokens + [id]
  {
    UpToLastNext(v, d.tokens, id);
    WentOnNext(v, w, d.tokens, id);
  }

  /** The last timestamp above the first one is at `k`. */
  predicate LastTimestamp(v: Vocab, tokens: seq<int>, k: nat) {
    k < |tokens| && tokens[k] > v.beg && forall m :: k < m < |tokens| ==> tokens[m] <= v.beg
  }

  /** Going back in time: a timestamp before the last one, when something has come since. It fails at once. */
  lemma {:induction false} GoesBackExactlyIf(v: Vocab, w: Window, d: State, id: int)
    requires FreshOrOutcome(v, w, d) && Live(d)
    ensures GoesBack(v, Taken(d, id)) <==>
            id > v.beg && exists k: nat :: LastTimestamp(v, d.tokens, k) && id < d.tokens[k] && k + 1 < |d.tokens|
    ensures GoesBack(v, Taken(d, id)) ==> Step(v, w, Taken(d, id)) == Taken(d, id).(failed := true)
  {
    var r := UpToLast(v, d.tokens);
    if r > 0 {
      assert LastTimestamp(v, d.tokens, r - 1);
    }
    forall k: nat | LastTimestamp(v, d.tokens, k)
      ensures k + 1 == r
    {
    }
  }

  lemma {:induction false} EndsAgree(v: Vocab, w: Window, t: State) returns (ends: bool, repeats: bool)
    requires Reads(v, w, t)
    ensures ends == EndsSegment(v, w, t, t.tokens[|t.tokens| - 1]) == EndsWith(v, w, t.tokens)
    ensures repeats == (|t.tokens| == w.lastIteration + 1 && (t.resultLen == 0 || t.seekDelta < CHUNK / 2))
    ensures repeats == Repeats(v, w, t.tokens)
  {
    ends, repeats := EndsWith(v, w, t.tokens), Repeats(v, w, t.tokens);
  }

  /** How the update goes on from `t`, by its branches. */
  ghost predicate Settles(w: Window, t: State, s: State, ends: bool, repeats: bool) {
    && s.tokens == t.tokens && s.hasTs == t.hasTs && !(s.failed && s.completed)
    && (Live(s) <==> !ends && !repeats && w.loaded)
    && (s.failed <==> if ends then t.resultLen == 0 && !w.noTimestamps && !NearEnd(w, t.seekDelta)
                          else w.loaded && repeats)
    && if !s.completed then s.resultLen == t.resultLen && s.seekDelta == t.seekDelta
       else if !ends then s.resultLen == t.resultLen && s.seekDelta == CHUNK
       else if w.singleSegment || w.noTimestamps then s.resultLen == |t.tokens| && s.seekDelta == CHUNK
       else s.resultLen == (if t.resultLen == 0 then |t.tokens| else t.resultLen) && s.seekDelta == t.seekDelta
  }

  lemma {:induction false} StepSettles(v: Vocab, w: Window, e: State, t: State, ends: bool, repeats: bool)
    requires e.tokens != [] && t == Moved(v, e) && !GoesBack(v, e) && Live(t)
    requires ends == EndsSegment(v, w, t, e.tokens[|e.tokens| - 1])
    requires repeats == (|t.tokens| == w.lastIteration + 1 && (t.resultLen == 0 || t.seekDelta < CHUNK / 2))
    ensures Settles(w, t, Step(v, w, e), ends, repeats)
  {
  }

  lemma {:induction false} SettledIsOutcome(v: Vocab, w: Window, t: State, s: State)
    requires Reads(v, w, t) && Settles(w, t, s, EndsWith(v, w, t.tokens), Repeats(v, w, t.tokens))
    ensures IsOutcome(v, w, s)
  {
  }

  /** The update reads the tokens rightly, if they do not go back in time. */
  lemma {:induction false} UpdateReads(v: Vocab, w: Window, d: State, id: int)
    requires FreshOrOutcome(v, w, d) && Live(d) && !GoesBack(v, Taken(d, id))
    ensures IsOutcome(v, w, Step(v, w, Taken(d, id)))
  {
    var e := Taken(d, id);
    var t := Moved(v, e);
    MovedReads(v, w, d, id);
    var ends, repeats := EndsAgree(v, w, t);
    StepSettles(v, w, e, t, ends, repeats);
    SettledIsOutcome(v, w, t, Step(v, w, e));
  }

  ghost predicate AllRead(v: Vocab, p: Params, w: Window, ds: seq<State>) {
    forall j {:trigger ds[j]} :: 0 <= j < |ds| ==> FreshOrOutcome(v, w, ds[j]) && Allowed(v, p, ds[j].tokens)
  }

  lemma {:induction false} NextReads(v: Vocab, p: Params, w: Window, d: State, id: int)
    requires VocabOk(v) && Inv(v, d) && Live(d) && 0 <= id < v.size && !Masked(v, p, d, id)
    requires FreshOrOutcome(v, w, d) && Allowed(v, p, d.tokens)
    ensures IsOutcome(v, w, Step(v, w, Taken(d, id))) && Allowed(v, p, Step(v, w, Taken(d, id)).tokens)
  {
    UpdateKeeps(v, p, w, d, id);
    UpdateReads(v, w, d, id);
    MaskedExactlyIf(v, p, w, d, id);
  }

  lemma {:induction false} IterationReads(v: Vocab, p: Params, w: Window, ds: seq<State>, it: Iteration)
    requires VocabOk(v) && AllInv(v, ds) && Legal(v, p, ds, it) && AllRead(v, p, w, ds)
    ensures AllRead(v, p, w, Iterate(v, w, ds, it))
  {
    forall j | 0 <= j < |ds|
      ensures FreshOrOutcome(v, w, Iterate(v, w, ds, it)[j]) && Allowed(v, p, Iterate(v, w, ds, it)[j].tokens)
    {
      if Live(ds[j]) {
        NextReads(v, p, w, ds[it.parent[j]], it.next[j]);
      } else {
        assert FreshOrOutcome(v, w, ds[j]);
      }
    }
  }

  lemma {:induction false} RunReads(v: Vocab, p: Params, w: Window, ds: seq<State>, its: seq<Iteration>)
    requires VocabOk(v) && AllInv(v, ds) && LegalRun(v, p, w, ds, its) && AllRead(v, p, w, ds)
    ensures AllRead(v, p, w, RunAll(v, p, w, ds, its))
    decreases |its|
  {
    if its != [] {
      IterationKeeps(v, p, w, ds, its[0]);
      IterationReads(v, p, w, ds, its[0]);
      RunReads(v, p, w, Iterate(v, w, ds, its[0]), its[1..]);
    }
  }

  /** A live decoder has no end of text, has not reached the token limit, and has no timestamp near the end. */
  ghost predicate LiveMeans(v: Vocab, w: Window, d: State) {
    && v.eot !in d.tokens && (w.maxTokens > 0 ==> |d.tokens| <= w.maxTokens)
    && forall k :: 0 <= k < |d.tokens| && d.tokens[k] > v.beg ==> !NearEnd(w, 2 * (d.tokens[k] - v.beg))
  }

  predicate NoTimestamp(v: Vocab, tokens: seq<int>) {
    forall k :: 0 <= k < |tokens| ==> tokens[k] <= v.beg
  }

  /**
   With timestamps, several segments and a loaded model, the result of a decoder that completes ends just behind its
   last timestamp and the window moves there; without any it takes all tokens, and the chunk reaches the end of the
   audio.
   */
  ghost predicate CompletedMeans(v: Vocab, w: Window, d: State) {
    && (forall k: nat {:trigger LastTimestamp(v, d.tokens, k)} :: LastTimestamp(v, d.tokens, k) ==>
          d.resultLen == k + 1 && d.seekDelta == 2 * (d.tokens[k] - v.beg))
    && (NoTimestamp(v, d.tokens) ==> d.resultLen == |d.tokens| && d.seekDelta == CHUNK && NearEnd(w, CHUNK))
  }

  lemma {:induction false} GoesOnBefore(v: Vocab, w: Window, d: State, k: nat)
    requires IsOutcome(v, w, d) && Live(d) && k < |d.tokens|
    ensures d.tokens[k] != v.eot && (w.maxTokens > 0 ==> k < w.maxTokens)
    ensures d.tokens[k] > v.beg ==> !NearEnd(w, 2 * (d.tokens[k] - v.beg))
  {
    var front := d.tokens[..k + 1];
    assert k + 1 == |d.tokens| ==> front == d.tokens;
    assert GoesOn(v, w, front) && front[|front| - 1] == d.tokens[k];
  }

  lemma {:induction false} LiveIs(v: Vocab, w: Window, d: State)
    requires FreshOrOutcome(v, w, d) && Live(d)
    ensures LiveMeans(v, w, d)
  {
    if d != FRESH {
      forall k: nat | k < |d.tokens|
        ensures d.tokens[k] != v.eot && (d.tokens[k] > v.beg ==> !NearEnd(w, 2 * (d.tokens[k] - v.beg)))
      {
        GoesOnBefore(v, w, d, k);
      }
      GoesOnBefore(v, w, d, |d.tokens| - 1);
    }
  }

  lemma {:induction false} CompletedIs(v: Vocab, w: Window, d: State)
    requires IsOutcome(v, w, d) && d.completed && !w.singleSegment && !w.noTimestamps && w.loaded
    ensures CompletedMeans(v, w, d)
  {
    assert EndsWith(v, w, d.tokens) && !FailsWith(v, w, d.tokens);
    forall k: nat | LastTimestamp(v, d.tokens, k)
      ensures k + 1 == UpToLast(v, d.tokens)
    {
    }
  }

  /**
   In every run of a window each decoder that has a token is what its tokens make of it, and no rule is broken: live
   ones have not ended, completed ones end at their last timestamp, and a decoder fails exactly if its text ends
   without any timestamp, or the iterations do without a timestamp in the second half of the chunk.
   */
  lemma {:induction false} EveryRunReadsTokens(v: Vocab, p: Params, w: Window, n: nat, its: seq<Iteration>)
    requires VocabOk(v) && LegalRun(v, p, w, Fresh(n), its)
    ensures |RunAll(v, p, w, Fresh(n), its)| == n
    ensures forall j :: 0 <= j < n ==>
              var d := RunAll(v, p, w, Fresh(n), its)[j];
              && FreshOrOutcome(v, w, d) && Allowed(v, p, d.tokens) && (Live(d) ==> LiveMeans(v, w, d))
              && (d.completed && !w.singleSegment && !w.noTimestamps && w.loaded ==> CompletedMeans(v, w, d))
              && (d.failed <==> d.tokens != [] && FailsWith(v, w, d.tokens))
  {
    EverySequenceKeepsRules(v, p, w, n, its);
    assert Inv(v, FRESH);
    RunReads(v, p, w, Fresh(n), its);
    forall j | 0 <= j < n
      ensures var d := RunAll(v, p, w, Fresh(n), its)[j];
              && FreshOrOutcome(v, w, d) && Allowed(v, p, d.tokens) && (Live(d) ==> LiveMeans(v, w, d))
              && (d.completed && !w.singleSegment && !w.noTimestamps && w.loaded ==> CompletedMeans(v, w, d))
              && (d.failed <==> d.tokens != [] && FailsWith(v, w, d.tokens))
    {
      var d := RunAll(v, p, w, Fresh(n), its)[j];
      assert FreshOrOutcome(v, w, d);
      if Live(d) {
        LiveIs(v, w, d);
      } else if d.completed && !w.singleSegment && !w.noTimestamps && w.loaded {
        CompletedIs(v, w, d);
      }
    }
  }
}
