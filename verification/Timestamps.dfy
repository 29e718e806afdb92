/**
 Timestamp rules of whisper.cpp: the masks applied before sampling, the decoder fields they drive, and the
 outer loop that moves the window by what the decoder returns. Times are in centiseconds; a timestamp token
 stands for 2 cs times its distance from the first one.
 */
module Timestamps {

  const CHUNK := 3000

  /** Windows with less than 100 ms left are not decoded. */
  const DELTA_MIN := 10

  /** The token ids the rules depend on: text below `eot`, timestamps from `beg` on. */
  datatype Vocab = Vocab(size: int, eot: int, beg: int)

  predicate Multilingual(size: int) {
    size >= 51865
  }

  function Languages(size: int): int {
    size - 51765 - if Multilingual(size) then 1 else 0
  }

  /** The ids as they are set when a model of this vocabulary size is loaded. */
  function LoadedVocab(size: int): Vocab {
    if Multilingual(size) then Vocab(size, 50257, 50363 + Languages(size) - 98) else Vocab(size, 50256, 50363)
  }

  predicate VocabOk(v: Vocab) {
    0 <= v.eot < v.beg && v.size == v.beg + 1501
  }

  /** Every model from 51864 tokens on has exactly 1501 timestamps: 0 to 30 seconds in steps of 20 ms. */
  lemma {:induction false} LoadedVocabOk(size: int)
    requires size >= 51864
    ensures VocabOk(LoadedVocab(size))
  {
  }

  // ---------------------------------------------------------------------------------------------
  // Masks
  // ---------------------------------------------------------------------------------------------

  /** The fields of a decoder that the rules read or write. */
  datatype State = State(tokens: seq<int>, hasTs: bool, seekDelta: int, resultLen: nat, failed: bool, completed: bool)

  const FRESH := State([], false, CHUNK, 0, false, false)

  /** `maxInitial` is the largest index allowed for an initial timestamp, if there is a limit. */
  datatype Params = Params(singleSegment: bool, maxTokens: int, maxInitial: int, limitInitial: bool)

  predicate IsTs(v: Vocab, id: int) {
    id >= v.beg
  }

  predicate LastIsTs(v: Vocab, tokens: seq<int>) {
    |tokens| > 0 && IsTs(v, tokens[|tokens| - 1])
  }

  predicate PenultimateIsTs(v: Vocab, tokens: seq<int>) {
    |tokens| < 2 || IsTs(v, tokens[|tokens| - 2])
  }

  /** Text is masked once the token limit is reached. */
  predicate MaskedByLimit(v: Vocab, p: Params, d: State, id: int) {
    !p.singleSegment && p.maxTokens > 0 && |d.tokens| >= p.maxTokens && id < v.eot
  }

  /** Timestamps come in pairs. */
  predicate MaskedByPairs(v: Vocab, d: State, id: int) {
    LastIsTs(v, d.tokens) && if PenultimateIsTs(v, d.tokens) then IsTs(v, id) else id < v.eot
  }

  predicate MaskedAtStart(v: Vocab, p: Params, d: State, id: int) {
    d.tokens == [] && p.limitInitial && id > v.beg + p.maxInitial
  }

  /** Timestamps do not go back. */
  predicate MaskedAsPast(v: Vocab, d: State, id: int) {
    d.hasTs && v.beg <= id < v.beg + d.seekDelta / 2
  }

  predicate Masked(v: Vocab, p: Params, d: State, id: int) {
    MaskedByLimit(v, p, d, id) || MaskedByPairs(v, d, id) || MaskedAtStart(v, p, d, id) || MaskedAsPast(v, d, id)
  }

  /** Masks from..upTo of the logits; `true` stands for minus infinity. */
  method MaskRange(masked: array<bool>, from: int, upTo: int)
    requires 0 <= from && upTo <= masked.Length
    modifies masked
    ensures forall id :: 0 <= id < masked.Length ==> masked[id] == (old(masked[id]) || from <= id < upTo)
  {
    var i := from;
    while i < upTo
      invariant from <= i && (i <= upTo || i == from)
      invariant forall id :: 0 <= id < masked.Length ==> masked[id] == (old(masked[id]) || from <= id < i)
    {
      masked[i] := true;
      i := i + 1;
    }
  }

  /** The timestamp rules, on top of what other filters have masked; timestamps are enabled. */
  method ApplyRules(v: Vocab, p: Params, d: State, masked: array<bool>)
    requires VocabOk(v) && masked.Length == v.size && p.maxInitial >= 0 && 0 <= d.seekDelta <= CHUNK
    modifies masked
    ensures forall id :: 0 <= id < v.size ==> masked[id] == (old(masked[id]) || Masked(v, p, d, id))
  {
    var initial := |d.tokens| == 0;
    if !p.singleSegment && p.maxTokens > 0 && |d.tokens| >= p.maxTokens {
      MaskRange(masked, 0, v.eot);
    }
    var last := |d.tokens| > 0 && d.tokens[|d.tokens| - 1] >= v.beg;
    var penultimate := |d.tokens| < 2 || d.tokens[|d.tokens| - 2] >= v.beg;
    if last {
      if penultimate {
        MaskRange(masked, v.beg, v.size);
      } else {
        MaskRange(masked, 0, v.eot);
      }
    }
    if initial && p.limitInitial {
      MaskRange(masked, v.beg + p.maxInitial + 1, v.size);
    }
    if d.hasTs {
      MaskRange(masked, v.beg, v.beg + d.seekDelta / 2);
    }
  }

  // ---------------------------------------------------------------------------------------------
  // The decoder
  // ---------------------------------------------------------------------------------------------

  /** What the update depends on besides the decoder; a model without tensors (`loaded` is false) ends at once. */
  datatype Window = Window(seek: int, seekEnd: int, noTimestamps: bool, singleSegment: bool, maxTokens: int,
                           lastIteration: nat, loaded: bool)

  class Decoder {
    var tokens: seq<int>
    var hasTs: bool
    var seekDelta: int
    var resultLen: nat
    var failed: bool
    var completed: bool

    constructor ()
      ensures View() == FRESH
    {
      tokens, hasTs, seekDelta, resultLen, failed, completed := [], false, CHUNK, 0, false, false;
    }

    function View(): State
      reads this
    {
      State(tokens, hasTs, seekDelta, resultLen, failed, completed)
    }

    /** The update after the token of iteration `i` was sampled; `back` reports a timestamp that goes back in time. */
    method Update(v: Vocab, w: Window, i: nat) returns (back: bool)
      requires |tokens| == i + 1 && !failed && !completed
      modifies this
      ensures View() == Step(v, w, old(View())) && back == GoesBack(v, old(View()))
    {
      back := false;
      var id := tokens[|tokens| - 1];
      if id > v.beg {
        var seekDeltaNew := 2 * (id - v.beg);
        if hasTs && seekDelta > seekDeltaNew && resultLen < i {
          failed := true;
          return true;
        }
        seekDelta := seekDeltaNew;
        resultLen := i + 1;
        hasTs := true;
      }
      assert !GoesBack(v, old(View())) && View() == Moved(v, old(View()));
      if id == v.eot || (w.maxTokens > 0 && i >= w.maxTokens)
          || (hasTs && w.seek + seekDelta + DELTA_MIN >= w.seekEnd) {
        if resultLen == 0 && !w.noTimestamps {
          if w.seek + seekDelta + DELTA_MIN >= w.seekEnd {
            resultLen := i + 1;
          } else {
            failed := true;
            return;
          }
        }
        if w.singleSegment || w.noTimestamps {
          resultLen := i + 1;
          seekDelta := CHUNK;
        }
        completed := true;
        return;
      }
      if !w.loaded {
        seekDelta := CHUNK;
        completed := true;
        return;
      }
      if i == w.lastIteration && (resultLen == 0 || seekDelta < CHUNK / 2) {
        failed := true;
      }
    }
  }

  /** A timestamp before the last one, when text has come since. */
  predicate GoesBack(v: Vocab, d: State) {
    |d.tokens| > 0 && d.tokens[|d.tokens| - 1] > v.beg && d.hasTs
    && d.seekDelta > 2 * (d.tokens[|d.tokens| - 1] - v.beg) && d.resultLen < |d.tokens| - 1
  }

  predicate EndsSegment(v: Vocab, w: Window, d: State, id: int) {
    || id == v.eot
    || (w.maxTokens > 0 && |d.tokens| - 1 >= w.maxTokens)
    || (d.hasTs && w.seek + d.seekDelta + DELTA_MIN >= w.seekEnd)
  }

  /** A timestamp moves the window. */
  function Moved(v: Vocab, d: State): State
    requires |d.tokens| > 0
  {
    var id := d.tokens[|d.tokens| - 1];
    if id > v.beg then d.(seekDelta := 2 * (id - v.beg), resultLen := |d.tokens|, hasTs := true) else d
  }

  /** The update as a function of the decoder's fields. */
  function Step(v: Vocab, w: Window, d: State): State
    requires |d.tokens| > 0
  {
    var id := d.tokens[|d.tokens| - 1];
    if GoesBack(v, d) then d.(failed := true)
    else
      var t := Moved(v, d);
      if EndsSegment(v, w, t, id) then
        if t.resultLen == 0 && !w.noTimestamps
            && !(w.seek + t.seekDelta + DELTA_MIN >= w.seekEnd) then t.(failed := true)
        else if w.singleSegment || w.noTimestamps then
            t.(resultLen := |d.tokens|, seekDelta := CHUNK, completed := true)
        else t.(resultLen := if t.resultLen == 0 then |d.tokens| else t.resultLen, completed := true)
      else if !w.loaded then t.(seekDelta := CHUNK, completed := true)
      else if |d.tokens| - 1 == w.lastIteration && (t.resultLen == 0 || t.seekDelta < CHUNK / 2) then t.(failed := true)
      else t
  }

  // ---------------------------------------------------------------------------------------------
  // What every sequence keeps
  // ---------------------------------------------------------------------------------------------

  /** Timestamps never decrease. */
  ghost predicate Nondecreasing(v: Vocab, tokens: seq<int>) {
    forall k, m :: 0 <= k < m < |tokens| && IsTs(v, tokens[k]) && IsTs(v, tokens[m]) ==> tokens[k] <= tokens[m]
  }

  predicate ThreeAt(v: Vocab, tokens: seq<int>, k: int) {
    0 <= k < |tokens| - 2 && IsTs(v, tokens[k]) && IsTs(v, tokens[k + 1]) && IsTs(v, tokens[k + 2])
  }

  /** Text right behind a timestamp that follows text. */
  predicate UnpairedAt(v: Vocab, tokens: seq<int>, k: int) {
    0 <= k < |tokens| - 2 && !IsTs(v, tokens[k]) && IsTs(v, tokens[k + 1]) && tokens[k + 2] < v.eot
  }

  ghost predicate Paired(v: Vocab, tokens: seq<int>) {
    forall k {:trigger ThreeAt(v, tokens, k)} {:trigger UnpairedAt(v, tokens, k)} :: !ThreeAt(v, tokens, k)
           && !UnpairedAt(v, tokens, k)
  }

  /** All timestamps are at most `last`. */
  ghost predicate UpTo(v: Vocab, tokens: seq<int>, last: int) {
    forall k :: 0 <= k < |tokens| ==> tokens[k] <= last || !IsTs(v, tokens[k])
  }

  ghost predicate InVocab(v: Vocab, tokens: seq<int>) {
    forall k :: 0 <= k < |tokens| ==> 0 <= tokens[k] < v.size
  }

  /** The sequence rules, the range of the window step, and its link to the last timestamp while decoding goes on. */
  ghost predicate Inv(v: Vocab, d: State) {
    && InVocab(v, d.tokens) && Nondecreasing(v, d.tokens) && Paired(v, d.tokens)
    && 2 <= d.seekDelta <= CHUNK && d.resultLen <= |d.tokens|
    && (!d.completed && !d.failed ==> UpTo(v, d.tokens, if d.hasTs then v.beg + d.seekDelta / 2 else v.beg))
    && (d.hasTs && !d.completed ==> d.seekDelta % 2 == 0)
  }

  lemma {:induction false} AppendPaired(v: Vocab, p: Params, d: State, id: int)
    requires VocabOk(v) && Inv(v, d) && !Masked(v, p, d, id)
    ensures Paired(v, d.tokens + [id])
  {
    var longer := d.tokens + [id];
    forall k
      ensures !ThreeAt(v, longer, k) && !UnpairedAt(v, longer, k)
    {
      if 0 <= k < |longer| - 3 {
        assert !ThreeAt(v, d.tokens, k) && !UnpairedAt(v, d.tokens, k);
      } else if 0 <= k == |longer| - 3 {
        assert longer[k] == d.tokens[|d.tokens| - 2] && longer[k + 1] == d.tokens[|d.tokens| - 1]
               && longer[k + 2] == id;
      }
    }
  }

  lemma {:induction false} AppendOrdered(v: Vocab, p: Params, d: State, id: int)
    requires VocabOk(v) && Inv(v, d) && !d.completed && !d.failed && !Masked(v, p, d, id)
    ensures Nondecreasing(v, d.tokens + [id])
    ensures IsTs(v, id) && d.hasTs ==> v.beg + d.seekDelta / 2 <= id
  {
    var longer := d.tokens + [id];
    forall k, m | 0 <= k < m < |longer| && IsTs(v, longer[k]) && IsTs(v, longer[m])
      ensures longer[k] <= longer[m]
    {
      assert longer[k] == d.tokens[k];
    }
  }

  /** The update keeps everything, and the failure for going back in time cannot happen. */
  lemma {:induction false} UpdateKeeps(v: Vocab, p: Params, w: Window, d: State, id: int)
    requires VocabOk(v) && Inv(v, d) && !d.completed && !d.failed && 0 <= id < v.size && !Masked(v, p, d, id)
    ensures var e := d.(tokens := d.tokens + [id]); !GoesBack(v, e) && Inv(v, Step(v, w, e))
    ensures Step(v, w, d.(tokens := d.tokens + [id])).tokens == d.tokens + [id]
  {
    AppendPaired(v, p, d, id);
    AppendOrdered(v, p, d, id);
    StepFields(v, w, d, d.(tokens := d.tokens + [id]), id);
  }

  /** The update's effect on the window step, for a timestamp that does not go back. */
  lemma {:induction false} StepFields(v: Vocab, w: Window, d: State, e: State, id: int)
    requires VocabOk(v) && Inv(v, d) && !d.completed && !d.failed && 0 <= id < v.size
             && e == d.(tokens := d.tokens + [id])
    requires Paired(v, e.tokens) && Nondecreasing(v, e.tokens)
    requires IsTs(v, id) && d.hasTs ==> v.beg + d.seekDelta / 2 <= id
    ensures !GoesBack(v, e) && Inv(v, Step(v, w, e)) && Step(v, w, e).tokens == e.tokens
  {
    var last := if id > v.beg then id else if d.hasTs then v.beg + d.seekDelta / 2 else v.beg;
    assert UpTo(v, e.tokens, last);
    StepNumbers(v, w, e, id);
  }

  /** The update never touches the tokens, and keeps the window step and the result length in range. */
  lemma {:induction false} StepNumbers(v: Vocab, w: Window, e: State, id: int)
    requires VocabOk(v) && |e.tokens| > 0 && id == e.tokens[|e.tokens| - 1] && 0 <= id < v.size
    requires 2 <= e.seekDelta <= CHUNK && e.resultLen <= |e.tokens| && !e.completed
             && (e.hasTs ==> e.seekDelta % 2 == 0)
    ensures var s := Step(v, w, e);
            && s.tokens == e.tokens && 2 <= s.seekDelta <= CHUNK && s.resultLen <= |s.tokens|
            && (s.hasTs && !s.completed ==> s.seekDelta % 2 == 0)
            && (!s.completed && !s.failed ==>
                  if id > v.beg then s.hasTs && s.seekDelta == 2 * (id - v.beg)
                      else s.hasTs == e.hasTs && s.seekDelta == e.seekDelta)
  {
  }

  // ---------------------------------------------------------------------------------------------
  // All decoders over a window
  // ---------------------------------------------------------------------------------------------

  predicate Live(d: State) {
    !d.completed && !d.failed
  }

  /** One iteration: each live decoder takes over a live parent's fields and one token its masks allow, then updates. */
  datatype Iteration = Iteration(parent: seq<nat>, next: seq<int>)

  ghost predicate Legal(v: Vocab, p: Params, ds: seq<State>, it: Iteration) {
    && |it.parent| == |it.next| == |ds|
    && forall j :: 0 <= j < |ds| && Live(ds[j]) ==>
         && it.parent[j] < |ds| && Live(ds[it.parent[j]])
         && 0 <= it.next[j] < v.size && !Masked(v, p, ds[it.parent[j]], it.next[j])
  }

  function Taken(d: State, id: int): State {
    d.(tokens := d.tokens + [id])
  }

  function Iterate(v: Vocab, w: Window, ds: seq<State>, it: Iteration): seq<State>
    requires |it.parent| == |it.next| == |ds| && forall j :: 0 <= j < |ds| && Live(ds[j]) ==> it.parent[j] < |ds|
  {
    seq(|ds|, (j: nat) requires j < |ds| => if Live(ds[j]) then Step(v, w, Taken(ds[it.parent[j]], it.next[j]))
        else ds[j])
  }

  ghost predicate AllInv(v: Vocab, ds: seq<State>) {
    forall j {:trigger ds[j]} :: 0 <= j < |ds| ==> Inv(v, ds[j])
  }

  lemma {:induction false} IterationKeeps(v: Vocab, p: Params, w: Window, ds: seq<State>, it: Iteration)
    requires VocabOk(v) && AllInv(v, ds) && Legal(v, p, ds, it)
    ensures AllInv(v, Iterate(v, w, ds, it))
    ensures forall j :: 0 <= j < |ds| && Live(ds[j]) ==> !GoesBack(v, Taken(ds[it.parent[j]], it.next[j]))
  {
    forall j | 0 <= j < |ds|
      ensures Inv(v, Iterate(v, w, ds, it)[j])
      ensures Live(ds[j]) ==> !GoesBack(v, Taken(ds[it.parent[j]], it.next[j]))
    {
      if Live(ds[j]) {
        UpdateKeeps(v, p, w, ds[it.parent[j]], it.next[j]);
      }
    }
  }

  ghost predicate LegalRun(v: Vocab, p: Params, w: Window, ds: seq<State>, its: seq<Iteration>)
    decreases |its|
  {
    its == [] || (Legal(v, p, ds, its[0]) && LegalRun(v, p, w, Iterate(v, w, ds, its[0]), its[1..]))
  }

  ghost function RunAll(v: Vocab, p: Params, w: Window, ds: seq<State>, its: seq<Iteration>): seq<State>
    requires LegalRun(v, p, w, ds, its)
    decreases |its|
  {
    if its == [] then ds else RunAll(v, p, w, Iterate(v, w, ds, its[0]), its[1..])
  }

  lemma {:induction false} RunKeeps(v: Vocab, p: Params, w: Window, ds: seq<State>, its: seq<Iteration>)
    requires VocabOk(v) && AllInv(v, ds) && LegalRun(v, p, w, ds, its)
    ensures AllInv(v, RunAll(v, p, w, ds, its)) && |RunAll(v, p, w, ds, its)| == |ds|
    decreases |its|
  {
    if its != [] {
      IterationKeeps(v, p, w, ds, its[0]);
      RunKeeps(v, p, w, Iterate(v, w, ds, its[0]), its[1..]);
    }
  }

  /** In every run of a window, every decoder keeps the timestamp rules and a step of 20 ms to 30 s. */
  lemma {:induction false} EverySequenceKeepsRules(v: Vocab, p: Params, w: Window, n: nat, its: seq<Iteration>)
    requires VocabOk(v) && LegalRun(v, p, w, Fresh(n), its)
    ensures var ds := RunAll(v, p, w, Fresh(n), its); |ds| == n && AllInv(v, ds)
  {
    assert Inv(v, FRESH);
    RunKeeps(v, p, w, Fresh(n), its);
  }

  // ---------------------------------------------------------------------------------------------
  // The outer loop
  // ---------------------------------------------------------------------------------------------

  function Fresh(n: nat): seq<State> {
    seq(n, (j: nat) => FRESH)
  }

  /** Decoder `j` of `n` ends a window in the state `d`. */
  ghost predicate EndsIn(v: Vocab, p: Params, w: Window, n: nat, its: seq<Iteration>, j: nat, d: State) {
    LegalRun(v, p, w, Fresh(n), its) && var ds := RunAll(v, p, w, Fresh(n), its); j < |ds| && ds[j] == d
  }

  /** Some run of a window leaves a decoder in the state `d`. */
  ghost predicate Reachable(v: Vocab, d: State) {
    exists p, w, n, its, j :: EndsIn(v, p, w, n, its, j, d)
  }

  lemma {:induction false} ReachableKeepsRules(v: Vocab, d: State)
    requires VocabOk(v) && Reachable(v, d)
    ensures Inv(v, d)
  {
    var p, w, n, its, j :| EndsIn(v, p, w, n, its, j, d);
    EverySequenceKeepsRules(v, p, w, n, its);
  }

  /** The decoder that a window at each seek position chooses, as decoding leaves it. */
  datatype Model = Model(best: int -> State)

  function Best(m: Model, seek: int): State {
    m.best(seek)
  }

  /** Ranking cuts a sequence to its result, unless decoding failed. */
  function ResultOf(d: State): seq<int>
    requires d.resultLen <= |d.tokens|
  {
    if d.failed then d.tokens else d.tokens[..d.resultLen]
  }

  /** A chunk that ends in a single timestamp is skipped to its end. */
  predicate SingleTimestampEnding(v: Vocab, p: Params, tokens: seq<int>) {
    && |tokens| > 1 && !(p.maxTokens > 0 && !p.singleSegment && |tokens| > p.maxTokens)
    && tokens[|tokens| - 2] < v.beg && tokens[|tokens| - 1] > v.beg
  }

  /** How far the window moves: as the best decoder says, or to the end of the chunk or the audio. */
  ghost predicate MovesAt(v: Vocab, p: Params, m: Model, seekEnd: int, seeks: seq<int>, k: int) {
    0 < k < |seeks| ==>
      var best := Best(m, seeks[k - 1]);
      && best.resultLen <= |best.tokens|
      && seeks[k] - seeks[k - 1]
         == if !SingleTimestampEnding(v, p, ResultOf(best)) then best.seekDelta
            else if seekEnd - seeks[k - 1] < CHUNK then seekEnd - seeks[k - 1] else CHUNK
  }

  ghost predicate Moves(v: Vocab, p: Params, m: Model, seekEnd: int, seeks: seq<int>) {
    forall k {:trigger MovesAt(v, p, m, seekEnd, seeks, k)} :: MovesAt(v, p, m, seekEnd, seeks, k)
  }

  lemma {:induction false} MovesNext(v: Vocab, p: Params, m: Model, seekEnd: int, seeks: seq<int>, seek: int)
    requires Moves(v, p, m, seekEnd, seeks) && MovesAt(v, p, m, seekEnd, seeks + [seek], |seeks|)
    ensures Moves(v, p, m, seekEnd, seeks + [seek])
  {
    forall k
      ensures MovesAt(v, p, m, seekEnd, seeks + [seek], k)
    {
      assert MovesAt(v, p, m, seekEnd, seeks, k);
    }
  }

  predicate RisesAt(seeks: seq<int>, k: int) {
    0 < k < |seeks| ==> 2 <= seeks[k] - seeks[k - 1] <= CHUNK
  }

  /** Seek positions rise by 20 ms to 30 s each. */
  ghost predicate Advancing(seeks: seq<int>) {
    forall k {:trigger RisesAt(seeks, k)} :: RisesAt(seeks, k)
  }

  lemma {:induction false} AdvancingNext(seeks: seq<int>, seek: int)
    requires Advancing(seeks) && (|seeks| > 0 ==> 2 <= seek - seeks[|seeks| - 1] <= CHUNK)
    ensures Advancing(seeks + [seek])
  {
    forall k
      ensures RisesAt(seeks + [seek], k)
    {
      assert RisesAt(seeks, k);
    }
  }

  /** Whatever the windows do, the loop ends, after at most one window per 20 ms, with less than 100 ms left. */
  method SeekLoop(v: Vocab, p: Params, m: Model, seekStart: int, seekEnd: int) returns (seeks: seq<int>, seek: int)
    requires VocabOk(v) && forall s {:trigger Best(m, s)} :: Reachable(v, Best(m, s))
    ensures Advancing(seeks + [seek]) && (forall k :: 0 <= k < |seeks| ==> seekStart <= seeks[k] < seekEnd - DELTA_MIN)
    ensures seek + DELTA_MIN >= seekEnd && 2 * |seeks| <= seek - seekStart
    ensures (seeks + [seek])[0] == seekStart && Moves(v, p, m, seekEnd, seeks + [seek])
  {
    seeks, seek := [], seekStart;
    AdvancingNext([], seekStart);
    while true
      invariant seekStart <= seek && 2 * |seeks| <= seek - seekStart && Advancing(seeks + [seek])
      invariant forall k :: 0 <= k < |seeks| ==> seekStart <= seeks[k] < seekEnd - DELTA_MIN
      invariant (seeks + [seek])[0] == seekStart && Moves(v, p, m, seekEnd, seeks + [seek])
      decreases seekEnd - seek
    {
      if seek + DELTA_MIN >= seekEnd {
        break;
      }
      var best := Best(m, seek);
      ReachableKeepsRules(v, best);
      var seekDelta := best.seekDelta;
      var tokens := if best.failed then best.tokens else best.tokens[..best.resultLen];
      var maxTokensEnding := p.maxTokens > 0 && !p.singleSegment && |tokens| > p.maxTokens;
      if |tokens| > 1 && !maxTokensEnding && tokens[|tokens| - 2] < v.beg && tokens[|tokens| - 1] > v.beg {
        seekDelta := if seekEnd - seek < CHUNK then seekEnd - seek else CHUNK;
      }
      AdvancingNext(seeks + [seek], seek + seekDelta);
      MovesNext(v, p, m, seekEnd, seeks + [seek], seek + seekDelta);
      seeks := seeks + [seek];
      seek := seek + seekDelta;
    }
  }
}
