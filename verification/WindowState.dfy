/**
 The state whisper_full_with_state updates during a decode window, with the code's own loops over decoders.
 `View` is the abstract window; each method is one event of it.
 */
module WindowState {
  import opened Arithmetic
  import opened KvCache
  import opened BeamReshuffle
  import opened DecodeWindow

  /** What one iteration decides: parents, next tokens, and which decoders complete or fail. */
  datatype Choices = Choices(parent: seq<int>, next: seq<int>, done: seq<bool>)

  /** Sampling may depend on the iteration and on all sequences so far. */
  datatype Sampler = Sampler(beam: bool, choose: (nat, seq<seq<int>>, seq<bool>) -> Choices)

  function Choose(m: Sampler, i: nat, tokens: seq<seq<int>>, live: seq<bool>): Choices {
    m.choose(i, tokens, live)
  }

  /** Parents are live decoders; without beams every decoder is its own parent. */
  ghost predicate IsChoice(m: Sampler, c: Choices, live: seq<bool>) {
    && |c.parent| == |c.next| == |c.done| == |live|
    && forall j :: 0 <= j < |live| && live[j] ==>
         0 <= c.parent[j] < |live| && live[c.parent[j]] && (!m.beam ==> c.parent[j] == j)
  }

  ghost predicate Sound(m: Sampler) {
    forall i: nat, tokens, live {:trigger Choose(m, i, tokens, live)} :: IsChoice(m, Choose(m, i, tokens, live), live)
  }

  /** A state of the window in which everything holds and every position is below the text context. */
  ghost predicate Fits(w: Window, nTextCtx: nat) {
    Inv(w) && forall k :: 0 <= k < |w.cells| ==> w.cells[k].pos < nTextCtx
  }

  ghost predicate SomeLive(live: seq<bool>) {
    exists j :: 0 <= j < |live| && live[j]
  }

  /** Which decoders go on. */
  ghost function StillLive(live: seq<bool>, done: seq<bool>): (r: seq<bool>)
    requires |done| == |live|
  {
    seq(|live|, (j: nat) requires j < |live| => live[j] && !done[j])
  }

  /** What sampling makes of a window: tokens and cells of the parents are taken over, then decoders finish. */
  ghost function AfterSampling(w: Window, c: Choices): Window
    requires Enabled(w, Sample(c.parent, c.next)) && |c.done| == |w.live|
  {
    Apply(w, Sample(c.parent, c.next)).(live := StillLive(w.live, c.done))
  }

  /** What the sampler chooses in state `w` of a window whose prompt has `start` tokens. */
  ghost function Chosen(m: Sampler, start: nat, w: Window): Choices
    requires start <= w.past
  {
    Choose(m, w.past - start, w.tokens, w.live)
  }

  ghost predicate SamplesTo(m: Sampler, start: nat, a: Window, b: Window) {
    && start <= a.past && |Chosen(m, start, a).done| == |a.live|
    && Enabled(a, Sample(Chosen(m, start, a).parent, Chosen(m, start, a).next))
    && b == AfterSampling(a, Chosen(m, start, a))
  }

  ghost predicate DecodesTo(a: Window, b: Window, at: nat) {
    SomeLive(a.live) && Enabled(a, Decode(at)) && b == Apply(a, Decode(at))
  }

  /** One half of an iteration. Only a window that is not complete goes on. */
  ghost predicate Follows(m: Sampler, start: nat, nTextCtx: nat, a: Window, b: Window) {
    if a.sampled then exists at :: DecodesTo(a, b, at)
    else a.past < start + MaxIterations(nTextCtx) && SamplesTo(m, start, a, b)
  }

  ghost predicate Leads(m: Sampler, start: nat, nTextCtx: nat, seen: seq<Window>, k: nat) {
    k + 1 < |seen| ==> Follows(m, start, nTextCtx, seen[k], seen[k + 1])
  }

  /** The states of a window, one after the other. */
  ghost predicate IsTrace(m: Sampler, start: nat, nTextCtx: nat, seen: seq<Window>) {
    && (forall k :: 0 <= k < |seen| ==> Fits(seen[k], nTextCtx))
    && forall k: nat {:trigger Leads(m, start, nTextCtx, seen, k)} :: Leads(m, start, nTextCtx, seen, k)
  }

  /** Every decoder has finished, or all iterations are done. */
  ghost predicate Complete(w: Window, start: nat, nTextCtx: nat) {
    if w.sampled then !SomeLive(w.live) else w.past == start + MaxIterations(nTextCtx)
  }

  /** Some decoder goes on, but its token and those of the others fit nowhere in the cache. */
  ghost predicate Stuck(w: Window) {
    CanDecode(w) && SomeLive(w.live) && forall at :: !FreeRun(w.cells, at, |Batch(w, |w.live|)|)
  }

  /**
   What running a window with `prompt` and `n` decoders comes to, from rows `rows` to state `w`: it does not start
   exactly if the cache is smaller than the prompt, else it goes through the states `seen`; it succeeds exactly if
   the last of them is complete, and certainly if every token has a cell of its own.
   */
  ghost predicate IsWindow(m: Sampler, prompt: seq<int>, n: nat, nTextCtx: nat, rows: seq<int>, ok: bool,
                           seen: seq<Window>, w: Window) {
    && IsTrace(m, |prompt|, nTextCtx, seen)
    && (seen == [] <==> |prompt| > |rows|)
    && (seen != [] ==> seen[0] == Started(|rows|, rows, prompt, n) && seen[|seen| - 1] == w)
    && (ok ==> seen != [] && Complete(w, |prompt|, nTextCtx))
    && (!ok && seen != [] ==> Stuck(w))
    && (|prompt| + n * MaxIterations(nTextCtx) <= |rows| ==> ok)
  }

  class State {
    const cache: Cache
    var rows: seq<int>           // what the key and value tensors hold, cell by cell
    var prompt: seq<int>
    var tokens: seq<seq<int>>    // the sequence of each decoder
    var live: seq<bool>          // neither completed nor failed
    var past: nat
    ghost var sampled: bool

    constructor (size: nat, rows: seq<int>)
      requires |rows| == size
      ensures Valid() && fresh(cache) && |cache.cells| == size
    {
      cache := new Cache(size);
      this.rows := rows;
      prompt, tokens, live, past, sampled := [], [], [], 0, false;
    }

    ghost predicate Valid()
      reads this, cache
    {
      cache.Valid() && |rows| == |cache.cells|
    }

    ghost function View(): Window
      reads this, cache
    {
      Window(cache.cells, rows, prompt, tokens, live, past, sampled)
    }

    /** Decodes the prompt for sequence 0 in a cleared cache and shares its cells with the other decoders. */
    method Start(prompt: seq<int>, n: nat) returns (ok: bool)
      requires Valid() && 1 <= n <= WHISPER_MAX_DECODERS && 0 < |prompt| < POS_MAX
      modifies this, cache
      ensures Valid()
      ensures |cache.cells| == |old(rows)| && ok == (|prompt| <= |cache.cells|)
      ensures ok ==> View() == Started(|cache.cells|, old(rows), prompt, n) && cache.head == 0
    {
      cache.Clear();
      var batch := PromptBatch(prompt);
      ghost var empty := cache.cells;
      assert |prompt| <= |empty| ==> FreeRun(empty, 0, |batch|);
      ok := cache.FindSlot(batch);
      if !ok {
        return;
      }
      FreeAtZero(empty, cache.cells, batch, cache.head);
      rows := WrittenRows(rows, cache.head, batch);
      Share(|prompt|, n);
      this.prompt, past, sampled := prompt, |prompt|, false;
      tokens, live := seq(n, (j: nat) => []), seq(n, (j: nat) => true);
    }

    /** Copies sequence 0 to the sequences 1..n. */
    method Share(count: nat, n: nat)
      requires n > 0 && count <= |cache.cells| && count < POS_MAX
      requires forall k :: 0 <= k < |cache.cells| ==> cache.cells[k] == SharedCell(k, count, 1)
      modifies cache
      ensures cache.Valid() && |cache.cells| == |old(cache.cells)| && cache.head == 0
      ensures forall k :: 0 <= k < |cache.cells| ==> cache.cells[k] == SharedCell(k, count, n)
    {
      cache.head := 0;
      for j := 1 to n
        invariant cache.Valid() && |cache.cells| == |old(cache.cells)| && cache.head == 0
        invariant forall k :: 0 <= k < |cache.cells| ==> cache.cells[k] == SharedCell(k, count, j)
      {
        cache.SeqCp(0, j, -1, -1);
      }
    }

    /**
     Takes over each live decoder's chosen parent and next token. Beam search reorders the cache, greedy
     sampling keeps it.
     */
    method Resample(beam: bool, parent: seq<int>, next: seq<int>)
      requires Valid() && CellsOk(cache.cells, |live|) && Enabled(View(), Sample(parent, next))
      requires !beam ==> forall j :: 0 <= j < |live| && live[j] ==> parent[j] == j
      modifies this, cache
      ensures Valid() && View() == Apply(old(View()), Sample(parent, next))
      ensures NoneTaken(old(cache.cells), cache.cells) && HeadMoved(old(cache.cells), old(cache.head), cache.head)
    {
      if beam {
        ReshuffleBeams(cache, live, parent);
      } else {
        GreedyKeepsCells(cache.cells, live, parent);
      }
      tokens := TakeOver(tokens, live, parent, next);
      sampled := true;
    }

    method Finish(j: nat)
      requires Valid() && Enabled(View(), Event.Finish(j))
      modifies this
      ensures Valid() && View() == Apply(old(View()), Event.Finish(j))
    {
      live := live[j := false];
    }

    /** Decodes the last token of every live decoder; fails exactly if the cache has no free run for them. */
    method DecodeNext() returns (ok: bool)
      requires Valid() && CanDecode(View()) && past + 1 < POS_MAX && SomeLive(live)
      modifies this, cache
      ensures Valid()
      ensures ok == old(exists at :: FreeRun(cache.cells, at, |Batch(View(), |live|)|))
      ensures ok ==> Enabled(old(View()), Decode(cache.head)) && View() == Apply(old(View()), Decode(cache.head))
      ensures ok ==> IsNextRun(old(cache.cells), |Batch(old(View()), |live|)|, old(cache.head), cache.head)
      ensures !ok ==> View() == old(View())
    {
      var batch := [];
      ghost var w := View();
      for j := 0 to |live|
        invariant batch == Batch(w, j)
      {
        if live[j] {
          batch := batch + [Entry(tokens[j][|tokens[j]| - 1], past, [j])];
        }
      }
      LiveInBatch(w);
      ok := cache.FindSlot(batch);
      if ok {
        rows := WrittenRows(rows, cache.head, batch);
        past := past + 1;
        sampled := false;
      }
    }

    /** Marks the live decoders that completed or failed. */
    method FinishAll(done: seq<bool>)
      requires Valid() && |done| == |live| && sampled
      modifies this
      ensures Valid() && View() == old(View()).(live := StillLive(old(live), done))
    {
      ghost var before := View();
      for j := 0 to |done|
        invariant |live| == |done| && View() == before.(live := live)
        invariant forall i :: 0 <= i < |done| ==> live[i] == (before.live[i] && (i < j ==> !done[i]))
      {
        if live[j] && done[j] {
          Finish(j);
        }
      }
      assert live == StillLive(before.live, done);
    }

    /** One iteration up to the check whether any decoder goes on. */
    method SampleTokens(m: Sampler, i: nat) returns (any: bool)
      requires Valid() && Sound(m) && Inv(View()) && !sampled
      modifies this, cache
      ensures Valid() && Enabled(old(View()), Sample(Choose(m, i, old(tokens), old(live)).parent,
                                                     Choose(m, i, old(tokens), old(live)).next))
      ensures View() == AfterSampling(old(View()), Choose(m, i, old(tokens), old(live)))
      ensures any <==> SomeLive(live)
      ensures NoneTaken(old(cache.cells), cache.cells) && HeadMoved(old(cache.cells), old(cache.head), cache.head)
    {
      var c := Choose(m, i, tokens, live);
      Resample(m.beam, c.parent, c.next);
      FinishAll(c.done);
      any := exists j :: 0 <= j < |live| && live[j];
    }

    /** Where iteration `i` starts. */
    ghost predicate AtIteration(m: Sampler, start: nat, n: nat, nTextCtx: nat, seen: seq<Window>, mark: nat, i: nat)
      reads this, cache
    {
      && Valid() && !sampled && past == start + i && |live| == n
      && IsTrace(m, start, nTextCtx, seen) && |seen| > 0 && seen[|seen| - 1] == View()
      && UnusedFrom(cache.cells, cache.head, mark) && mark <= start + n * i
    }

    /** The first half of an iteration. */
    method SampleHalf(m: Sampler, start: nat, n: nat, nTextCtx: nat, i: nat, ghost mark: nat,
                      ghost seen0: seq<Window>) returns (any: bool, ghost seen: seq<Window>)
      requires Sound(m) && AtIteration(m, start, n, nTextCtx, seen0, mark, i)
      requires i < MaxIterations(nTextCtx) && past <= nTextCtx
      modifies this, cache
      ensures Valid() && sampled && past == start + i && |live| == n && (any <==> SomeLive(live)) && Inv(View())
      ensures seen == seen0 + [View()] && IsTrace(m, start, nTextCtx, seen)
      ensures UnusedFrom(cache.cells, cache.head, mark) && |rows| == |old(rows)|
    {
      ghost var cells, head := cache.cells, cache.head;
      assert Fits(View(), nTextCtx);
      any := SampleTokens(m, i);
      SamplingGrows(m, start, nTextCtx, seen0, View());
      MovingKeepsMark(cells, cache.cells, head, cache.head, mark);
      seen := seen0 + [View()];
    }

    /** The second half: decodes the tokens of the decoders that go on. */
    method DecodeHalf(m: Sampler, start: nat, n: nat, nTextCtx: nat, i: nat, ghost mark0: nat,
                      ghost seen0: seq<Window>) returns (ok: bool, ghost mark: nat, ghost seen: seq<Window>)
      requires Valid() && sampled && past == start + i < nTextCtx < POS_MAX && |live| == n && SomeLive(live)
      requires IsTrace(m, start, nTextCtx, seen0) && |seen0| > 0 && seen0[|seen0| - 1] == View() && Inv(View())
      requires UnusedFrom(cache.cells, cache.head, mark0) && mark0 <= start + n * i && i < MaxIterations(nTextCtx)
      modifies this, cache
      ensures Valid() && |rows| == |old(rows)|
      ensures ok ==> AtIteration(m, start, n, nTextCtx, seen, mark, i + 1) && seen0 < seen
      ensures !ok ==> seen == seen0 && View() == old(View()) && Stuck(View())
      ensures !ok ==> start + n * MaxIterations(nTextCtx) > |rows|
    {
      ghost var before, head := View(), cache.head;
      LiveTokens(before);
      ok := DecodeNext();
      if ok {
        DecodingGrows(m, start, nTextCtx, seen0, View(), cache.head);
        mark := MarkRises(before, head, mark0, cache.head, start, n, i);
        seen := seen0 + [View()];
      } else {
        RoomForBatch(before, head, mark0, start, n, i, MaxIterations(nTextCtx));
        mark, seen := mark0, seen0;
      }
    }

    /**
     A whole window: the prompt, then at most half the text context less four iterations. `seen` lists every state
     it goes through.
     */
    method RunWindow(m: Sampler, prompt: seq<int>, n: nat, nTextCtx: nat) returns (ok: bool, ghost seen: seq<Window>)
      requires Valid() && Sound(m) && 1 <= n <= WHISPER_MAX_DECODERS
      requires 8 <= nTextCtx < POS_MAX && 0 < |prompt| <= nTextCtx / 2 + 4
      modifies this, cache
      ensures Valid() && IsWindow(m, prompt, n, nTextCtx, old(rows), ok, seen, View())
    {
      seen := [];
      ok := Start(prompt, n);
      if !ok {
        ProductMonotone(0, MaxIterations(nTextCtx), n);
        return;
      }
      StartHolds(|cache.cells|, old(rows), prompt, n);
      seen := [View()];
      ghost var mark: nat := |prompt|;
      var nMax := nTextCtx / 2 - 4;
      for i := 0 to nMax
        invariant ok && |rows| == |old(rows)| && AtIteration(m, |prompt|, n, nTextCtx, seen, mark, i)
        invariant seen[0] == Started(|old(rows)|, old(rows), prompt, n)
      {
        var any;
        any, seen := SampleHalf(m, |prompt|, n, nTextCtx, i, mark, seen);
        if !any {
          break;
        }
        ok, mark, seen := DecodeHalf(m, |prompt|, n, nTextCtx, i, mark, seen);
        if !ok {
          return;
        }
      }
    }

    /**
     A window with the prompt that the context gives: nothing is assumed about lengths but the code's own limits.
     With a cache of the size that the code asks for it succeeds whenever the prompt is defined.
     */
    method WindowFromContext(m: Sampler, context: Context, nMaxTextCtx: int, nTextCtx: nat, conditioned: bool,
                             carry: bool, prev: int, init: seq<int>, n: nat)
      returns (defined: bool, prompt: seq<int>, ok: bool, ghost seen: seq<Window>)
      requires Valid() && Sound(m) && 1 <= n <= WHISPER_MAX_DECODERS && 8 <= nTextCtx < POS_MAX && 1 <= |init| <= 4
      modifies this, cache
      ensures Valid()
      ensures defined <==> !Overfull(Min(nMaxTextCtx, nTextCtx / 2), conditioned, carry, context.past0, context.past1)
      ensures defined ==> IsPrompt(prompt, Min(nMaxTextCtx, nTextCtx / 2), conditioned, carry, context.past0,
                                   context.past1, prev, init)
      ensures defined ==> IsWindow(m, prompt, n, nTextCtx, old(rows), ok, seen, View())
      ensures defined && |old(rows)| >= CacheSize(nTextCtx, n) ==> ok
      ensures !defined ==> !ok && seen == [] && View() == old(View())
    {
      ok, seen := false, [];
      var maxPromptCtx := Min(nMaxTextCtx, nTextCtx / 2);
      defined, prompt := BuildPrompt(maxPromptCtx, conditioned, carry, context.past0, context.past1, prev, init);
      if defined {
        ok, seen := RunWindow(m, prompt, n, nTextCtx);
        CacheHoldsWindow(nTextCtx, n, |prompt|);
      }
    }
  }

  /** One state more. */
  lemma {:induction false} TraceGrows(m: Sampler, start: nat, nTextCtx: nat, seen: seq<Window>, w: Window)
    requires IsTrace(m, start, nTextCtx, seen) && |seen| > 0 && Fits(w, nTextCtx)
    requires Follows(m, start, nTextCtx, seen[|seen| - 1], w)
    ensures IsTrace(m, start, nTextCtx, seen + [w])
  {
    var more := seen + [w];
    forall k: nat
      ensures Leads(m, start, nTextCtx, more, k)
    {
      assert Leads(m, start, nTextCtx, seen, k);
    }
  }

  lemma {:induction false} FewerLiveKeeps(w: Window, live: seq<bool>)
    requires Inv(w) && |live| == |w.live| && forall j :: 0 <= j < |live| && live[j] ==> w.live[j]
    ensures Inv(w.(live := live))
  {
    var after := w.(live := live);
    forall j | 0 <= j < |live| && live[j]
      ensures History(after, j) == History(w, j)
    {
    }
  }

  lemma {:induction false} SamplingGrows(m: Sampler, start: nat, nTextCtx: nat, seen: seq<Window>, w: Window)
    requires IsTrace(m, start, nTextCtx, seen) && |seen| > 0 && !seen[|seen| - 1].sampled
    requires seen[|seen| - 1].past < start + MaxIterations(nTextCtx) && seen[|seen| - 1].past <= nTextCtx
    requires SamplesTo(m, start, seen[|seen| - 1], w)
    ensures IsTrace(m, start, nTextCtx, seen + [w]) && Inv(w)
  {
    var a := seen[|seen| - 1];
    var c := Chosen(m, start, a);
    assert Fits(a, nTextCtx);
    EventKeeps(a, Sample(c.parent, c.next));
    FewerLiveKeeps(Apply(a, Sample(c.parent, c.next)), w.live);
    TraceGrows(m, start, nTextCtx, seen, w);
  }

  lemma {:induction false} DecodingGrows(m: Sampler, start: nat, nTextCtx: nat, seen: seq<Window>, w: Window, at: nat)
    requires IsTrace(m, start, nTextCtx, seen) && |seen| > 0 && DecodesTo(seen[|seen| - 1], w, at)
    requires w.past <= nTextCtx
    ensures IsTrace(m, start, nTextCtx, seen + [w]) && Inv(w)
  {
    var a := seen[|seen| - 1];
    assert Fits(a, nTextCtx);
    EventKeeps(a, Decode(at));
    TraceGrows(m, start, nTextCtx, seen, w);
  }

  /** Each decoding step raises the mark by at most one cell per decoder. */
  lemma {:induction false} MarkRises(w: Window, head: nat, mark: nat, at: nat, start: nat, n: nat, i: nat)
    returns (higher: nat)
    requires CanDecode(w) && |w.live| == n && UnusedFrom(w.cells, head, mark) && mark <= start + n * i
    requires IsNextRun(w.cells, |Batch(w, n)|, head, at) && Enabled(w, Decode(at))
    ensures UnusedFrom(Apply(w, Decode(at)).cells, at, higher) && higher <= start + n * (i + 1)
  {
    ClaimRaisesMark(w.cells, head, mark, Batch(w, n), at);
    higher := mark + |Batch(w, n)|;
    assert n * (i + 1) == n * i + n;
  }

  lemma {:induction false} RoomForBatch(w: Window, head: nat, mark: nat, start: nat, n: nat, i: nat, most: nat)
    requires CanDecode(w) && |w.live| == n && UnusedFrom(w.cells, head, mark) && mark <= start + n * i && i < most
    ensures start + n * most <= |w.cells| ==> FreeRun(w.cells, mark, |Batch(w, n)|)
  {
    ProductMonotone(i + 1, most, n);
    assert (i + 1) * n == n * i + n;
    if start + n * most <= |w.cells| {
      RoomAtMark(w.cells, head, mark, |Batch(w, n)|);
    }
  }

  /** A live decoder has just sampled a token. */
  lemma {:induction false} LiveTokens(w: Window)
    requires Inv(w) && w.sampled
    ensures CanDecode(w)
  {
    assert forall j :: 0 <= j < |w.live| && w.live[j] ==> |History(w, j)| == w.past + 1;
  }

  /** The token loop: candidates were copied before, so a decoder sees its parent's old sequence. */
  method TakeOver(before: seq<seq<int>>, live: seq<bool>, parent: seq<int>, next: seq<int>)
    returns (tokens: seq<seq<int>>)
    requires Choice(live, parent) && |next| == |live| == |before|
    ensures tokens == Sampled(before, live, parent, next)
  {
    tokens := before;
    for j := 0 to |live|
      invariant |tokens| == |before|
      invariant forall i :: 0 <= i < j ==> tokens[i] == if live[i] then before[parent[i]] + [next[i]] else before[i]
      invariant forall i :: j <= i < |before| ==> tokens[i] == before[i]
    {
      if live[j] {
        tokens := tokens[j := before[parent[j]] + [next[j]]];
      }
    }
  }

  function PromptBatch(prompt: seq<int>): (b: seq<Entry>)
    ensures |b| == |prompt|
  {
    seq(|prompt|, (i: nat) requires i < |prompt| => Entry(prompt[i], i, [0]))
  }

  ghost function SharedCell(k: int, count: int, n: nat): Cell {
    if k < count then Cell(k, FirstIds(n)) else EMPTY_CELL
  }

  lemma {:induction false} FreeAtZero(empty: seq<Cell>, cells: seq<Cell>, batch: seq<Entry>, head: nat)
    requires forall k :: 0 <= k < |empty| ==> empty[k] == EMPTY_CELL
    requires IsNextRun(empty, |batch|, 0, head) && cells == Claimed(empty, head, batch)
    requires forall b :: 0 <= b < |batch| ==> batch[b].pos == b && batch[b].seqs == [0]
    ensures head == 0
    ensures forall k :: 0 <= k < |cells| ==> cells[k] == SharedCell(k, |batch|, 1)
  {
    assert FreeRun(empty, 0, |batch|);
    assert Members([0]) == {0};
    assert FirstIds(1) == {0};
  }

  lemma {:induction false} GreedyKeepsCells(cells: seq<Cell>, live: seq<bool>, parent: seq<int>)
    requires CellsOk(cells, |live|) && Choice(live, parent)
    requires forall j :: 0 <= j < |live| && live[j] ==> parent[j] == j
    ensures Reshuffled(cells, live, parent) == cells
  {
    forall k | 0 <= k < |cells|
      ensures ReshuffledCell(cells[k], live, parent) == cells[k]
    {
      assert CellOk(cells[k], |live|);
      forall id
        ensures id in ReshuffledCell(cells[k], live, parent).seqs <==> id in cells[k].seqs
      {
        assert 0 <= id < |live| ==> Source(live, parent, id) == id;
      }
      assert ReshuffledCell(cells[k], live, parent).seqs == cells[k].seqs;
    }
  }

  lemma {:induction false} LiveInBatch(w: Window)
    requires CanDecode(w) && SomeLive(w.live)
    ensures |Batch(w, |w.live|)| > 0
  {
    var j: nat :| j < |w.live| && w.live[j];
    BatchServes(w, |w.live|, j);
  }
}
