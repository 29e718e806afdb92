/**
 One decode window of whisper.cpp: the prompt is decoded once and shared by all decoders, then every
 iteration samples a token per live decoder (reordering beams), finishes some decoders and decodes the new
 tokens. The cache always holds exactly the history of every live decoder.
 */
module DecodeWindow {
  import opened Arithmetic
  import opened KvCache
  import opened BeamReshuffle

  /**
   `rows[k]` is the token whose keys and values cell k stores, `past` the number of positions decoded so far,
   `sampled` whether the last token of each live decoder is still to be decoded.
   */
  datatype Window = Window(cells: seq<Cell>, rows: seq<int>, prompt: seq<int>, tokens: seq<seq<int>>,
                           live: seq<bool>, past: nat, sampled: bool)

  // ---------------------------------------------------------------------------------------------
  // The invariant
  // ---------------------------------------------------------------------------------------------

  ghost predicate Owns(cells: seq<Cell>, k: int, id: int, pos: int) {
    0 <= k < |cells| && id in cells[k].seqs && cells[k].pos == pos
  }

  ghost predicate Filled(cells: seq<Cell>, id: int, pos: int) {
    exists k :: Owns(cells, k, id, pos)
  }

  /** The cells of `id` are one for each position of the history `h`, storing that position's token. */
  ghost predicate HoldsHistory(cells: seq<Cell>, rows: seq<int>, id: int, h: seq<int>) {
    && |rows| == |cells|
    && (forall k :: 0 <= k < |cells| && id in cells[k].seqs ==> 0 <= cells[k].pos < |h| && rows[k] == h[cells[k].pos])
    && (forall p :: 0 <= p < |h| ==> Filled(cells, id, p))
    && (forall k, m, p {:trigger Owns(cells, k, id, p), Owns(cells, m, id, p)} ::
          Owns(cells, k, id, p) && Owns(cells, m, id, p) ==> k == m)
  }

  function History(w: Window, j: int): seq<int>
    requires 0 <= j < |w.tokens|
  {
    w.prompt + w.tokens[j]
  }

  ghost predicate Shape(w: Window) {
    && 1 <= |w.live| == |w.tokens| <= WHISPER_MAX_DECODERS
    && |w.prompt| <= w.past < POS_MAX && |w.rows| == |w.cells|
    && forall j :: 0 <= j < |w.live| && w.live[j] ==> |History(w, j)| == w.past + if w.sampled then 1 else 0
  }

  ghost predicate Inv(w: Window) {
    && Shape(w)
    && CellsOk(w.cells, |w.live|)
    && (forall k :: 0 <= k < |w.cells| ==> w.cells[k].pos < w.past)
    && forall j :: 0 <= j < |w.live| && w.live[j] ==> HoldsHistory(w.cells, w.rows, j, History(w, j)[..w.past])
  }

  // ---------------------------------------------------------------------------------------------
  // Steps
  // ---------------------------------------------------------------------------------------------

  datatype Event =
    | Sample(parent: seq<int>, next: seq<int>)  // parents are the identity for greedy sampling
    | Finish(decoder: int)
    | Decode(at: nat)

  /** The batch of one iteration: the last token of every live decoder below `n`, all at position `past`. */
  function Batch(w: Window, n: nat): (b: seq<Entry>)
    requires n <= |w.live| == |w.tokens|
    requires forall j :: 0 <= j < n && w.live[j] ==> |w.tokens[j]| > 0
    ensures |b| <= n
  {
    if n == 0 then []
    else if w.live[n - 1] then Batch(w, n - 1) + [EntryOf(w, n - 1)]
    else Batch(w, n - 1)
  }

  function EntryOf(w: Window, j: nat): Entry
    requires j < |w.tokens| && |w.tokens[j]| > 0
  {
    Entry(w.tokens[j][|w.tokens[j]| - 1], w.past, [j])
  }

  function WrittenRows(rows: seq<int>, at: nat, batch: seq<Entry>): seq<int> {
    seq(|rows|, (k: nat) requires k < |rows| => if at <= k < at + |batch| then batch[k - at].token else rows[k])
  }

  ghost predicate CanDecode(w: Window) {
    w.sampled && |w.live| == |w.tokens| && forall j :: 0 <= j < |w.live| && w.live[j] ==> |w.tokens[j]| > 0
  }

  ghost predicate Enabled(w: Window, e: Event) {
    match e
    case Sample(parent, next) =>
      && !w.sampled && Choice(w.live, parent) && |next| == |w.live| == |w.tokens|
      && forall j :: 0 <= j < |w.live| && w.live[j] ==> w.live[parent[j]]
    case Finish(j) => w.sampled && 0 <= j < |w.live|
    case Decode(at) =>
      && CanDecode(w) && w.past + 1 < POS_MAX
      && FreeRun(w.cells, at, |Batch(w, |w.live|)|)
  }

  ghost function Apply(w: Window, e: Event): Window
    requires Enabled(w, e)
  {
    match e
    case Sample(parent, next) =>
      w.(cells := Reshuffled(w.cells, w.live, parent), tokens := Sampled(w.tokens, w.live, parent, next),
         sampled := true)
    case Finish(j) => w.(live := w.live[j := false])
    case Decode(at) =>
      var batch := Batch(w, |w.live|);
      w.(cells := Claimed(w.cells, at, batch), rows := WrittenRows(w.rows, at, batch), past := w.past + 1,
         sampled := false)
  }

  function Sampled(tokens: seq<seq<int>>, live: seq<bool>, parent: seq<int>, next: seq<int>): seq<seq<int>>
    requires Choice(live, parent) && |next| == |live| == |tokens|
  {
    seq(|tokens|, (j: nat) requires j < |tokens| => if live[j] then tokens[parent[j]] + [next[j]] else tokens[j])
  }

  ghost function FirstIds(n: nat): (s: set<int>)
    ensures forall id :: id in s <==> 0 <= id < n
  {
    if n == 0 then {} else FirstIds(n - 1) + {n - 1}
  }

  /** After the prompt: its cells are shared by every decoder. */
  ghost function Started(size: nat, rows: seq<int>, prompt: seq<int>, n: nat): Window
    requires |prompt| <= size == |rows|
  {
    var cells := seq(size, (k: nat) => if k < |prompt| then Cell(k, FirstIds(n)) else EMPTY_CELL);
    var after := seq(size, (k: nat) requires k < size => if k < |prompt| then prompt[k] else rows[k]);
    Window(cells, after, prompt, seq(n, (j: nat) => []), seq(n, (j: nat) => true), |prompt|, false)
  }

  // ---------------------------------------------------------------------------------------------
  // Every step keeps the invariant
  // ---------------------------------------------------------------------------------------------

  lemma {:induction false} StartHolds(size: nat, rows: seq<int>, prompt: seq<int>, n: nat)
    requires |prompt| <= size == |rows| && |prompt| < POS_MAX && 1 <= n <= WHISPER_MAX_DECODERS
    ensures Inv(Started(size, rows, prompt, n))
  {
    var w := Started(size, rows, prompt, n);
    forall k | 0 <= k < size
      ensures CellOk(w.cells[k], n)
    {
      if k < |prompt| {
        assert w.cells[k] == Cell(k, FirstIds(n)) && 0 in FirstIds(n);
      }
    }
    forall j | 0 <= j < n
      ensures HoldsHistory(w.cells, w.rows, j, History(w, j)[..w.past])
    {
      assert History(w, j) == prompt + [] && History(w, j)[..w.past] == prompt;
      forall p | 0 <= p < |prompt|
        ensures Filled(w.cells, j, p)
      {
        assert w.cells[p] == Cell(p, FirstIds(n)) && j in FirstIds(n);
        assert Owns(w.cells, p, j, p);
      }
    }
  }

  lemma {:induction false} HistoryMoves(w: Window, parent: seq<int>, j: int)
    requires CellsOk(w.cells, |w.live|) && Choice(w.live, parent) && 0 <= j < |w.live|
    requires |w.rows| == |w.cells|
    ensures forall h :: HoldsHistory(w.cells, w.rows, Source(w.live, parent, j), h)
                    ==> HoldsHistory(Reshuffled(w.cells, w.live, parent), w.rows, j, h)
  {
    var after, from := Reshuffled(w.cells, w.live, parent), Source(w.live, parent, j);
    ReshuffleIsSimultaneous(w.cells, w.live, parent);
    forall k
      ensures 0 <= k < |after| ==> (j in after[k].seqs <==> from in w.cells[k].seqs)
      ensures 0 <= k < |after| && j in after[k].seqs ==> after[k].pos == w.cells[k].pos
    {
      assert 0 <= k < |after| ==> (k in CellsOf(after, j) <==> k in CellsOf(w.cells, from));
    }
    forall h | HoldsHistory(w.cells, w.rows, from, h)
      ensures HoldsHistory(after, w.rows, j, h)
    {
      SameOwners(w.cells, after, w.rows, from, j, h);
    }
  }

  lemma {:induction false} SameOwners(cells: seq<Cell>, after: seq<Cell>, rows: seq<int>, from: int, to: int,
                                      h: seq<int>)
    requires |cells| == |after| && HoldsHistory(cells, rows, from, h)
    requires forall k :: 0 <= k < |after| ==> (to in after[k].seqs <==> from in cells[k].seqs)
    requires forall k :: 0 <= k < |after| && to in after[k].seqs ==> after[k].pos == cells[k].pos
    ensures HoldsHistory(after, rows, to, h)
  {
    forall p | 0 <= p < |h|
      ensures Filled(after, to, p)
    {
      assert Filled(cells, from, p);
      var k :| Owns(cells, k, from, p);
      assert Owns(after, k, to, p);
    }
    forall k, m, p | Owns(after, k, to, p) && Owns(after, m, to, p)
      ensures k == m
    {
      assert Owns(cells, k, from, p) && Owns(cells, m, from, p);
    }
  }

  lemma {:induction false} SampleKeeps(w: Window, e: Event)
    requires Inv(w) && e.Sample? && Enabled(w, e)
    ensures Inv(Apply(w, e))
  {
    var after := Apply(w, e);
    ReshuffleIsSimultaneous(w.cells, w.live, e.parent);
    forall j | 0 <= j < |w.live| && w.live[j]
      ensures |History(after, j)| == w.past + 1
      ensures HoldsHistory(after.cells, after.rows, j, History(after, j)[..w.past])
    {
      HistoryMoves(w, e.parent, j);
      var from := e.parent[j];
      assert |History(w, from)| == w.past;
      assert History(after, j) == History(w, from) + [e.next[j]];
      assert History(after, j)[..w.past] == History(w, from)[..w.past];
    }
  }

  /** Each batch entry belongs to one live decoder, and each live decoder has one. */
  ghost predicate Serves(w: Window, n: nat, b: int, j: int)
    requires n <= |w.live| == |w.tokens|
    requires forall j :: 0 <= j < n && w.live[j] ==> |w.tokens[j]| > 0
  {
    0 <= b < |Batch(w, n)| && 0 <= j < n && w.live[j] && Batch(w, n)[b] == EntryOf(w, j)
  }

  ghost function Rank(live: seq<bool>, j: nat): nat
    requires j <= |live|
  {
    if j == 0 then 0 else Rank(live, j - 1) + if live[j - 1] then 1 else 0
  }

  lemma {:induction false} BatchServes(w: Window, n: nat, j: nat)
    requires n <= |w.live| == |w.tokens| && j < n && w.live[j]
    requires forall j :: 0 <= j < n && w.live[j] ==> |w.tokens[j]| > 0
    ensures |Batch(w, n)| == Rank(w.live, n)
    ensures Serves(w, n, Rank(w.live, j), j)
    decreases n
  {
    BatchSize(w, n - 1);
    if j < n - 1 {
      BatchServes(w, n - 1, j);
    }
  }

  lemma {:induction false} BatchSize(w: Window, n: nat)
    requires n <= |w.live| == |w.tokens|
    requires forall j :: 0 <= j < n && w.live[j] ==> |w.tokens[j]| > 0
    ensures |Batch(w, n)| == Rank(w.live, n)
  {
    if n > 0 {
      BatchSize(w, n - 1);
    }
  }

  lemma {:induction false} BatchOwner(w: Window, n: nat, b: nat) returns (j: nat)
    requires n <= |w.live| == |w.tokens|
    requires forall j :: 0 <= j < n && w.live[j] ==> |w.tokens[j]| > 0
    requires b < |Batch(w, n)|
    ensures Serves(w, n, b, j) && Rank(w.live, j) == b
  {
    BatchSize(w, n - 1);
    if b < |Batch(w, n - 1)| {
      j := BatchOwner(w, n - 1, b);
    } else {
      j := n - 1;
    }
  }

  /** Where decoder `j` stands after the batch took its run: one more position, everything else as before. */
  lemma {:induction false} DecodeHolds(w: Window, at: nat, j: nat)
    requires Inv(w) && Enabled(w, Decode(at)) && j < |w.live| && w.live[j]
    ensures var after := Apply(w, Decode(at)); HoldsHistory(after.cells, after.rows, j, History(w, j))
  {
    var n := |w.live|;
    var batch := Batch(w, n);
    var after := Apply(w, Decode(at));
    var h := History(w, j);
    BatchServes(w, n, j);
    var mine: nat := at + Rank(w.live, j);
    forall k | 0 <= k < |w.cells|
      ensures at <= k < at + |batch| ==> (j in after.cells[k].seqs <==> k == mine) && after.cells[k].pos == w.past
      ensures at <= k < at + |batch| ==> w.cells[k].seqs == {}
    {
      if at <= k < at + |batch| {
        assert !Used(w.cells[k]) && Tidy(w.cells[k]);
        var owner := BatchOwner(w, n, k - at);
        assert Members(batch[k - at].seqs) == {owner};
      }
    }
    ClaimAddsOne(w.cells, after.cells, w.rows, after.rows, j, h, mine);
  }

  /** Cell `mine` joins the history as its last position; no other cell of `id` changes. */
  lemma {:induction false} ClaimAddsOne(cells: seq<Cell>, after: seq<Cell>, rows: seq<int>, rowsAfter: seq<int>,
                                        id: int, h: seq<int>, mine: nat)
    requires |h| > 0 && HoldsHistory(cells, rows, id, h[..|h| - 1]) && |after| == |cells| == |rowsAfter|
             && mine < |cells|
    requires id !in cells[mine].seqs && id in after[mine].seqs && after[mine].pos == |h| - 1
             && rowsAfter[mine] == h[|h| - 1]
    requires forall k :: 0 <= k < |cells| && k != mine ==> (id in after[k].seqs <==> id in cells[k].seqs)
    requires forall k :: 0 <= k < |cells| && k != mine && id in cells[k].seqs ==>
             after[k].pos == cells[k].pos && rowsAfter[k] == rows[k]
    ensures HoldsHistory(after, rowsAfter, id, h)
  {
    var before := h[..|h| - 1];
    forall p | 0 <= p < |h|
      ensures Filled(after, id, p)
    {
      if p == |h| - 1 {
        assert Owns(after, mine, id, p);
      } else {
        assert Filled(cells, id, p);
        var k :| Owns(cells, k, id, p);
        assert Owns(after, k, id, p);
      }
    }
    forall k, m, p | Owns(after, k, id, p) && Owns(after, m, id, p)
      ensures k == m
    {
      assert k != mine ==> Owns(cells, k, id, p);
      assert m != mine ==> Owns(cells, m, id, p);
    }
  }

  lemma {:induction false} DecodeKeeps(w: Window, at: nat)
    requires Inv(w) && Enabled(w, Decode(at))
    ensures Inv(Apply(w, Decode(at)))
  {
    var n := |w.live|;
    var batch := Batch(w, n);
    var after := Apply(w, Decode(at));
    forall k | 0 <= k < |w.cells|
      ensures CellOk(after.cells[k], n) && after.cells[k].pos < after.past
    {
      assert CellOk(w.cells[k], n) && w.cells[k].pos < w.past;
      if at <= k < at + |batch| {
        var owner := BatchOwner(w, n, k - at);
        assert after.cells[k].seqs == w.cells[k].seqs + {owner} && owner in after.cells[k].seqs;
      }
    }
    forall j | 0 <= j < n && w.live[j]
      ensures HoldsHistory(after.cells, after.rows, j, History(after, j)[..after.past])
    {
      DecodeHolds(w, at, j);
      assert History(after, j)[..after.past] == History(w, j);
    }
  }

  lemma {:induction false} EventKeeps(w: Window, e: Event)
    requires Inv(w) && Enabled(w, e)
    ensures Inv(Apply(w, e))
  {
    match e
    case Sample(_, _) => SampleKeeps(w, e);
    case Finish(_) =>
    case Decode(at) => DecodeKeeps(w, at);
  }

  ghost predicate CanRun(w: Window, es: seq<Event>)
    decreases |es|
  {
    es == [] || (Enabled(w, es[0]) && CanRun(Apply(w, es[0]), es[1..]))
  }

  ghost function Run(w: Window, es: seq<Event>): Window
    requires CanRun(w, es)
    decreases |es|
  {
    if es == [] then w else Run(Apply(w, es[0]), es[1..])
  }

  lemma {:induction false} RunKeeps(w: Window, es: seq<Event>)
    requires Inv(w) && CanRun(w, es)
    ensures Inv(Run(w, es))
    decreases |es|
  {
    if es != [] {
      EventKeeps(w, es[0]);
      RunKeeps(Apply(w, es[0]), es[1..]);
    }
  }

  /** In every reachable state of a decode window the cache holds exactly the history of every live decoder. */
  lemma {:induction false} EveryWindowHoldsHistory(size: nat, rows: seq<int>, prompt: seq<int>, n: nat, es: seq<Event>)
    requires |prompt| <= size == |rows| && |prompt| < POS_MAX && 1 <= n <= WHISPER_MAX_DECODERS
    requires CanRun(Started(size, rows, prompt, n), es)
    ensures Inv(Run(Started(size, rows, prompt, n), es))
  {
    StartHolds(size, rows, prompt, n);
    RunKeeps(Started(size, rows, prompt, n), es);
  }

  // ---------------------------------------------------------------------------------------------
  // The attention mask
  // ---------------------------------------------------------------------------------------------

  /** The number of cells the graph looks at: up to the last used one, rounded up to a multiple of `pad`. */
  function KvLength(size: nat, cellMax: nat, pad: nat): (n: nat)
    requires pad > 0 && cellMax <= size
    ensures cellMax <= n <= size && (n == size || (n % pad == 0 && (n == pad || n < cellMax + pad)))
  {
    Rounded(cellMax, pad);
    var padded := (cellMax + pad - 1) / pad * pad;
    var atLeast := if pad > padded then pad else padded;
    if size < atLeast then size else atLeast
  }

  lemma {:induction false} Rounded(x: nat, pad: nat)
    requires pad > 0
    ensures x <= (x + pad - 1) / pad * pad < x + pad && (x + pad - 1) / pad * pad % pad == 0 && pad % pad == 0
  {
    var q := (x + pad - 1) / pad;
    assert x + pad - 1 == q * pad + (x + pad - 1) % pad;
    ModUnique(q * pad, pad, q, 0);
    ModUnique(pad, pad, 1, 0);
  }

  /** Fills the mask: true stands for minus infinity. */
  method FillMask(cells: seq<Cell>, nKv: nat, batch: seq<Entry>) returns (masked: array2<bool>)
    requires nKv <= |cells| && forall b :: 0 <= b < |batch| ==> |batch[b].seqs| > 0
    ensures fresh(masked) && masked.Length0 == |batch| && masked.Length1 == nKv
    ensures forall b, k :: 0 <= b < |batch| && 0 <= k < nKv ==>
              (masked[b, k] <==> Hidden(cells[k], batch[b].seqs[0], batch[b].pos))
  {
    masked := new bool[|batch|, nKv]((b, k) => false);
    for b := 0 to |batch|
      invariant forall c, k :: 0 <= c < b && 0 <= k < nKv ==>
                (masked[c, k] <==> Hidden(cells[k], batch[c].seqs[0], batch[c].pos))
      invariant forall c, k :: b <= c < |batch| && 0 <= k < nKv ==> !masked[c, k]
    {
      var pos, id := batch[b].pos, batch[b].seqs[0];
      for i := 0 to nKv
        invariant forall c, k :: 0 <= c < b && 0 <= k < nKv ==>
                  (masked[c, k] <==> Hidden(cells[k], batch[c].seqs[0], batch[c].pos))
        invariant forall k :: 0 <= k < i ==> (masked[b, k] <==> Hidden(cells[k], id, pos))
        invariant forall k :: i <= k < nKv ==> !masked[b, k]
        invariant forall c, k :: b < c < |batch| && 0 <= k < nKv ==> !masked[c, k]
      {
        if id !in cells[i].seqs || cells[i].pos > pos {
          masked[b, i] := true;
        }
      }
    }
  }

  predicate Hidden(c: Cell, id: int, pos: int) {
    id !in c.seqs || c.pos > pos
  }

  /** The cells that a mask row leaves visible; the others read as empty. */
  ghost function Visible(cells: seq<Cell>, nKv: nat, id: int, pos: int): seq<Cell> {
    seq(|cells|, (k: nat) requires k < |cells| =>
      if k < nKv && !Hidden(cells[k], id, pos) then cells[k] else EMPTY_CELL)
  }

  /** The mask row of a live decoder at position `pos` exposes exactly its history up to that position. */
  lemma {:induction false} MaskShowsHistory(w: Window, j: nat, pos: nat, nKv: nat)
    requires Inv(w) && j < |w.live| && w.live[j] && pos < w.past
    requires nKv <= |w.cells| && forall k :: nKv <= k < |w.cells| ==> !(Used(w.cells[k]) && w.cells[k].seqs != {})
    ensures HoldsHistory(Visible(w.cells, nKv, j, pos), w.rows, j, History(w, j)[..pos + 1])
    ensures forall k, id :: 0 <= k < |w.cells| && id in Visible(w.cells, nKv, j, pos)[k].seqs ==> j in w.cells[k].seqs
  {
    var v, h := Visible(w.cells, nKv, j, pos), History(w, j)[..w.past];
    assert HoldsHistory(w.cells, w.rows, j, h);
    assert History(w, j)[..pos + 1] == h[..pos + 1];
    forall p | 0 <= p <= pos
      ensures Filled(v, j, p)
    {
      assert Filled(w.cells, j, p);
      var k :| Owns(w.cells, k, j, p);
      assert CellOk(w.cells[k], |w.live|);
      assert Owns(v, k, j, p);
    }
    forall k, m, p | Owns(v, k, j, p) && Owns(v, m, j, p)
      ensures k == m
    {
      assert Owns(w.cells, k, j, p) && Owns(w.cells, m, j, p);
    }
  }

  // ---------------------------------------------------------------------------------------------
  // The prompt and the positions
  // ---------------------------------------------------------------------------------------------

  /** How many tokens of the initial prompt are kept when it is carried. */
  function CarriedLimit(maxPromptCtx: int): int {
    Max(1, maxPromptCtx - 1)
  }

  /** The carried prompt of a call: it outlives calls, and is filled only when it is empty. */
  function CarriedPrompt(kept: seq<int>, initial: seq<int>, carry: bool, maxPromptCtx: int): seq<int> {
    if initial != [] && carry && kept == [] then initial[|initial| - Min(|initial|, CarriedLimit(maxPromptCtx))..]
    else kept
  }

  /** A prompt that is carried is the end of the initial one, as much of it as fits its budget and at least a token. */
  lemma {:induction false} CarriedIsTheEnd(initial: seq<int>, maxPromptCtx: int)
    requires initial != []
    ensures var kept := CarriedPrompt([], initial, true, maxPromptCtx);
            && 1 <= |kept| <= |initial| && kept == initial[|initial| - |kept|..]
            && (|kept| < |initial| ==> |kept| == Max(1, maxPromptCtx - 1))
            && (|kept| < maxPromptCtx || |kept| == 1)
  {
    assert |initial| > 0;
  }

  /** The text context of a state: the carried prompt and the rolling context. */
  class Context {
    var past0: seq<int>
    var past1: seq<int>

    /** What a call makes of the context before its first window. */
    method Prepare(noContext: bool, initial: seq<int>, carry: bool, maxPromptCtx: int)
      modifies this
      ensures past0 == CarriedPrompt(if noContext then [] else old(past0), initial, carry, maxPromptCtx)
      ensures past1 == (if carry then [] else initial) + if noContext then [] else old(past1)
    {
      if noContext {
        past0, past1 := [], [];
      }
      if |initial| > 0 {
        if carry {
          if |past0| == 0 {
            var maxTokens := Max(1, maxPromptCtx - 1);
            var n := Min(|initial|, maxTokens);
            past0 := initial[|initial| - n..];
          }
        } else {
          past1 := past1 + initial;
          past1 := past1[|past1| - |initial|..] + past1[..|past1| - |initial|];
        }
      }
    }
  }

  /** How many tokens of the rolling context the prompt takes. */
  function TakeRolling(maxPromptCtx: int, past0: seq<int>, past1: seq<int>, carry: bool): int {
    Min(maxPromptCtx - (if carry then |past0| else 0) - 1, |past1|)
  }

  /** The count is negative, so that the iterator is past the end, exactly if the carried prompt fills the budget. */
  lemma {:induction false} RollingCountIsNegativeExactlyIf(maxPromptCtx: int, past0: seq<int>, past1: seq<int>,
                                                           carry: bool)
    requires maxPromptCtx > 0
    ensures TakeRolling(maxPromptCtx, past0, past1, carry) < 0 <==> carry && |past0| >= maxPromptCtx
  {
  }

  /** In the call that fills the carried prompt this happens only for a budget of one. */
  lemma {:induction false} FirstCallFailsOnlyForBudgetOne(maxPromptCtx: int, initial: seq<int>, past1: seq<int>)
    requires maxPromptCtx > 0
    ensures TakeRolling(maxPromptCtx, CarriedPrompt([], initial, true, maxPromptCtx), past1, true) < 0
            <==> maxPromptCtx == 1 && initial != []
  {
    assert initial != [] <==> |initial| > 0;
  }

  /** In a later call it happens exactly if the budget has shrunk to what the first call kept, or below. */
  lemma {:induction false} LaterCallFailsExactlyIf(first: int, later: int, initial: seq<int>, again: seq<int>,
                                                   past1: seq<int>)
    requires first > 0 && later > 0 && initial != []
    ensures var kept := CarriedPrompt([], initial, true, first);
            TakeRolling(later, CarriedPrompt(kept, again, true, later), past1, true) < 0
            <==> Min(|initial|, CarriedLimit(first)) >= later
  {
    assert |CarriedPrompt([], initial, true, first)| == Min(|initial|, CarriedLimit(first)) > 0;
  }

  /** Whether the prompt takes anything of the text context. */
  predicate UsesContext(maxPromptCtx: int, conditioned: bool, carry: bool, past0: seq<int>, past1: seq<int>) {
    conditioned && maxPromptCtx > 0 && ((carry && past0 != []) || past1 != [])
  }

  /** The previous-text marker, the whole carried prompt, then as much of the end of the rolling context as fits. */
  ghost predicate IsHistory(history: seq<int>, prev: int, carried: seq<int>, rolling: seq<int>, maxPromptCtx: int) {
    var n := Min(maxPromptCtx - |carried| - 1, |rolling|);
    0 <= n && history == [prev] + carried + rolling[|rolling| - n..]
  }

  /** The carried prompt leaves no room for the marker, so that the code copies a range that starts past its end. */
  predicate Overfull(maxPromptCtx: int, conditioned: bool, carry: bool, past0: seq<int>, past1: seq<int>) {
    UsesContext(maxPromptCtx, conditioned, carry, past0, past1) && carry && |past0| >= maxPromptCtx
  }

  /** The initial tokens, behind the context if it is used. */
  ghost predicate IsPrompt(prompt: seq<int>, maxPromptCtx: int, conditioned: bool, carry: bool, past0: seq<int>,
                           past1: seq<int>, prev: int, init: seq<int>) {
    && |init| <= |prompt| && prompt[|prompt| - |init|..] == init
    && if UsesContext(maxPromptCtx, conditioned, carry, past0, past1)
       then IsHistory(prompt[..|prompt| - |init|], prev, if carry then past0 else [], past1, maxPromptCtx)
       else prompt == init
  }

  /** The prompt of a window. */
  method BuildPrompt(maxPromptCtx: int, conditioned: bool, carry: bool, past0: seq<int>, past1: seq<int>,
                     prev: int, init: seq<int>) returns (defined: bool, prompt: seq<int>)
    ensures !defined <==> Overfull(maxPromptCtx, conditioned, carry, past0, past1)
    ensures defined ==> IsPrompt(prompt, maxPromptCtx, conditioned, carry, past0, past1, prev, init)
  {
    defined, prompt := true, [];
    if conditioned {
      var canTake0, canTake1 := carry && past0 != [], past1 != [];
      if maxPromptCtx > 0 && (canTake0 || canTake1) {
        defined, prompt := TakeContext(maxPromptCtx, canTake0, carry, past0, past1, prev);
        if !defined {
          return;
        }
      }
    }
    IsPromptOf(prompt, maxPromptCtx, conditioned, carry, past0, past1, prev, init);
    prompt := prompt + init;
  }

  /** The marker, the carried tokens, and as many of the rolling ones as fit. */
  method TakeContext(maxPromptCtx: int, canTake0: bool, ghost carry: bool, past0: seq<int>, past1: seq<int>, prev: int)
    returns (defined: bool, prompt: seq<int>)
    requires maxPromptCtx > 0 && canTake0 == (carry && past0 != [])
    ensures !defined <==> carry && |past0| >= maxPromptCtx
    ensures defined ==> IsHistory(prompt, prev, if carry then past0 else [], past1, maxPromptCtx)
  {
    RollingCountIsNegativeExactlyIf(maxPromptCtx, past0, past1, carry);
    prompt := [prev];
    var take0 := 0;
    if canTake0 {
      take0 := |past0|;
      prompt := prompt + past0[|past0| - take0..];
    }
    ghost var carried := if carry then past0 else [];
    assert take0 == |carried| && prompt == [prev] + carried;
    var take1 := Min(maxPromptCtx - take0 - 1, |past1|);
    if take1 < 0 {
      return false, [];
    }
    prompt := prompt + past1[|past1| - take1..];
    defined := true;
  }

  /** What the context gives, with the initial tokens behind it. */
  lemma {:induction false} IsPromptOf(history: seq<int>, maxPromptCtx: int, conditioned: bool, carry: bool,
                                      past0: seq<int>, past1: seq<int>, prev: int, init: seq<int>)
    requires if UsesContext(maxPromptCtx, conditioned, carry, past0, past1)
             then IsHistory(history, prev, if carry then past0 else [], past1, maxPromptCtx) else history == []
    ensures IsPrompt(history + init, maxPromptCtx, conditioned, carry, past0, past1, prev, init)
  {
    var prompt := history + init;
    assert prompt[..|prompt| - |init|] == history && prompt[|prompt| - |init|..] == init;
    assert history == [] ==> prompt == init;
  }

  /** The number of decoding steps in a run. */
  ghost function Decodes(es: seq<Event>): nat {
    if es == [] then 0 else (if es[0].Decode? then 1 else 0) + Decodes(es[1..])
  }

  lemma {:induction false} PastCounts(w: Window, es: seq<Event>)
    requires CanRun(w, es)
    ensures Run(w, es).past == w.past + Decodes(es)
    decreases |es|
  {
    if es != [] {
      PastCounts(Apply(w, es[0]), es[1..]);
    }
  }

  /** The number of iterations of the decoding loop. */
  function MaxIterations(nTextCtx: nat): int {
    nTextCtx / 2 - 4
  }

  /** Every position stays below the text context, since the prompt is at most half of it plus four tokens. */
  lemma {:induction false} PositionsFit(nTextCtx: nat, nMaxTextCtx: int, size: nat, rows: seq<int>, prompt: seq<int>,
                                        n: nat, es: seq<Event>)
    requires 8 <= nTextCtx < POS_MAX && 1 <= n <= WHISPER_MAX_DECODERS && |prompt| <= size == |rows|
    requires |prompt| <= (if nMaxTextCtx > 0 then Min(nMaxTextCtx, nTextCtx / 2) else 0) + 4
    requires CanRun(Started(size, rows, prompt, n), es) && (Decodes(es) == 0 || Decodes(es) <= MaxIterations(nTextCtx))
    ensures var cells := Run(Started(size, rows, prompt, n), es).cells;
            forall k :: 0 <= k < |cells| ==> cells[k].pos < nTextCtx
  {
    EveryWindowHoldsHistory(size, rows, prompt, n, es);
    PastCounts(Started(size, rows, prompt, n), es);
  }

  // ---------------------------------------------------------------------------------------------
  // The size of the cache
  // ---------------------------------------------------------------------------------------------

  /** The text context rounded up to a multiple of 256, as often as the number of decoders asks for. */
  function CacheSize(nTextCtx: nat, n: nat): nat {
    (nTextCtx + 255) / 256 * 256 * if n > 1 then n + 2 else 1
  }

  /** The prompt and every token of every decoder have a cell of their own. */
  lemma {:induction false} CacheHoldsWindow(nTextCtx: nat, n: nat, prompt: nat)
    requires 8 <= nTextCtx && 1 <= n && prompt <= nTextCtx / 2 + 4
    ensures prompt + n * MaxIterations(nTextCtx) <= CacheSize(nTextCtx, n)
  {
    var padded, most := (nTextCtx + 255) / 256 * 256, MaxIterations(nTextCtx);
    Rounded(nTextCtx, 256);
    if n > 1 {
      ProductMonotone(most, padded, n);
      assert padded * (n + 2) == padded * n + 2 * padded;
    }
  }
}
