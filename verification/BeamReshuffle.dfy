/**
 Reordering beams in the cache: every live decoder takes over its parent's cells, through temporary
 sequences WHISPER_MAX_DECODERS + j. The two passes of copies and removals amount to one simultaneous
 assignment.
 */
module BeamReshuffle {
  import opened KvCache

  const WHISPER_MAX_DECODERS := 8

  predicate Choice(live: seq<bool>, parent: seq<int>) {
    |live| == |parent| <= WHISPER_MAX_DECODERS && forall j :: 0 <= j < |live| && live[j] ==> 0 <= parent[j] < |live|
  }

  /** The decoder whose cells `id` owns afterwards. */
  function Source(live: seq<bool>, parent: seq<int>, id: int): int
    requires |live| == |parent| && 0 <= id < |live|
  {
    if live[id] then parent[id] else id
  }

  /** The simultaneous assignment, on one cell. */
  function ReshuffledCell(c: Cell, live: seq<bool>, parent: seq<int>): Cell
    requires |live| == |parent|
  {
    var s := set id | 0 <= id < |live| && Source(live, parent, id) in c.seqs;
    Cell(if s == {} then -1 else c.pos, s)
  }

  function Reshuffled(cells: seq<Cell>, live: seq<bool>, parent: seq<int>): seq<Cell>
    requires |live| == |parent|
  {
    seq(|cells|, (k: nat) requires k < |cells| => ReshuffledCell(cells[k], live, parent))
  }

  // ---------------------------------------------------------------------------------------------
  // One cell through the two passes
  // ---------------------------------------------------------------------------------------------

  ghost predicate CellOk(c: Cell, n: int) {
    Tidy(c) && forall id :: id in c.seqs ==> 0 <= id < n
  }

  /** After `j` copies to temporary sequences. */
  ghost function Marked(c: Cell, live: seq<bool>, parent: seq<int>, j: int): Cell
    requires |live| == |parent| && j <= |live|
  {
    c.(seqs := c.seqs + set i | 0 <= i < j && live[i] && parent[i] in c.seqs :: WHISPER_MAX_DECODERS + i)
  }

  /** Whether `id` owns the cell after the second pass has handled decoders below `j`. */
  predicate Kept(c: Cell, live: seq<bool>, parent: seq<int>, j: int, id: int)
    requires |live| == |parent| <= WHISPER_MAX_DECODERS && j <= |live|
  {
    if id < WHISPER_MAX_DECODERS then
      if 0 <= id < j && live[id] then parent[id] in c.seqs else id in c.seqs
    else
      var i := id - WHISPER_MAX_DECODERS;
      j <= i < |live| && 0 <= i && live[i] && parent[i] in c.seqs
  }

  ghost function Passed(c: Cell, live: seq<bool>, parent: seq<int>, j: int): Cell
    requires |live| == |parent| <= WHISPER_MAX_DECODERS && j <= |live|
  {
    var s := set id | 0 <= id < 2 * WHISPER_MAX_DECODERS && Kept(c, live, parent, j, id);
    Cell(if s == {} then -1 else c.pos, s)
  }

  /** The call of the first pass for decoder `j`. */
  function MarkedBy(c: Cell, parent: int, j: int): Cell {
    CopiedCell(c, parent, WHISPER_MAX_DECODERS + j, -1, -1)
  }

  lemma {:induction false} MarkStep(c: Cell, live: seq<bool>, parent: seq<int>, j: int)
    requires CellOk(c, |live|) && Choice(live, parent) && 0 <= j < |live|
    ensures live[j] ==> MarkedBy(Marked(c, live, parent, j), parent[j], j) == Marked(c, live, parent, j + 1)
    ensures !live[j] ==> Marked(c, live, parent, j + 1) == Marked(c, live, parent, j)
  {
    assert Marked(c, live, parent, j + 1).seqs
        == Marked(c, live, parent, j).seqs + if live[j] && parent[j] in c.seqs then {WHISPER_MAX_DECODERS + j} else {};
    assert live[j] ==> (parent[j] in Marked(c, live, parent, j).seqs <==> parent[j] in c.seqs);
  }

  lemma {:induction false} MarkedIsPassed(c: Cell, live: seq<bool>, parent: seq<int>)
    requires CellOk(c, |live|) && Choice(live, parent)
    ensures Marked(c, live, parent, |live|) == Passed(c, live, parent, 0)
    ensures Marked(c, live, parent, 0) == c
  {
    assert Marked(c, live, parent, |live|).seqs == Passed(c, live, parent, 0).seqs;
    if c.seqs == {} {
      assert Marked(c, live, parent, |live|).seqs == {};
    }
  }

  lemma {:induction false} PassStep(c: Cell, live: seq<bool>, parent: seq<int>, j: int)
    requires CellOk(c, |live|) && Choice(live, parent) && 0 <= j < |live|
    ensures live[j] ==> PassedBy(Passed(c, live, parent, j), j) == Passed(c, live, parent, j + 1)
    ensures !live[j] ==> Passed(c, live, parent, j + 1) == Passed(c, live, parent, j)
  {
    var p, q := Passed(c, live, parent, j), Passed(c, live, parent, j + 1);
    if live[j] {
      assert p.seqs != {} ==> p.pos == c.pos;
      assert c.seqs == {} ==> p.seqs == {};
      var m := WHISPER_MAX_DECODERS + j;
      assert m in p.seqs <==> parent[j] in c.seqs;
      assert q.seqs == if m in p.seqs then p.seqs - {m} + {j} else p.seqs - {j};
      if m in p.seqs {
        assert m in p.seqs - {j} && j in p.seqs - {m} + {j};
        assert (p.seqs - {j} + {j}) - {m} == p.seqs - {m} + {j};
        assert j in q.seqs;
      }
    } else {
      assert p.seqs == q.seqs;
    }
  }

  /** The three calls of the second pass for decoder `j`. */
  function PassedBy(c: Cell, j: int): Cell {
    var m := WHISPER_MAX_DECODERS + j;
    RemovedCell(CopiedCell(RemovedCell(c, j, -1, -1), m, j, -1, -1), m, -1, -1)
  }

  lemma {:induction false} AllPassed(c: Cell, live: seq<bool>, parent: seq<int>)
    requires CellOk(c, |live|) && Choice(live, parent)
    ensures Passed(c, live, parent, |live|) == ReshuffledCell(c, live, parent)
  {
    assert Passed(c, live, parent, |live|).seqs == ReshuffledCell(c, live, parent).seqs;
  }

  // ---------------------------------------------------------------------------------------------
  // The two passes over the cache
  // ---------------------------------------------------------------------------------------------

  ghost predicate CellsOk(cells: seq<Cell>, n: int) {
    forall k :: 0 <= k < |cells| ==> CellOk(cells[k], n)
  }

  ghost predicate AreMarked(before: seq<Cell>, after: seq<Cell>, live: seq<bool>, parent: seq<int>, j: int)
    requires |live| == |parent| && j <= |live|
  {
    |before| == |after| && forall k :: 0 <= k < |before| ==> after[k] == Marked(before[k], live, parent, j)
  }

  ghost predicate ArePassed(before: seq<Cell>, after: seq<Cell>, live: seq<bool>, parent: seq<int>, j: int)
    requires |live| == |parent| <= WHISPER_MAX_DECODERS && j <= |live|
  {
    |before| == |after| && forall k :: 0 <= k < |before| ==> after[k] == Passed(before[k], live, parent, j)
  }

  /** Copies every live decoder's parent to the decoder's temporary sequence. */
  method MarkAll(cache: Cache, live: seq<bool>, parent: seq<int>)
    requires cache.Valid() && CellsOk(cache.cells, |live|) && Choice(live, parent)
    modifies cache
    ensures cache.Valid() && AreMarked(old(cache.cells), cache.cells, live, parent, |live|)
    ensures NoneTaken(old(cache.cells), cache.cells) && HeadMoved(old(cache.cells), old(cache.head), cache.head)
  {
    ghost var before := cache.cells;
    forall k | 0 <= k < |before|
      ensures before[k] == Marked(before[k], live, parent, 0)
    {
      MarkedIsPassed(before[k], live, parent);
    }
    for j := 0 to |live|
      invariant cache.Valid() && AreMarked(before, cache.cells, live, parent, j)
      invariant NoneTaken(before, cache.cells) && HeadMoved(before, old(cache.head), cache.head)
    {
      forall k | 0 <= k < |before|
        ensures live[j] ==>
                  MarkedBy(Marked(before[k], live, parent, j), parent[j], j) == Marked(before[k], live, parent, j + 1)
        ensures !live[j] ==> Marked(before[k], live, parent, j + 1) == Marked(before[k], live, parent, j)
      {
        MarkStep(before[k], live, parent, j);
      }
      if !live[j] {
        continue;
      }
      cache.SeqCp(parent[j], WHISPER_MAX_DECODERS + j, -1, -1);
    }
  }

  /** The calls for one live decoder in the second pass. */
  method PassOne(cache: Cache, j: int)
    requires cache.Valid()
    modifies cache
    ensures cache.Valid() && |cache.cells| == |old(cache.cells)|
    ensures forall k :: 0 <= k < |cache.cells| ==> cache.cells[k] == PassedBy(old(cache.cells)[k], j)
    ensures NoneTaken(old(cache.cells), cache.cells) && HeadMoved(old(cache.cells), old(cache.head), cache.head)
  {
    cache.SeqRm(j, -1, -1);
    cache.SeqCp(WHISPER_MAX_DECODERS + j, j, -1, -1);
    cache.SeqRm(WHISPER_MAX_DECODERS + j, -1, -1);
  }

  /** Every live decoder ends with exactly its parent's old cells; finished decoders keep theirs. */
  method ReshuffleBeams(cache: Cache, live: seq<bool>, parent: seq<int>)
    requires cache.Valid() && CellsOk(cache.cells, |live|) && Choice(live, parent)
    modifies cache
    ensures cache.Valid() && cache.cells == Reshuffled(old(cache.cells), live, parent)
    ensures NoneTaken(old(cache.cells), cache.cells) && HeadMoved(old(cache.cells), old(cache.head), cache.head)
  {
    ghost var before := cache.cells;
    MarkAll(cache, live, parent);
    forall k | 0 <= k < |before|
      ensures Marked(before[k], live, parent, |live|) == Passed(before[k], live, parent, 0)
      ensures Passed(before[k], live, parent, |live|) == ReshuffledCell(before[k], live, parent)
    {
      MarkedIsPassed(before[k], live, parent);
      AllPassed(before[k], live, parent);
    }
    for j := 0 to |live|
      invariant cache.Valid() && ArePassed(before, cache.cells, live, parent, j)
      invariant NoneTaken(before, cache.cells) && HeadMoved(before, old(cache.head), cache.head)
    {
      forall k | 0 <= k < |before|
        ensures live[j] ==> PassedBy(Passed(before[k], live, parent, j), j) == Passed(before[k], live, parent, j + 1)
        ensures !live[j] ==> Passed(before[k], live, parent, j + 1) == Passed(before[k], live, parent, j)
      {
        PassStep(before[k], live, parent, j);
      }
      if !live[j] {
        continue;
      }
      ghost var cells, head := cache.cells, cache.head;
      PassOne(cache, j);
      MovesCompose(before, cells, cache.cells, old(cache.head), head, cache.head);
    }
  }

  // ---------------------------------------------------------------------------------------------
  // What the reshuffle means
  // ---------------------------------------------------------------------------------------------

  /** The cells a sequence owns. */
  ghost function CellsOf(cells: seq<Cell>, id: int): set<int> {
    set k | 0 <= k < |cells| && id in cells[k].seqs
  }

  /** A simultaneous assignment: no decoder sees another one's new cells, and no temporary sequence survives. */
  lemma {:induction false} ReshuffleIsSimultaneous(cells: seq<Cell>, live: seq<bool>, parent: seq<int>)
    requires CellsOk(cells, |live|) && Choice(live, parent)
    ensures var after := Reshuffled(cells, live, parent);
            && (forall id :: 0 <= id < |live| ==> CellsOf(after, id) == CellsOf(cells, Source(live, parent, id)))
            && (forall id :: !(0 <= id < |live|) ==> CellsOf(after, id) == {})
            && CellsOk(after, |live|)
            && (forall k :: 0 <= k < |cells| ==> after[k].pos == if after[k].seqs == {} then -1 else cells[k].pos)
  {
    var after := Reshuffled(cells, live, parent);
    forall k | 0 <= k < |cells|
      ensures CellOk(after[k], |live|)
    {
      if after[k].seqs != {} {
        assert cells[k].seqs != {} by {
          var id :| id in after[k].seqs;
          assert Source(live, parent, id) in cells[k].seqs;
        }
      }
    }
  }
}
