/**
 The self-attention cache of whisper.cpp: cells shared by several sequences, a slot finder, and the
 operations that copy and remove sequences.
 */
module KvCache {

  /** A cell holds the keys and values of one position for every sequence in `seqs`; -1 means unused. */
  datatype Cell = Cell(pos: int, seqs: set<int>)

  /** One token of a batch, with the sequences it belongs to. */
  datatype Entry = Entry(token: int, pos: int, seqs: seq<int>)

  /** The largest value of a 32-bit position, which a removal or copy over "everything" stops short of. */
  const POS_MAX := 0x7fff_ffff

  const EMPTY_CELL := Cell(-1, {})

  predicate Used(c: Cell) {
    c.pos >= 0
  }

  /** A cell is used exactly if some sequence owns it. */
  predicate Tidy(c: Cell) {
    (c.pos >= 0 <==> c.seqs != {}) && -1 <= c.pos < POS_MAX
  }

  // ---------------------------------------------------------------------------------------------
  // Specifications
  // ---------------------------------------------------------------------------------------------

  /** `count` contiguous unused cells start at `at`. */
  predicate FreeRun(cells: seq<Cell>, at: int, count: nat) {
    0 <= at && at + count <= |cells| && forall k :: at <= k < at + count ==> !Used(cells[k])
  }

  /** No free run starts in from..to. */
  ghost predicate NoFreeRun(cells: seq<Cell>, count: nat, from: int, to: int) {
    forall at {:trigger FreeRun(cells, at, count)} :: from <= at < to ==> !FreeRun(cells, at, count)
  }

  /** The free run that a search wrapping around from `from` meets first. */
  ghost predicate IsNextRun(cells: seq<Cell>, count: nat, from: int, at: int) {
    && FreeRun(cells, at, count)
    && if from <= at then NoFreeRun(cells, count, from, at)
       else NoFreeRun(cells, count, from, |cells| + 1) && NoFreeRun(cells, count, 0, at)
  }

  function Members(ids: seq<int>): set<int> {
    set x | x in ids
  }

  /** The cells after the batch took the run at `at`. */
  function Claimed(cells: seq<Cell>, at: nat, batch: seq<Entry>): (r: seq<Cell>)
    requires at + |batch| <= |cells|
  {
    seq(|cells|, (k: nat) requires k < |cells| =>
      if at <= k < at + |batch| then Cell(batch[k - at].pos, cells[k].seqs + Members(batch[k - at].seqs)) else cells[k])
  }

  function From(p0: int): int {
    if p0 < 0 then 0 else p0
  }

  function To(p1: int): int {
    if p1 < 0 then POS_MAX else p1
  }

  /** What removing a sequence (every sequence, if negative) over positions p0..p1 leaves of a cell. */
  function RemovedCell(c: Cell, id: int, p0: int, p1: int): Cell {
    if From(p0) <= c.pos < To(p1) && (id < 0 || id in c.seqs) then
      var left := if id < 0 then {} else c.seqs - {id};
      Cell(if left == {} then -1 else c.pos, left)
    else
      c
  }

  function CopiedCell(c: Cell, src: int, dst: int, p0: int, p1: int): Cell {
    if src in c.seqs && From(p0) <= c.pos < To(p1) then c.(seqs := c.seqs + {dst}) else c
  }

  /** Position `pos` lies between the bounds, of which a negative one is none. */
  predicate InRange(pos: int, p0: int, p1: int) {
    0 <= pos && (p0 < 0 || p0 <= pos) && (p1 < 0 || pos < p1)
  }

  /** A sequence loses exactly its cells in the range, all sequences do if none is named, and others keep theirs. */
  lemma {:induction false} RemovedOwns(c: Cell, id: int, p0: int, p1: int, other: int)
    requires Tidy(c)
    ensures var r := RemovedCell(c, id, p0, p1);
            && (other in r.seqs <==> other in c.seqs && !(InRange(c.pos, p0, p1) && (id < 0 || other == id)))
            && Tidy(r) && (Used(r) ==> r.pos == c.pos)
  {
  }

  /** The destination gains exactly the cells that the source owns in the range. */
  lemma {:induction false} CopiedOwns(c: Cell, src: int, dst: int, p0: int, p1: int, other: int)
    requires Tidy(c)
    ensures var r := CopiedCell(c, src, dst, p0, p1);
            && (other in r.seqs <==> other in c.seqs || (other == dst && src in c.seqs && InRange(c.pos, p0, p1)))
            && Tidy(r) && r.pos == c.pos
  {
  }

  predicate Freed(before: Cell, after: Cell) {
    before != after && after.seqs == {}
  }

  ghost predicate NoneFreed(before: seq<Cell>, after: seq<Cell>, n: nat)
    requires n <= |before| == |after|
  {
    forall k :: 0 <= k < n ==> !Freed(before[k], after[k])
  }

  ghost predicate IsFirstFreed(before: seq<Cell>, after: seq<Cell>, k: nat) {
    k < |before| == |after| && Freed(before[k], after[k]) && NoneFreed(before, after, k)
  }

  /** No cell becomes used. */
  ghost predicate NoneTaken(before: seq<Cell>, after: seq<Cell>) {
    |before| == |after| && forall k :: 0 <= k < |after| && Used(after[k]) ==> Used(before[k])
  }

  /** Removing and copying leave the head alone, restart it, or move it to a cell that was used. */
  ghost predicate HeadMoved(before: seq<Cell>, from: nat, head: nat) {
    head == from || head == 0 || (head < |before| && Used(before[head]))
  }

  // ---------------------------------------------------------------------------------------------
  // The cache
  // ---------------------------------------------------------------------------------------------

  class Cache {
    var cells: seq<Cell>
    var head: nat

    constructor (size: nat)
      ensures |cells| == size && head == 0 && forall k :: 0 <= k < size ==> cells[k] == EMPTY_CELL
    {
      cells, head := seq(size, (k: nat) => EMPTY_CELL), 0;
    }

    ghost predicate Valid()
      reads this
    {
      head <= |cells|
    }

    /**
     Looks for a free run from `head` on, wrapping around. It ends from any head; it succeeds exactly if a free
     run exists anywhere, and then claims exactly the first one at or after the old head, else the first one
     overall; on failure no cell changes.
     */
    method FindSlot(batch: seq<Entry>) returns (ok: bool)
      requires Valid() && |batch| > 0
      modifies this
      ensures Valid()
      ensures ok == exists at :: FreeRun(old(cells), at, |batch|)
      ensures ok ==> IsNextRun(old(cells), |batch|, old(head), head) && cells == Claimed(old(cells), head, batch)
      ensures !ok ==> cells == old(cells)
    {
      var nCtx, nTokens := |cells|, |batch|;
      if nTokens > nCtx {
        return false;
      }
      ok := Search(nTokens);
      if !ok {
        return;
      }
      ClaimRun(batch);
    }

    /** Enters the batch into the cells at the head. */
    method ClaimRun(batch: seq<Entry>)
      requires head + |batch| <= |cells|
      modifies this`cells
      ensures cells == Claimed(old(cells), head, batch)
    {
      ghost var before := cells;
      var i := 0;
      while i < |batch|
        invariant i <= |batch| && |cells| == |before|
        invariant forall k :: head <= k < head + i ==>
                    cells[k] == Cell(batch[k - head].pos, before[k].seqs + Members(batch[k - head].seqs))
        invariant forall k :: 0 <= k < |cells| && !(head <= k < head + i) ==> cells[k] == before[k]
      {
        var seqs := InsertAll(cells[head + i].seqs, batch[i].seqs);
        cells := cells[head + i := Cell(batch[i].pos, seqs)];
        i := i + 1;
      }
    }

    static method InsertAll(seqs: set<int>, ids: seq<int>) returns (r: set<int>)
      ensures r == seqs + Members(ids)
    {
      r := seqs;
      for j := 0 to |ids|
        invariant r == seqs + Members(ids[..j])
      {
        assert ids[..j + 1] == ids[..j] + [ids[j]];
        r := r + {ids[j]};
      }
      assert ids[..|ids|] == ids;
    }

    /** The search loop: `tested` counts cells, and the head restarts at 0 when the run would not fit. */
    method Search(count: nat) returns (found: bool)
      requires Valid() && 0 < count <= |cells|
      modifies this`head
      ensures Valid()
      ensures found ==> IsNextRun(cells, count, old(head), head)
      ensures !found ==> forall at :: !FreeRun(cells, at, count)
    {
      var tested: nat := 0;
      ghost var start, round := head, 0;
      while true
        invariant Valid() && Searched(cells, count, start, head, tested, round)
        decreases if tested < |cells| then |cells| - tested else 0, head
      {
        if head + count > |cells| {
          RestartCovers(cells, count, start, head, tested, round);
          tested := tested + (|cells| - head);
          round := if round == 0 then 1 else 2;
          head := 0;
          continue;
        }
        var i := FirstUsed(count);
        if i == count {
          return true;
        }
        SkipCovers(cells, count, start, head, tested, round, i);
        head := head + i + 1;
        tested := tested + i + 1;
        if tested >= |cells| {
          return false;
        }
      }
    }

    /** The first used cell of the run at the head, or `count`. */
    method FirstUsed(count: nat) returns (i: nat)
      requires head + count <= |cells|
      ensures i <= count && FreeRun(cells, head, i) && (i < count ==> Used(cells[head + i]))
    {
      i := 0;
      while i < count
        invariant i <= count && FreeRun(cells, head, i)
      {
        if cells[head + i].pos >= 0 {
          return;
        }
        i := i + 1;
      }
    }

    method Clear()
      modifies this
      ensures |cells| == |old(cells)| && head == 0 && forall k :: 0 <= k < |cells| ==> cells[k] == EMPTY_CELL
    {
      var i := 0;
      while i < |cells|
        invariant i <= |cells| == |old(cells)|
        invariant forall k :: 0 <= k < i ==> cells[k] == EMPTY_CELL
      {
        cells := cells[i := EMPTY_CELL];
        i := i + 1;
      }
      head := 0;
    }

    /** Removes a sequence over a range of positions; the head moves to the first cell this frees. */
    method SeqRm(id: int, p0: int, p1: int)
      requires Valid()
      modifies this
      ensures Valid() && |cells| == |old(cells)|
      ensures forall k :: 0 <= k < |cells| ==> cells[k] == RemovedCell(old(cells)[k], id, p0, p1)
      ensures IsFirstFreed(old(cells), cells, head) || (NoneFreed(old(cells), cells, |cells|) && head == old(head))
      ensures NoneTaken(old(cells), cells) && HeadMoved(old(cells), old(head), head)
    {
      var newHead: nat := |cells|;
      ghost var before := cells;
      var i := 0;
      while i < |cells|
        invariant i <= |cells| == |before| && newHead <= |cells| && head == old(head)
        invariant forall k :: 0 <= k < i ==> cells[k] == RemovedCell(before[k], id, p0, p1)
        invariant forall k :: i <= k < |cells| ==> cells[k] == before[k]
        invariant if newHead == |cells| then NoneFreed(before, cells, i)
                  else newHead < i && Freed(before[newHead], cells[newHead]) && NoneFreed(before, cells, newHead)
      {
        var c := cells[i];
        if From(p0) <= c.pos < To(p1) && (id < 0 || id in c.seqs) {
          var left := if id < 0 then {} else c.seqs - {id};
          cells := cells[i := Cell(if left == {} then -1 else c.pos, left)];
          if left == {} && newHead == |cells| {
            newHead := i;
          }
        }
        i := i + 1;
      }
      if newHead != |cells| {
        head := newHead;
      }
    }

    method SeqCp(src: int, dst: int, p0: int, p1: int)
      modifies this
      ensures Valid() && |cells| == |old(cells)| && head == 0 && NoneTaken(old(cells), cells)
      ensures forall k :: 0 <= k < |cells| ==> cells[k] == CopiedCell(old(cells)[k], src, dst, p0, p1)
    {
      head := 0;
      var i := 0;
      ghost var before := cells;
      while i < |cells|
        invariant i <= |cells| == |before| && head == 0
        invariant forall k :: 0 <= k < i ==> cells[k] == CopiedCell(before[k], src, dst, p0, p1)
        invariant forall k :: i <= k < |cells| ==> cells[k] == before[k]
      {
        var c := cells[i];
        if src in c.seqs && From(p0) <= c.pos < To(p1) {
          cells := cells[i := c.(seqs := c.seqs + {dst})];
        }
        i := i + 1;
      }
    }

    /** One past the last used cell, and at least 1. */
    method CellMax() returns (n: nat)
      requires |cells| > 0
      ensures 1 <= n <= |cells|
      ensures forall k :: n <= k < |cells| ==> !(Used(cells[k]) && cells[k].seqs != {})
      ensures n > 1 ==> Used(cells[n - 1]) && cells[n - 1].seqs != {}
    {
      var i := |cells| - 1;
      while i > 0
        invariant 0 <= i < |cells|
        invariant forall k :: i < k < |cells| ==> !(Used(cells[k]) && cells[k].seqs != {})
      {
        if cells[i].pos >= 0 && cells[i].seqs != {} {
          return i + 1;
        }
        i := i - 1;
      }
      return 1;
    }
  }

  // ---------------------------------------------------------------------------------------------
  // The search
  // ---------------------------------------------------------------------------------------------

  /**
   What the search has excluded: from the start on (round 0), from the start to the end and from 0 on (round 1),
   or everything (round 2).
   */
  ghost predicate Searched(cells: seq<Cell>, count: nat, start: nat, head: nat, tested: nat, round: nat) {
    && start <= |cells|
    && (round == 0 ==> tested + start == head && NoFreeRun(cells, count, start, head))
    && (round == 1 ==>
          && tested + start == |cells| + head
          && NoFreeRun(cells, count, start, |cells|) && NoFreeRun(cells, count, 0, head))
    && (round >= 2 ==> tested >= |cells| && NoFreeRun(cells, count, 0, |cells|))
    && (tested >= |cells| ==> head == 0)
  }

  lemma {:induction false} RestartCovers(cells: seq<Cell>, count: nat, start: nat, head: nat, tested: nat, round: nat)
    requires Searched(cells, count, start, head, tested, round) && count <= |cells| && head <= |cells|
             && head + count > |cells|
    ensures Searched(cells, count, start, 0, tested + (|cells| - head), if round == 0 then 1 else 2)
  {
  }

  lemma {:induction false} SkipCovers(cells: seq<Cell>, count: nat, start: nat, head: nat, tested: nat, round: nat,
                                      i: nat)
    requires Searched(cells, count, start, head, tested, round) && head + count <= |cells| && i < count
    requires Used(cells[head + i])
    ensures tested + i + 1 < |cells| ==> Searched(cells, count, start, head + i + 1, tested + i + 1, round)
    ensures tested + i + 1 >= |cells| ==> forall at :: !FreeRun(cells, at, count)
  {
  }

  // ---------------------------------------------------------------------------------------------
  // Room at the end
  // ---------------------------------------------------------------------------------------------

  /** A mark that the head does not pass and from which on every cell is unused; it may lie past the end. */
  ghost predicate UnusedFrom(cells: seq<Cell>, head: nat, mark: nat) {
    head <= mark && forall k :: mark <= k < |cells| ==> !Used(cells[k])
  }

  lemma {:induction false} RoomAtMark(cells: seq<Cell>, head: nat, mark: nat, count: nat)
    requires UnusedFrom(cells, head, mark) && mark + count <= |cells|
    ensures FreeRun(cells, mark, count)
  {
  }

  /** The search takes a run at or before the mark if one fits there: claiming raises the mark by the batch only. */
  lemma {:induction false} ClaimRaisesMark(cells: seq<Cell>, head: nat, mark: nat, batch: seq<Entry>, at: nat)
    requires UnusedFrom(cells, head, mark) && IsNextRun(cells, |batch|, head, at)
    ensures UnusedFrom(Claimed(cells, at, batch), at, mark + |batch|)
  {
    if mark + |batch| <= |cells| {
      RoomAtMark(cells, head, mark, |batch|);
      assert at <= mark;
    }
  }

  lemma {:induction false} MovingKeepsMark(before: seq<Cell>, after: seq<Cell>, from: nat, head: nat, mark: nat)
    requires UnusedFrom(before, from, mark) && NoneTaken(before, after) && HeadMoved(before, from, head)
    ensures UnusedFrom(after, head, mark)
  {
  }

  lemma {:induction false} MovesCompose(a: seq<Cell>, b: seq<Cell>, c: seq<Cell>, h0: nat, h1: nat, h2: nat)
    requires NoneTaken(a, b) && NoneTaken(b, c) && HeadMoved(a, h0, h1) && HeadMoved(b, h1, h2)
    ensures NoneTaken(a, c) && HeadMoved(a, h0, h2)
  {
  }
}
