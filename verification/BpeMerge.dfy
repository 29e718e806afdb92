/**
 Merging pieces by rank. The tokenizer merges every occurrence of the best pair in one sweep. Every merge of every
 sweep is that of the leftmost best pair exactly if the table is orderly, as it is when results rank after the
 merges that make them; then sweeping gives what merging one pair at a time gives.
 */
module BpeMerge {
  import opened Binary
  import opened ByteTable
  import Sequences

  type Piece = Bytes

  /** The rank of each mergeable pair. */
  type Ranks = map<(Piece, Piece), nat>

  /** What the constructor guarantees: operands are not empty, and no two pairs share a rank. */
  ghost predicate Loaded(ranks: Ranks) {
    && (forall p :: p in ranks ==> p.0 != [] && p.1 != [])
    && forall p, q :: p in ranks && q in ranks && ranks[p] == ranks[q] ==> p == q
  }

  ghost predicate Before(ranks: Ranks, q: (Piece, Piece), p: (Piece, Piece)) {
    q in ranks && p in ranks && ranks[q] < ranks[p]
  }

  /**
   Where merging `p` brings its result next to `x`, a pair that ranks before `p` arises only where there was one
   already, or where `p` was already to be merged further left.
   */
  ghost predicate OrderlyAt(ranks: Ranks, p: (Piece, Piece), x: Piece) {
    && (Before(ranks, (p.0 + p.1, x), p) ==> Before(ranks, (p.1, x), p))
    && (Before(ranks, (x, p.0 + p.1), p) ==> (x, p.0) == p || Before(ranks, (x, p.0), p))
  }

  ghost predicate Orderly(ranks: Ranks) {
    forall p, x {:trigger OrderlyAt(ranks, p, x)} :: OrderlyAt(ranks, p, x)
  }

  /** Every pair that uses the result of a merge ranks after that merge, as training leaves it. */
  ghost predicate ResultsRankLater(ranks: Ranks) {
    forall p, q :: p in ranks && q in ranks && (q.0 == p.0 + p.1 || q.1 == p.0 + p.1) ==> ranks[p] < ranks[q]
  }

  lemma {:induction false} TrainedIsOrderly(ranks: Ranks)
    requires ResultsRankLater(ranks)
    ensures Orderly(ranks)
  {
    forall p, x
      ensures OrderlyAt(ranks, p, x)
    {
      assert !Before(ranks, (p.0 + p.1, x), p) && !Before(ranks, (x, p.0 + p.1), p);
    }
  }

  /** The first place of a pair in the list is its rank. */
  ghost predicate LoadedFrom(merges: seq<(Piece, Piece)>, ranks: Ranks) {
    && (forall i :: 0 <= i < |merges| ==> merges[i].0 != [] && merges[i].1 != [])
    && (forall p :: p in ranks <==> p in merges)
    && forall p :: p in ranks ==> ranks[p] < |merges| && merges[ranks[p]] == p && p !in merges[..ranks[p]]
  }

  /** Loads the merges in order; an empty operand is an error, a repeated pair keeps its first rank. */
  method LoadMerges(merges: seq<(Piece, Piece)>) returns (ok: bool, ranks: Ranks)
    ensures ok == forall i :: 0 <= i < |merges| ==> merges[i].0 != [] && merges[i].1 != []
    ensures ok ==> LoadedFrom(merges, ranks) && Loaded(ranks)
  {
    ranks := map[];
    for i := 0 to |merges|
      invariant forall k :: 0 <= k < i ==> merges[k].0 != [] && merges[k].1 != []
      invariant forall p :: p in ranks <==> p in merges[..i]
      invariant forall p :: p in ranks ==> ranks[p] < i && merges[ranks[p]] == p && p !in merges[..ranks[p]]
    {
      var p := merges[i];
      if p.0 == [] || p.1 == [] {
        return false, map[];
      }
      assert merges[..i + 1] == merges[..i] + [p];
      if p !in ranks {
        ranks := ranks[p := i];
      }
    }
    ok := true;
    assert merges[..|merges|] == merges;
    forall p | p in ranks
      ensures p.0 != [] && p.1 != []
    {
      assert merges[ranks[p]] == p;
    }
  }

  // ---------------------------------------------------------------------------------------------
  // One merge at a time
  // ---------------------------------------------------------------------------------------------

  function PairAt(pieces: seq<Piece>, i: int): (Piece, Piece)
    requires 0 <= i < |pieces| - 1
  {
    (pieces[i], pieces[i + 1])
  }

  ghost predicate Mergeable(ranks: Ranks, pieces: seq<Piece>, i: int) {
    0 <= i < |pieces| - 1 && PairAt(pieces, i) in ranks
  }

  ghost predicate NoneMergeable(ranks: Ranks, pieces: seq<Piece>) {
    forall i {:trigger Mergeable(ranks, pieces, i)} :: !Mergeable(ranks, pieces, i)
  }

  /** The leftmost pair of lowest rank. */
  ghost predicate IsBest(ranks: Ranks, pieces: seq<Piece>, i: int) {
    && Mergeable(ranks, pieces, i)
    && forall j {:trigger Mergeable(ranks, pieces, j)} :: Mergeable(ranks, pieces, j) ==>
         ranks[PairAt(pieces, i)] <= ranks[PairAt(pieces, j)]
             && (j < i ==> ranks[PairAt(pieces, i)] < ranks[PairAt(pieces, j)])
  }

  lemma {:induction false} BestIsUnique(ranks: Ranks, pieces: seq<Piece>, i: int, j: int)
    requires IsBest(ranks, pieces, i) && IsBest(ranks, pieces, j)
    ensures i == j
  {
  }

  function MergeAt(pieces: seq<Piece>, i: int): (r: seq<Piece>)
    requires 0 <= i < |pieces| - 1
    ensures |r| == |pieces| - 1
  {
    seq(|pieces| - 1, (k: nat) requires k < |pieces| - 1 =>
      if k < i then pieces[k] else if k == i then pieces[i] + pieces[i + 1] else pieces[k + 1])
  }

  /** Some pair is the best one, unless there is none. */
  lemma {:induction false} BestOrNone(ranks: Ranks, pieces: seq<Piece>)
    ensures NoneMergeable(ranks, pieces) || exists i :: IsBest(ranks, pieces, i)
  {
    var best := BestBelow(ranks, pieces, |pieces|);
    assert best >= 0 ==> IsBest(ranks, pieces, best);
  }

  lemma {:induction false} BestBelow(ranks: Ranks, pieces: seq<Piece>, n: nat) returns (best: int)
    ensures best >= 0 ==> best < n && Mergeable(ranks, pieces, best)
    ensures forall j {:trigger Mergeable(ranks, pieces, j)} :: j < n && Mergeable(ranks, pieces, j) ==>
              best >= 0 && ranks[PairAt(pieces, best)] <= ranks[PairAt(pieces, j)]
              && (j < best ==> ranks[PairAt(pieces, best)] < ranks[PairAt(pieces, j)])
  {
    best := -1;
    if n > 0 {
      best := BestBelow(ranks, pieces, n - 1);
      if Mergeable(ranks, pieces, n - 1) && (best < 0 || ranks[PairAt(pieces, n - 1)] < ranks[PairAt(pieces, best)]) {
        best := n - 1;
      }
    }
  }

  /** The search for the best pair. */
  method FindBest(ranks: Ranks, pieces: seq<Piece>) returns (best: nat)
    ensures best <= |pieces|
    ensures best < |pieces| ==> IsBest(ranks, pieces, best)
    ensures best == |pieces| <==> NoneMergeable(ranks, pieces)
  {
    best := |pieces|;
    var bestRank := 0;
    var index := 0;
    while index + 1 < |pieces|
      invariant index <= |pieces| && (best < |pieces| || best == |pieces|)
      invariant best < |pieces| ==>
                  best < index && Mergeable(ranks, pieces, best) && bestRank == ranks[PairAt(pieces, best)]
      invariant best == |pieces| ==>
                  forall j {:trigger Mergeable(ranks, pieces, j)} :: j < index ==> !Mergeable(ranks, pieces, j)
      invariant best < |pieces| ==>
                  forall j {:trigger Mergeable(ranks, pieces, j)} :: j < index && Mergeable(ranks, pieces, j) ==>
                    bestRank <= ranks[PairAt(pieces, j)] && (j < best ==> bestRank < ranks[PairAt(pieces, j)])
    {
      var pair := PairAt(pieces, index);
      assert Mergeable(ranks, pieces, index) <==> pair in ranks;
      if pair in ranks && (best == |pieces| || ranks[pair] < bestRank) {
        bestRank := ranks[pair];
        best := index;
      }
      index := index + 1;
    }
    assert best == |pieces| || Mergeable(ranks, pieces, best);
  }

  /** Merging the single leftmost best pair until none is left. */
  ghost function OneByOne(ranks: Ranks, pieces: seq<Piece>): seq<Piece>
    decreases |pieces|
  {
    if i: int :| IsBest(ranks, pieces, i) then OneByOne(ranks, MergeAt(pieces, i)) else pieces
  }

  lemma {:induction false} OneByOneStep(ranks: Ranks, pieces: seq<Piece>, i: int)
    requires IsBest(ranks, pieces, i)
    ensures OneByOne(ranks, pieces) == OneByOne(ranks, MergeAt(pieces, i))
  {
  }

  lemma {:induction false} OneByOneEnd(ranks: Ranks, pieces: seq<Piece>)
    requires NoneMergeable(ranks, pieces)
    ensures OneByOne(ranks, pieces) == pieces
  {
  }

  // ---------------------------------------------------------------------------------------------
  // Every occurrence at once
  // ---------------------------------------------------------------------------------------------

  ghost predicate Occurs(pieces: seq<Piece>, pair: (Piece, Piece), i: int) {
    0 <= i < |pieces| - 1 && PairAt(pieces, i) == pair
  }

  /** The sweep: merges `pair` where it occurs, from `index` on, and looks at the result again. */
  function Swept(pieces: seq<Piece>, pair: (Piece, Piece), index: nat): (r: seq<Piece>)
    ensures |r| <= |pieces|
    decreases |pieces| - index
  {
    if index + 1 >= |pieces| then pieces
    else if PairAt(pieces, index) == pair then Swept(MergeAt(pieces, index), pair, index)
    else Swept(pieces, pair, index + 1)
  }

  lemma {:induction false} SweptShrinks(pieces: seq<Piece>, pair: (Piece, Piece), index: nat, i: int)
    requires index <= i && Occurs(pieces, pair, i)
    ensures |Swept(pieces, pair, index)| < |pieces|
    decreases i - index
  {
    if PairAt(pieces, index) != pair {
      SweptShrinks(pieces, pair, index + 1, i);
    }
  }

  /** Sweeping with the best pair until none is left. */
  ghost function Batched(ranks: Ranks, pieces: seq<Piece>): seq<Piece>
    decreases |pieces|
  {
    if i: int :| IsBest(ranks, pieces, i) then
      SweptShrinks(pieces, PairAt(pieces, i), 0, i);
      Batched(ranks, Swept(pieces, PairAt(pieces, i), 0))
    else pieces
  }

  lemma {:induction false} BatchedStep(ranks: Ranks, pieces: seq<Piece>, i: int)
    requires IsBest(ranks, pieces, i)
    ensures |Swept(pieces, PairAt(pieces, i), 0)| < |pieces|
    ensures Batched(ranks, pieces) == Batched(ranks, Swept(pieces, PairAt(pieces, i), 0))
  {
    SweptShrinks(pieces, PairAt(pieces, i), 0, i);
    forall j | IsBest(ranks, pieces, j)
      ensures i == j
    {
      BestIsUnique(ranks, pieces, i, j);
    }
  }

  lemma {:induction false} BatchedEnd(ranks: Ranks, pieces: seq<Piece>)
    requires NoneMergeable(ranks, pieces)
    ensures Batched(ranks, pieces) == pieces
  {
  }

  // ---------------------------------------------------------------------------------------------
  // When every merge is the leftmost best one
  // ---------------------------------------------------------------------------------------------

  /** Each merge of the sweep is the leftmost of lowest rank when it is made. */
  ghost predicate MergesBest(ranks: Ranks, pieces: seq<Piece>, pair: (Piece, Piece), index: nat)
    decreases |pieces| - index
  {
    || index + 1 >= |pieces|
    || if PairAt(pieces, index) == pair
       then IsBest(ranks, pieces, index) && MergesBest(ranks, MergeAt(pieces, index), pair, index)
       else MergesBest(ranks, pieces, pair, index + 1)
  }

  /** ... for every sweep with a best pair. */
  ghost predicate AlwaysMergesBest(ranks: Ranks) {
    forall pieces, i {:trigger IsBest(ranks, pieces, i)} ::
      IsBest(ranks, pieces, i) ==> MergesBest(ranks, pieces, PairAt(pieces, i), 0)
  }

  lemma {:induction false} SweptOneByOne(ranks: Ranks, pieces: seq<Piece>, pair: (Piece, Piece), index: nat)
    requires MergesBest(ranks, pieces, pair, index)
    ensures OneByOne(ranks, Swept(pieces, pair, index)) == OneByOne(ranks, pieces)
    decreases |pieces| - index
  {
    if index + 1 < |pieces| {
      if PairAt(pieces, index) == pair {
        SweptOneByOne(ranks, MergeAt(pieces, index), pair, index);
        OneByOneStep(ranks, pieces, index);
      } else {
        SweptOneByOne(ranks, pieces, pair, index + 1);
      }
    }
  }

  /** If every merge is the leftmost best one, sweeping gives what merging one by one gives. */
  lemma {:induction false} BatchedOneByOne(ranks: Ranks, pieces: seq<Piece>)
    requires AlwaysMergesBest(ranks)
    ensures Batched(ranks, pieces) == OneByOne(ranks, pieces)
    decreases |pieces|
  {
    if i: int :| IsBest(ranks, pieces, i) {
      BatchedStep(ranks, pieces, i);
      SweptOneByOne(ranks, pieces, PairAt(pieces, i), 0);
      BatchedOneByOne(ranks, Swept(pieces, PairAt(pieces, i), 0));
    }
  }

  /** `pair` is the lowest ranked pair, and does not occur before `index`. */
  ghost predicate Sweeping(ranks: Ranks, pieces: seq<Piece>, pair: (Piece, Piece), index: int) {
    && pair in ranks
    && (forall i {:trigger Occurs(pieces, pair, i)} :: i < index ==> !Occurs(pieces, pair, i))
    && forall i {:trigger Mergeable(ranks, pieces, i)} :: Mergeable(ranks, pieces, i) ==>
         ranks[pair] <= ranks[PairAt(pieces, i)]
  }

  lemma {:induction false} SweepIsBest(ranks: Ranks, pieces: seq<Piece>, pair: (Piece, Piece), index: int)
    requires Loaded(ranks) && Sweeping(ranks, pieces, pair, index) && Occurs(pieces, pair, index)
    ensures IsBest(ranks, pieces, index)
  {
    assert Mergeable(ranks, pieces, index);
    forall j | Mergeable(ranks, pieces, j) && j < index
      ensures ranks[pair] < ranks[PairAt(pieces, j)]
    {
      assert !Occurs(pieces, pair, j);
    }
  }

  /** Next to the merged piece no pair of lower rank arises. */
  lemma {:induction false} NoneLowerArises(ranks: Ranks, pieces: seq<Piece>, pair: (Piece, Piece), index: int, i: int)
    requires Loaded(ranks) && Orderly(ranks) && Sweeping(ranks, pieces, pair, index) && Occurs(pieces, pair, index)
    requires Mergeable(ranks, MergeAt(pieces, index), i) && index - 1 <= i <= index
    ensures ranks[pair] <= ranks[PairAt(MergeAt(pieces, index), i)]
  {
    if i == index {
      assert OrderlyAt(ranks, pair, pieces[index + 2]);
      assert Before(ranks, (pair.1, pieces[index + 2]), pair) ==> Mergeable(ranks, pieces, index + 1);
    } else {
      assert OrderlyAt(ranks, pair, pieces[index - 1]);
      assert Before(ranks, (pieces[index - 1], pair.0), pair) ==> Mergeable(ranks, pieces, index - 1);
      assert !Occurs(pieces, pair, index - 1);
    }
  }

  /** Merging an occurrence makes no new one before it, and no pair of lower rank. */
  lemma {:induction false} SweepGoesOn(ranks: Ranks, pieces: seq<Piece>, pair: (Piece, Piece), index: int)
    requires Loaded(ranks) && Orderly(ranks) && Sweeping(ranks, pieces, pair, index) && Occurs(pieces, pair, index)
    ensures Sweeping(ranks, MergeAt(pieces, index), pair, index)
  {
    var m, merged := MergeAt(pieces, index), pair.0 + pair.1;
    assert |merged| > |pair.1| && |merged| > |pair.0|;
    forall i | i < index
      ensures !Occurs(m, pair, i)
    {
      assert !Occurs(pieces, pair, i);
      if 0 <= i < index - 1 {
        assert PairAt(m, i) == PairAt(pieces, i);
      } else if i == index - 1 && i >= 0 {
        assert PairAt(m, i).1 == merged;
      }
    }
    forall i | Mergeable(ranks, m, i)
      ensures ranks[pair] <= ranks[PairAt(m, i)]
    {
      if i < index - 1 {
        assert Mergeable(ranks, pieces, i) && PairAt(m, i) == PairAt(pieces, i);
      } else if i > index {
        assert Mergeable(ranks, pieces, i + 1) && PairAt(m, i) == PairAt(pieces, i + 1);
      } else {
        NoneLowerArises(ranks, pieces, pair, index, i);
      }
    }
  }

  lemma {:induction false} OrderlySweep(ranks: Ranks, pieces: seq<Piece>, pair: (Piece, Piece), index: nat)
    requires Loaded(ranks) && Orderly(ranks) && Sweeping(ranks, pieces, pair, index)
    ensures MergesBest(ranks, pieces, pair, index)
    decreases |pieces| - index
  {
    if index + 1 < |pieces| {
      if Occurs(pieces, pair, index) {
        SweepIsBest(ranks, pieces, pair, index);
        SweepGoesOn(ranks, pieces, pair, index);
        OrderlySweep(ranks, MergeAt(pieces, index), pair, index);
      } else {
        OrderlySweep(ranks, pieces, pair, index + 1);
      }
    }
  }

  /** A piece that no pair of the table uses. */
  lemma {:induction false} UnusedPiece(pairs: set<(Piece, Piece)>) returns (s: Piece)
    ensures forall p :: p in pairs ==> |p.0| < |s| && |p.1| < |s|
  {
    if pairs == {} {
      s := [];
    } else {
      var p :| p in pairs;
      var t := UnusedPiece(pairs - {p});
      s := [0] + t + p.0 + p.1;
      assert forall q :: q in pairs ==> q == p || q in pairs - {p};
    }
  }

  /** The pair occurs twice; its first merge brings a pair of lower rank up on the right. */
  lemma {:induction false} LowerOnTheRight(ranks: Ranks, p: (Piece, Piece), x: Piece, s: Piece, pieces: seq<Piece>)
    requires Loaded(ranks) && Before(ranks, (p.0 + p.1, x), p) && !Before(ranks, (p.1, x), p)
    requires forall q :: q in ranks ==> q.0 != s && q.1 != s
    requires pieces == [p.0, p.1, x, s, p.0, p.1]
    ensures IsBest(ranks, pieces, 0) && !MergesBest(ranks, pieces, p, 0)
  {
    var once := [p.0 + p.1, x, s, p.0, p.1];
    assert MergeAt(pieces, 0) == once && PairAt(pieces, 0) == p;
    assert Mergeable(ranks, pieces, 0) && |p.0 + p.1| > |p.0|;
    assert PairAt(once, 0) != p && PairAt(once, 1) != p && PairAt(once, 2) != p && PairAt(once, 3) == p;
    assert Mergeable(ranks, once, 0) && !IsBest(ranks, once, 3);
    assert !MergesBest(ranks, once, p, 3);
    assert !MergesBest(ranks, once, p, 2);
    assert !MergesBest(ranks, once, p, 1);
    assert !MergesBest(ranks, once, p, 0);
  }

  /** The same on the left. */
  lemma {:induction false} LowerOnTheLeft(ranks: Ranks, p: (Piece, Piece), x: Piece, s: Piece, pieces: seq<Piece>)
    requires Loaded(ranks) && Before(ranks, (x, p.0 + p.1), p) && (x, p.0) != p && !Before(ranks, (x, p.0), p)
    requires forall q :: q in ranks ==> q.0 != s && q.1 != s
    requires pieces == [x, p.0, p.1, s, p.0, p.1]
    ensures IsBest(ranks, pieces, 1) && !MergesBest(ranks, pieces, p, 0)
  {
    var once := [x, p.0 + p.1, s, p.0, p.1];
    assert MergeAt(pieces, 1) == once && PairAt(pieces, 0) != p && PairAt(pieces, 1) == p;
    assert Mergeable(ranks, pieces, 1);
    assert PairAt(once, 1) != p && PairAt(once, 2) != p && PairAt(once, 3) == p;
    assert Mergeable(ranks, once, 0) && !IsBest(ranks, once, 3);
    assert !MergesBest(ranks, once, p, 3);
    assert !MergesBest(ranks, once, p, 2);
    assert !MergesBest(ranks, once, p, 1);
    assert !MergesBest(ranks, pieces, p, 1);
  }

  /** Every merge of every sweep is the leftmost best one exactly if the table is orderly. */
  lemma {:induction false} AlwaysBestExactlyIf(ranks: Ranks)
    requires Loaded(ranks)
    ensures AlwaysMergesBest(ranks) <==> Orderly(ranks)
  {
    if Orderly(ranks) {
      forall pieces, i | IsBest(ranks, pieces, i)
        ensures MergesBest(ranks, pieces, PairAt(pieces, i), 0)
      {
        OrderlySweep(ranks, pieces, PairAt(pieces, i), 0);
      }
    } else {
      var p, x :| !OrderlyAt(ranks, p, x);
      var s := UnusedPiece(ranks.Keys);
      if Before(ranks, (p.0 + p.1, x), p) && !Before(ranks, (p.1, x), p) {
        LowerOnTheRight(ranks, p, x, s, [p.0, p.1, x, s, p.0, p.1]);
      } else {
        LowerOnTheLeft(ranks, p, x, s, [x, p.0, p.1, s, p.0, p.1]);
      }
    }
  }

  /** With an orderly table sweeping gives what merging one pair at a time gives. */
  lemma {:induction false} OrderlyBatched(ranks: Ranks, pieces: seq<Piece>)
    requires Loaded(ranks) && Orderly(ranks)
    ensures Batched(ranks, pieces) == OneByOne(ranks, pieces)
  {
    AlwaysBestExactlyIf(ranks);
    BatchedOneByOne(ranks, pieces);
  }

  // ---------------------------------------------------------------------------------------------
  // What the pieces stand for
  // ---------------------------------------------------------------------------------------------

  function Flatten(parts: seq<Piece>): Piece {
    if parts == [] then [] else Flatten(parts[..|parts| - 1]) + parts[|parts| - 1]
  }

  lemma {:induction false} FlattenJoin(a: seq<Piece>, b: seq<Piece>)
    ensures Flatten(a + b) == Flatten(a) + Flatten(b)
    decreases |b|
  {
    if b == [] {
      assert a + b == a;
      Sequences.EmptyRight(Flatten(a));
    } else {
      var front, last := b[..|b| - 1], b[|b| - 1];
      FlattenJoin(a, front);
      assert (a + b)[..|a + b| - 1] == a + front;
      Sequences.Associative(Flatten(a), Flatten(front), last);
    }
  }

  lemma {:induction false} FlattenOne(p: Piece)
    ensures Flatten([p]) == p
  {
  }

  /** Merging neighbours keeps the text. */
  lemma {:induction false} MergeKeepsText(parts: seq<Piece>, i: int)
    requires 0 <= i < |parts| - 1
    ensures Flatten(MergeAt(parts, i)) == Flatten(parts)
  {
    var before, l, r, after := parts[..i], parts[i], parts[i + 1], parts[i + 2..];
    assert parts == before + ([l] + [r]) + after;
    assert MergeAt(parts, i) == before + [l + r] + after;
    FlattenJoin(before + ([l] + [r]), after);
    FlattenJoin(before, [l] + [r]);
    FlattenJoin([l], [r]);
    FlattenOne(l);
    FlattenOne(r);
    FlattenJoin(before + [l + r], after);
    FlattenJoin(before, [l + r]);
    FlattenOne(l + r);
  }

  /** Piece `k` spells part `k` in the alphabet, and the parts make up the text. */
  ghost predicate Spells(pieces: seq<Piece>, parts: seq<Bytes>, text: Bytes) {
    && |pieces| == |parts| && Flatten(parts) == text
    && forall k {:trigger pieces[k]} {:trigger parts[k]} :: 0 <= k < |pieces| ==>
       pieces[k] == EncodeText(parts[k]) && parts[k] != []
  }

  lemma {:induction false} MergeSpells(pieces: seq<Piece>, parts: seq<Bytes>, text: Bytes, i: int)
    requires Spells(pieces, parts, text) && 0 <= i < |pieces| - 1
    ensures Spells(MergeAt(pieces, i), MergeAt(parts, i), text)
  {
    MergeKeepsText(parts, i);
    EncodeJoin(parts[i], parts[i + 1]);
  }

  lemma {:induction false} SweptSpells(pieces: seq<Piece>, parts: seq<Bytes>, text: Bytes, pair: (Piece, Piece),
                                       index: nat)
    returns (after: seq<Bytes>)
    requires Spells(pieces, parts, text)
    ensures Spells(Swept(pieces, pair, index), after, text)
    decreases |pieces| - index
  {
    if index + 1 >= |pieces| {
      after := parts;
    } else if PairAt(pieces, index) == pair {
      MergeSpells(pieces, parts, text, index);
      after := SweptSpells(MergeAt(pieces, index), MergeAt(parts, index), text, pair, index);
    } else {
      after := SweptSpells(pieces, parts, text, pair, index + 1);
    }
  }

  /** Merging changes neither the text nor what the pieces spell, and goes on while it can. */
  lemma {:induction false} BatchedSpells(ranks: Ranks, pieces: seq<Piece>, parts: seq<Bytes>, text: Bytes)
    returns (after: seq<Bytes>)
    requires Spells(pieces, parts, text)
    ensures Spells(Batched(ranks, pieces), after, text) && NoneMergeable(ranks, Batched(ranks, pieces))
    decreases |pieces|
  {
    if i: int :| IsBest(ranks, pieces, i) {
      BatchedStep(ranks, pieces, i);
      after := SweptSpells(pieces, parts, text, PairAt(pieces, i), 0);
      after := BatchedSpells(ranks, Swept(pieces, PairAt(pieces, i), 0), after, text);
    } else {
      after := parts;
      BestOrNone(ranks, pieces);
    }
  }

  // ---------------------------------------------------------------------------------------------
  // The merge loop
  // ---------------------------------------------------------------------------------------------

  /** Appends the right piece to the left one and erases it. */
  method MergeHere(pieces: seq<Piece>, index: nat) returns (r: seq<Piece>)
    requires index + 1 < |pieces|
    ensures r == MergeAt(pieces, index)
  {
    r := pieces[index := pieces[index] + pieces[index + 1]];
    r := r[..index + 1] + r[index + 2..];
  }

  /** Merges every occurrence of the best pair, from the left. */
  method Sweep(pieces0: seq<Piece>, best: nat) returns (pieces: seq<Piece>)
    requires best + 1 < |pieces0|
    ensures pieces == Swept(pieces0, PairAt(pieces0, best), 0)
  {
    pieces := pieces0;
    var left, right := pieces[best], pieces[best + 1];
    var index: nat := 0;
    while index + 1 < |pieces|
      invariant Swept(pieces, (left, right), index) == Swept(pieces0, (left, right), 0)
      decreases |pieces| - index
    {
      if pieces[index] == left && pieces[index + 1] == right {
        pieces := MergeHere(pieces, index);
      } else {
        index := index + 1;
      }
    }
  }

  /** The outer loop. */
  method MergeAll(ranks: Ranks, start: seq<Piece>) returns (pieces: seq<Piece>)
    ensures pieces == Batched(ranks, start)
  {
    pieces := start;
    while |pieces| > 1
      invariant Batched(ranks, pieces) == Batched(ranks, start)
      decreases |pieces|
    {
      var best := FindBest(ranks, pieces);
      if best == |pieces| {
        break;
      }
      BatchedStep(ranks, pieces, best);
      pieces := Sweep(pieces, best);
    }
    BatchedEnd(ranks, pieces);
  }
}
