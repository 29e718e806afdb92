/**
 Cutting the speech out with silence between, and the table that maps processed time back to original time.
 Segments and table entries are in centiseconds.
 */
module TimeMap {
  import opened Arithmetic
  import opened VadDetect
  import opened VadSegments
  import Sequences

  /** The silence put between two segments: a tenth of a second. */
  const SILENCE := 1600

  /** A point of the table. */
  datatype Point = Point(processed: int, original: int)

  function CsToSamples(cs: int): int {
    cs * SAMPLES_PER_CS
  }

  // ---------------------------------------------------------------------------------------------
  // The precomputed length
  // ---------------------------------------------------------------------------------------------

  /** The overlap that is copied behind segment `i`. */
  function Overlap(segments: seq<Speech>, overlap: nat, i: int): nat {
    if i < |segments| - 1 then overlap else 0
  }

  /** Where segment `i` is cut off, with its overlap. */
  function CutEnd(segments: seq<Speech>, overlap: nat, n: nat, i: int): int
    requires 0 <= i < |segments|
  {
    Min(CsToSamples(segments[i].end) + Overlap(segments, overlap, i), n - 1)
  }

  /** What the first loop counts for segment `i`. */
  function Counted(segments: seq<Speech>, overlap: nat, n: nat, i: int): int
    requires 0 <= i < |segments|
  {
    CutEnd(segments, overlap, n, i) - CsToSamples(segments[i].start)
  }

  function CountedUpTo(segments: seq<Speech>, overlap: nat, n: nat, i: nat): int
    requires i <= |segments|
  {
    if i == 0 then 0 else CountedUpTo(segments, overlap, n, i - 1) + Counted(segments, overlap, n, i - 1)
  }

  /** The size given to the buffer. */
  function Needed(segments: seq<Speech>, overlap: nat, n: nat): int {
    CountedUpTo(segments, overlap, n, |segments|) + if |segments| > 1 then (|segments| - 1) * SILENCE else 0
  }

  method ComputeNeeded(segments: seq<Speech>, overlap: nat, n: nat) returns (needed: int)
    ensures needed == Needed(segments, overlap, n)
  {
    var filtered := 0;
    for i := 0 to |segments|
      invariant filtered == CountedUpTo(segments, overlap, n, i)
    {
      var start, end := CsToSamples(segments[i].start), CsToSamples(segments[i].end);
      if i < |segments| - 1 {
        end := end + overlap;
      }
      end := Min(end, n - 1);
      filtered := filtered + (end - start);
    }
    needed := filtered + if |segments| > 1 then (|segments| - 1) * SILENCE else 0;
  }

  // ---------------------------------------------------------------------------------------------
  // The copied length
  // ---------------------------------------------------------------------------------------------

  /** What the second loop does for a segment: copies `length` samples at `from`, if any, and a silence behind. */
  datatype Cut = Cut(from: int, length: int, original: int, silence: nat)

  function CutOf(segments: seq<Speech>, overlap: nat, n: nat, i: int): Cut
    requires 0 <= i < |segments|
  {
    var from := Min(CsToSamples(segments[i].start), n - 1);
    Cut(from, CutEnd(segments, overlap, n, i) - from, Min(CsToSamples(segments[i].end), n - 1) - from,
        if i < |segments| - 1 then SILENCE else 0)
  }

  function Cuts(segments: seq<Speech>, overlap: nat, n: nat): (cuts: seq<Cut>)
    ensures |cuts| == |segments|
  {
    seq(|segments|, (i: nat) requires i < |segments| => CutOf(segments, overlap, n, i))
  }

  /** Cuts stay inside the audio. */
  ghost predicate Inner(cuts: seq<Cut>, n: nat) {
    forall k {:trigger cuts[k]} :: 0 <= k < |cuts| ==>
           0 <= cuts[k].from && 0 <= cuts[k].original <= cuts[k].length && cuts[k].from + cuts[k].length < n
  }

  lemma {:induction false} CutInner(segments: seq<Speech>, overlap: nat, n: nat, i: nat, end: int)
    requires Apart(segments, end) && i < |segments| && n > 0
    ensures var cut := CutOf(segments, overlap, n, i);
            0 <= cut.from && 0 <= cut.original <= cut.length && cut.from + cut.length < n
  {
  }

  lemma {:induction false} CutsInner(segments: seq<Speech>, overlap: nat, n: nat, end: int)
    requires Apart(segments, end) && n > 0
    ensures Inner(Cuts(segments, overlap, n), n)
  {
  }

  /** The buffer offset before segment `i`. */
  function OffsetAt(cuts: seq<Cut>, i: nat): nat
    requires i <= |cuts|
  {
    if i == 0 then 0
    else OffsetAt(cuts, i - 1) + Space(cuts[i - 1])
  }

  /** The silences of skipped segments. */
  ghost function SkippedUpTo(cuts: seq<Cut>, i: nat): nat
    requires i <= |cuts|
  {
    if i == 0 then 0 else SkippedUpTo(cuts, i - 1) + if cuts[i - 1].length <= 0 then cuts[i - 1].silence else 0
  }

  /** By how much segments start behind the last sample. */
  ghost function OvershootUpTo(segments: seq<Speech>, n: nat, i: nat): nat
    requires i <= |segments|
  {
    if i == 0 then 0 else OvershootUpTo(segments, n, i - 1) + Max(0, CsToSamples(segments[i - 1].start) - (n - 1))
  }

  ghost function SilencesUpTo(cuts: seq<Cut>, i: nat): nat
    requires i <= |cuts|
  {
    if i == 0 then 0 else SilencesUpTo(cuts, i - 1) + cuts[i - 1].silence
  }

  lemma {:induction false} SilencesAre(segments: seq<Speech>, overlap: nat, n: nat, i: nat)
    requires i <= |segments|
    ensures SilencesUpTo(Cuts(segments, overlap, n), i) == SILENCE * (if i == |segments| && i > 0 then i - 1 else i)
  {
    if i > 0 {
      SilencesAre(segments, overlap, n, i - 1);
    }
  }

  /** What is counted and what is copied differ by how late the segment starts. */
  lemma {:induction false} LengthOf(segments: seq<Speech>, overlap: nat, n: nat, i: nat, end: int)
    requires Apart(segments, end) && i < |segments|
    ensures CutOf(segments, overlap, n, i).length >= 0
    ensures CutOf(segments, overlap, n, i).length
         == Counted(segments, overlap, n, i) + Max(0, CsToSamples(segments[i].start) - (n - 1))
  {
  }

  /** The buffer's spare room: the silences of skipped segments, less what segments start too late. */
  lemma {:induction false} SpareRoom(segments: seq<Speech>, overlap: nat, n: nat, cuts: seq<Cut>, i: nat, end: int)
    requires Apart(segments, end) && i <= |segments| && cuts == Cuts(segments, overlap, n)
    ensures CountedUpTo(segments, overlap, n, i) + SilencesUpTo(cuts, i) - OffsetAt(cuts, i)
         == SkippedUpTo(cuts, i) - OvershootUpTo(segments, n, i)
  {
    if i == 0 {
      assert SilencesUpTo(cuts, 0) == OffsetAt(cuts, 0) == 0;
    } else {
      SpareRoom(segments, overlap, n, cuts, i - 1, end);
      assert cuts[i - 1] == CutOf(segments, overlap, n, i - 1);
      SpareOf(segments, overlap, n, i - 1, end);
    }
  }

  /** One segment's share of it. */
  lemma {:induction false} SpareOf(segments: seq<Speech>, overlap: nat, n: nat, i: nat, end: int)
    requires Apart(segments, end) && i < |segments|
    ensures var cut := CutOf(segments, overlap, n, i);
            Counted(segments, overlap, n, i) + cut.silence - Space(cut)
            == (if cut.length <= 0 then cut.silence else 0) - Max(0, CsToSamples(segments[i].start) - (n - 1))
  {
    LengthOf(segments, overlap, n, i, end);
  }

  /** The copied length fits the precomputed one exactly if the skipped silences make up for late starts. */
  lemma {:induction false} FitsExactlyIf(segments: seq<Speech>, overlap: nat, n: nat, end: int)
    requires Apart(segments, end)
    ensures OffsetAt(Cuts(segments, overlap, n), |segments|) <= Needed(segments, overlap, n)
       <==> OvershootUpTo(segments, n, |segments|) <= SkippedUpTo(Cuts(segments, overlap, n), |segments|)
  {
    SpareRoom(segments, overlap, n, Cuts(segments, overlap, n), |segments|, end);
    SilencesAre(segments, overlap, n, |segments|);
  }

  lemma {:induction false} NoOvershoot(segments: seq<Speech>, n: nat, i: nat)
    requires i <= |segments| && forall k :: 0 <= k < i ==> CsToSamples(segments[k].start) < n
    ensures OvershootUpTo(segments, n, i) == 0
  {
    if i > 0 {
      NoOvershoot(segments, n, i - 1);
    }
  }

  /** It always fits when every segment starts inside the audio. */
  lemma {:induction false} FitsIfStartsInside(segments: seq<Speech>, overlap: nat, n: nat, end: int)
    requires Apart(segments, end) && forall k :: 0 <= k < |segments| ==> CsToSamples(segments[k].start) < n
    ensures OffsetAt(Cuts(segments, overlap, n), |segments|) <= Needed(segments, overlap, n)
  {
    FitsExactlyIf(segments, overlap, n, end);
    NoOvershoot(segments, n, |segments|);
  }

  /** A start that rounding moved behind the audio makes the computed size negative; the detector finds such a start. */
  lemma {:induction false} RoundedStartMayNotFit(c: Config, probs: seq<real>, segments: seq<Speech>, n: nat)
    requires SpeaksAtTheEnd(c, probs) && AreInCs(PaddedSpeech(c, probs), segments) && n == 3 * c.window + 1
    ensures Needed(segments, 0, n) < 0
  {
    LastWindowExample(c, probs, segments);
    OneSegmentNeeds(segments, 0, n);
  }

  lemma {:induction false} OneSegmentNeeds(segments: seq<Speech>, overlap: nat, n: nat)
    requires |segments| == 1
    ensures Needed(segments, overlap, n) == Counted(segments, overlap, n, 0)
  {
    assert CountedUpTo(segments, overlap, n, 0) == 0;
  }

  // ---------------------------------------------------------------------------------------------
  // Copying the speech and recording the points
  // ---------------------------------------------------------------------------------------------

  function Zeros(n: nat): seq<real> {
    seq(n, (k: nat) => 0.0)
  }

  /** The samples of a cut with a silence behind. */
  function PieceOf(samples: seq<real>, cut: Cut): seq<real> {
    if cut.length > 0 && 0 <= cut.from && cut.from + cut.length <= |samples| then
      samples[cut.from..cut.from + cut.length] + Zeros(cut.silence)
    else
      []
  }

  function Pieces(samples: seq<real>, cuts: seq<Cut>): (pieces: seq<seq<real>>)
    ensures |pieces| == |cuts|
  {
    seq(|cuts|, (i: nat) requires i < |cuts| => PieceOf(samples, cuts[i]))
  }

  /** The first `i` pieces, one after the other. */
  function Joined<T>(pieces: seq<seq<T>>, i: nat): seq<T>
    requires i <= |pieces|
  {
    if i == 0 then [] else Joined(pieces, i - 1) + pieces[i - 1]
  }

  /** The buffer space of a segment. */
  function Space(cut: Cut): nat {
    if cut.length > 0 then cut.length + cut.silence else 0
  }

  lemma {:induction false} JoinedLength(pieces: seq<seq<real>>, cuts: seq<Cut>, i: nat)
    requires |pieces| == |cuts| && i <= |cuts| && forall k {:trigger pieces[k]} :: 0 <= k < |cuts| ==>
             |pieces[k]| == Space(cuts[k])
    ensures |Joined(pieces, i)| == OffsetAt(cuts, i)
  {
    if i > 0 {
      JoinedLength(pieces, cuts, i - 1);
    }
  }

  lemma {:induction false} OffsetGrows(cuts: seq<Cut>, i: nat, j: nat)
    requires i <= j <= |cuts|
    ensures OffsetAt(cuts, i) <= OffsetAt(cuts, j)
    decreases j
  {
    if i < j {
      OffsetGrows(cuts, i, j - 1);
    }
  }

  /** The points recorded for a segment that is copied to `offset`. */
  function PointsOf(segments: seq<Speech>, cut: Cut, i: nat, offset: nat): seq<Point>
    requires i < |segments|
  {
    if cut.length <= 0 then []
    else
      [Point(SamplesToCs(offset), segments[i].start), Point(SamplesToCs(offset + cut.original), segments[i].end)] +
      if i < |segments| - 1 then
        [Point(SamplesToCs(offset + cut.length), segments[i].end),
         Point(SamplesToCs(offset + cut.length + SILENCE), segments[i + 1].start)]
      else []
  }

  function Points(segments: seq<Speech>, cuts: seq<Cut>): (lists: seq<seq<Point>>)
    requires |segments| == |cuts|
    ensures |lists| == |cuts|
  {
    seq(|cuts|, (i: nat) requires i < |cuts| => PointsOf(segments, cuts[i], i, OffsetAt(cuts, i)))
  }

  /** `piece` was written at `offset`, and nothing behind it changed. */
  ghost predicate Wrote(before: seq<real>, after: seq<real>, offset: nat, piece: seq<real>) {
    && |before| == |after| && offset + |piece| <= |before|
    && after[..offset + |piece|] == before[..offset] + piece
    && after[offset + |piece|..] == before[offset + |piece|..]
  }

  lemma {:induction false} WroteBoth(a: seq<real>, b: seq<real>, c: seq<real>, offset: nat, piece: seq<real>,
                                     more: seq<real>)
    requires Wrote(a, b, offset, piece) && Wrote(b, c, offset + |piece|, more)
    ensures Wrote(a, c, offset, piece + more)
  {
  }

  lemma {:induction false} WroteNothing(a: seq<real>, offset: nat)
    requires offset <= |a|
    ensures Wrote(a, a, offset, [])
  {
  }

  /** Copies `piece` into the buffer. */
  method CopyInto(buffer: array<real>, offset: nat, piece: seq<real>)
    requires offset + |piece| <= buffer.Length
    modifies buffer
    ensures Wrote(old(buffer[..]), buffer[..], offset, piece)
  {
    forall k | 0 <= k < |piece| {
      buffer[offset + k] := piece[k];
    }
  }

  predicate IsRound(k: int, n: int) {
    0 <= k < n
  }

  /** What each round of the second loop cuts, copies and records. */
  ghost predicate AreRounds(samples: seq<real>, segments: seq<Speech>, overlap: nat, cuts: seq<Cut>,
                            pieces: seq<seq<real>>, lists: seq<seq<Point>>) {
    && |segments| == |cuts| == |pieces| == |lists|
    && (forall k {:trigger IsRound(k, |cuts|)} :: IsRound(k, |cuts|) ==>
          && cuts[k] == CutOf(segments, overlap, |samples|, k) && pieces[k] == PieceOf(samples, cuts[k])
          && lists[k] == PointsOf(segments, cuts[k], k, OffsetAt(cuts, k)))
    && forall k: nat {:trigger pieces[k]} :: k < |cuts| ==> |pieces[k]| == Space(cuts[k])
  }

  lemma {:induction false} RoundsExist(samples: seq<real>, segments: seq<Speech>, overlap: nat, end: int)
    requires Apart(segments, end) && |samples| > 0
    ensures var cuts := Cuts(segments, overlap, |samples|);
            AreRounds(samples, segments, overlap, cuts, Pieces(samples, cuts), Points(segments, cuts))
  {
  }

  lemma {:induction false} JoinedAt(pieces: seq<seq<real>>, cuts: seq<Cut>, i: nat, x: nat, m: nat)
    requires |pieces| == |cuts| && i < m <= |cuts| && x < |pieces[i]|
    requires forall k {:trigger pieces[k]} :: 0 <= k < |cuts| ==> |pieces[k]| == Space(cuts[k])
    ensures OffsetAt(cuts, i) + x < |Joined(pieces, m)| && Joined(pieces, m)[OffsetAt(cuts, i) + x] == pieces[i][x]
    decreases m
  {
    JoinedLength(pieces, cuts, m - 1);
    JoinedLength(pieces, cuts, m);
    if i < m - 1 {
      JoinedAt(pieces, cuts, i, x, m - 1);
    }
  }

  /** Sample `x` behind the start of segment `i` is at place `x` of its copy. */
  ghost predicate CopiedAt(samples: seq<real>, segments: seq<Speech>, cuts: seq<Cut>, audio: seq<real>, i: nat, x: nat)
    requires i < |segments| == |cuts|
  {
    var from := CsToSamples(segments[i].start) + x;
    0 <= from < |samples| && OffsetAt(cuts, i) + x < |audio| && audio[OffsetAt(cuts, i) + x] == samples[from]
  }

  /** Every segment is copied up to its end and overlap, or the last sample. */
  ghost predicate HoldsSpeech(samples: seq<real>, segments: seq<Speech>, overlap: nat, cuts: seq<Cut>, audio: seq<real>)
    requires |segments| == |cuts|
  {
    forall i: nat, x: nat {:trigger CopiedAt(samples, segments, cuts, audio, i, x)} ::
      i < |segments| && CsToSamples(segments[i].start) + x
      < Min(CsToSamples(segments[i].end) + (if i < |segments| - 1 then overlap else 0), |samples| - 1) ==>
      CopiedAt(samples, segments, cuts, audio, i, x)
  }

  lemma {:induction false} PieceHolds(samples: seq<real>, segments: seq<Speech>, overlap: nat, i: nat, x: nat, end: int)
    requires Apart(segments, end) && i < |segments| && |samples| > 0
    requires CsToSamples(segments[i].start) + x
             < Min(CsToSamples(segments[i].end) + (if i < |segments| - 1 then overlap else 0), |samples| - 1)
    ensures var piece := PieceOf(samples, CutOf(segments, overlap, |samples|, i));
            x < |piece| && piece[x] == samples[CsToSamples(segments[i].start) + x]
  {
    CutInner(segments, overlap, |samples|, i, end);
  }

  lemma {:induction false} PiecesHold(samples: seq<real>, segments: seq<Speech>, overlap: nat, end: int)
    requires Apart(segments, end) && |samples| > 0
    ensures var cuts := Cuts(segments, overlap, |samples|);
            HoldsSpeech(samples, segments, overlap, cuts, Joined(Pieces(samples, cuts), |segments|))
  {
    var cuts := Cuts(segments, overlap, |samples|);
    var pieces := Pieces(samples, cuts);
    RoundsExist(samples, segments, overlap, end);
    forall i: nat, x: nat | i < |segments| && CsToSamples(segments[i].start) + x
                            < Min(CsToSamples(segments[i].end) + (if i < |segments| - 1 then overlap else 0),
                                  |samples| - 1)
      ensures CopiedAt(samples, segments, cuts, Joined(pieces, |segments|), i, x)
    {
      assert IsRound(i, |cuts|) && segments[i].start >= 0;
      PieceHolds(samples, segments, overlap, i, x, end);
      JoinedAt(pieces, cuts, i, x, |segments|);
    }
  }

  lemma {:induction false} HoldsMore(samples: seq<real>, segments: seq<Speech>, overlap: nat, cuts: seq<Cut>,
                                     audio: seq<real>, buffer: seq<real>)
    requires |segments| == |cuts| && HoldsSpeech(samples, segments, overlap, cuts, audio) && audio <= buffer
    ensures HoldsSpeech(samples, segments, overlap, cuts, buffer)
  {
    forall i: nat, x: nat | i < |segments| && CopiedAt(samples, segments, cuts, audio, i, x)
      ensures CopiedAt(samples, segments, cuts, buffer, i, x)
    {
    }
  }

  /** The second loop: the buffer receives the speech, and every copy stays inside it. */
  method CutSpeech(samples: seq<real>, segments: seq<Speech>, overlap: nat, buffer: array<real>, ghost end: int)
    returns (points: seq<Point>, offset: nat)
    requires Apart(segments, end) && |samples| > 0
    requires OffsetAt(Cuts(segments, overlap, |samples|), |segments|) <= buffer.Length
    modifies buffer
    ensures offset == OffsetAt(Cuts(segments, overlap, |samples|), |segments|)
    ensures Wrote(old(buffer[..]), buffer[..], 0,
                  Joined(Pieces(samples, Cuts(segments, overlap, |samples|)), |segments|))
    ensures points == Joined(Points(segments, Cuts(segments, overlap, |samples|)), |segments|)
    ensures HoldsSpeech(samples, segments, overlap, Cuts(segments, overlap, |samples|), buffer[..])
  {
    ghost var cuts := Cuts(segments, overlap, |samples|);
    RoundsExist(samples, segments, overlap, end);
    ghost var before := buffer[..];
    points, offset := CutAll(samples, segments, overlap, buffer, cuts, Pieces(samples, cuts), Points(segments, cuts),
                             end);
    PiecesHold(samples, segments, overlap, end);
    WroteStarts(before, buffer[..], Joined(Pieces(samples, cuts), |segments|));
    HoldsMore(samples, segments, overlap, cuts, Joined(Pieces(samples, cuts), |segments|), buffer[..]);
  }

  lemma {:induction false} WroteStarts(before: seq<real>, after: seq<real>, piece: seq<real>)
    requires Wrote(before, after, 0, piece)
    ensures piece <= after
  {
    assert before[..0] == [];
    assert after[..|piece|] == piece;
  }

  method CutAll(samples: seq<real>, segments: seq<Speech>, overlap: nat, buffer: array<real>, ghost cuts: seq<Cut>,
                ghost pieces: seq<seq<real>>, ghost lists: seq<seq<Point>>, ghost end: int)
    returns (points: seq<Point>, offset: nat)
    requires Apart(segments, end) && |samples| > 0 && AreRounds(samples, segments, overlap, cuts, pieces, lists)
    requires OffsetAt(cuts, |segments|) <= buffer.Length
    modifies buffer
    ensures offset == OffsetAt(cuts, |segments|)
    ensures Wrote(old(buffer[..]), buffer[..], 0, Joined(pieces, |segments|))
    ensures points == Joined(lists, |segments|)
  {
    points, offset := [], 0;
    ghost var first, audio := buffer[..], [];
    WroteNothing(first, 0);
    for i := 0 to |segments|
      invariant offset == OffsetAt(cuts, i) == |audio|
      invariant audio == Joined(pieces, i) && Wrote(first, buffer[..], 0, audio)
      invariant points == Joined(lists, i)
    {
      JoinedLength(pieces, cuts, i + 1);
      OffsetGrows(cuts, i + 1, |segments|);
      assert IsRound(i, |cuts|);
      var pushed, after := CutOne(samples, segments, overlap, buffer, i, offset, end, cuts[i], pieces[i], first, audio);
      points := points + pushed;
      offset, audio := after, audio + pieces[i];
    }
  }

  /** One round of the second loop. */
  method CutOne(samples: seq<real>, segments: seq<Speech>, overlap: nat, buffer: array<real>, i: nat, offset: nat,
                ghost end: int, ghost cut: Cut, ghost piece: seq<real>, ghost first: seq<real>,
                ghost audio: seq<real>)
    returns (points: seq<Point>, after: nat)
    requires Apart(segments, end) && |samples| > 0 && i < |segments| && cut == CutOf(segments, overlap, |samples|, i)
    requires piece == PieceOf(samples, cut) && offset == |audio| && offset + |piece| <= buffer.Length
    requires Wrote(first, buffer[..], 0, audio)
    modifies buffer
    ensures after == offset + |piece| && Wrote(first, buffer[..], 0, audio + piece)
    ensures points == PointsOf(segments, cut, i, offset)
  {
    after, points := offset, [];
    var start, originalLength, length := CutSizes(segments, overlap, |samples|, i, end);
    if length <= 0 {
      Sequences.EmptyRight(audio);
      return;
    }
    points := RecordPoints(segments, i, offset, originalLength, length, cut);
    after := CopyCut(samples, buffer, offset, start, length, if i < |segments| - 1 then SILENCE else 0, cut, piece,
                     first, audio);
  }

  /** Copies what a cut takes behind the audio written so far. */
  method CopyCut(samples: seq<real>, buffer: array<real>, offset: nat, start: nat, length: nat, silence: nat,
                 ghost cut: Cut, ghost piece: seq<real>, ghost first: seq<real>, ghost audio: seq<real>)
    returns (after: nat)
    requires start == cut.from && 0 < length == cut.length && silence == cut.silence && start + length <= |samples|
    requires piece == PieceOf(samples, cut) && offset == |audio| && offset + |piece| <= buffer.Length
    requires Wrote(first, buffer[..], 0, audio)
    modifies buffer
    ensures after == offset + |piece| && Wrote(first, buffer[..], 0, audio + piece)
  {
    ghost var before := buffer[..];
    after := CopyWithSilence(buffer, offset, samples[start..start + length], silence);
    WroteBoth(first, before, buffer[..], 0, audio, piece);
  }

  method CutSizes(segments: seq<Speech>, overlap: nat, n: nat, i: nat, ghost end: int)
    returns (start: nat, originalLength: nat, length: nat)
    requires Apart(segments, end) && n > 0 && i < |segments|
    ensures var cut := CutOf(segments, overlap, n, i);
            start == cut.from && originalLength == cut.original && length == cut.length
    ensures start + length < n
  {
    CutInner(segments, overlap, n, i, end);
    start := Min(CsToSamples(segments[i].start), n - 1);
    var segmentEnd := Min(CsToSamples(segments[i].end), n - 1);
    originalLength := segmentEnd - start;
    if i < |segments| - 1 {
      segmentEnd := Min(segmentEnd + overlap, n - 1);
    }
    length := segmentEnd - start;
  }

  method RecordPoints(segments: seq<Speech>, i: nat, offset: nat, originalLength: nat, length: nat, ghost cut: Cut)
    returns (points: seq<Point>)
    requires i < |segments| && 0 < length == cut.length && originalLength == cut.original
    ensures points == PointsOf(segments, cut, i, offset)
  {
    points := [Point(SamplesToCs(offset), segments[i].start),
               Point(SamplesToCs(offset + originalLength), segments[i].end)];
    if i < |segments| - 1 {
      points := points + [Point(SamplesToCs(offset + length), segments[i].end),
                          Point(SamplesToCs(offset + length + SILENCE), segments[i + 1].start)];
    }
  }

  /** Copies a piece and the silence behind it. */
  method CopyWithSilence(buffer: array<real>, offset: nat, speech: seq<real>, silence: nat) returns (after: nat)
    requires offset + |speech| + silence <= buffer.Length
    modifies buffer
    ensures after == offset + |speech| + silence
    ensures Wrote(old(buffer[..]), buffer[..], offset, speech + Zeros(silence))
  {
    ghost var before := buffer[..];
    CopyInto(buffer, offset, speech);
    ghost var copied := buffer[..];
    CopyInto(buffer, offset + |speech|, Zeros(silence));
    WroteBoth(before, copied, buffer[..], offset, speech, Zeros(silence));
    after := offset + |speech| + silence;
  }

  // ---------------------------------------------------------------------------------------------
  // The table
  // ---------------------------------------------------------------------------------------------

  /** Neither time goes back. */
  ghost predicate Ordered(points: seq<Point>) {
    forall k, m :: 0 <= k < m < |points| ==>
      points[k].processed <= points[m].processed && points[k].original <= points[m].original
  }

  predicate Below(a: Point, b: Point) {
    a.processed <= b.processed && a.original <= b.original
  }

  ghost predicate Within(points: seq<Point>, low: Point, high: Point) {
    forall k :: 0 <= k < |points| ==> Below(low, points[k]) && Below(points[k], high)
  }

  lemma {:induction false} OrderedAppend(a: seq<Point>, b: seq<Point>, low: Point, mid: Point, high: Point)
    requires Ordered(a) && Ordered(b) && Within(a, low, mid) && Within(b, mid, high) && Below(low, mid)
             && Below(mid, high)
    ensures Ordered(a + b) && Within(a + b, low, high)
  {
  }

  /** The points of one segment are in order, between its start and the next one's. */
  lemma {:induction false} PointsOfOrdered(segments: seq<Speech>, cut: Cut, i: nat, offset: nat, end: int)
    requires Apart(segments, end) && i < |segments| && 0 <= cut.original <= cut.length
    requires cut.silence == if i < |segments| - 1 then SILENCE else 0
    ensures var next := if i < |segments| - 1 then segments[i + 1].start else end;
            var low, high := Point(SamplesToCs(offset), segments[i].start),
                Point(SamplesToCs(offset + Space(cut)), next);
            Below(low, high) && Ordered(PointsOf(segments, cut, i, offset))
                && Within(PointsOf(segments, cut, i, offset), low, high)
  {
    var s := segments[i];
    assert s.start <= s.end <= end && (i < |segments| - 1 ==> s.end <= segments[i + 1].start);
    RoundingIsMonotone(offset, offset + cut.original);
    RoundingIsMonotone(offset + cut.original, offset + cut.length);
    RoundingIsMonotone(offset + cut.length, offset + cut.length + SILENCE);
  }

  /** Start of segment `i` in original time; behind the last one, the end. */
  function StartOr(segments: seq<Speech>, i: nat, end: int): int {
    if i < |segments| then segments[i].start else end
  }

  /** The points that the rounds record. */
  ghost predicate AreRecorded(segments: seq<Speech>, cuts: seq<Cut>, lists: seq<seq<Point>>)
    requires |segments| == |cuts| == |lists|
  {
    forall k {:trigger IsRound(k, |cuts|)} :: IsRound(k, |cuts|) ==>
      && cuts[k].silence == (if k < |segments| - 1 then SILENCE else 0)
      && lists[k] == PointsOf(segments, cuts[k], k, OffsetAt(cuts, k))
  }

  lemma {:induction false} RecordedInOrder(segments: seq<Speech>, cuts: seq<Cut>, lists: seq<seq<Point>>, i: nat,
                                           end: int, n: nat)
    requires Apart(segments, end) && |segments| == |cuts| == |lists| && i <= |segments| && 0 <= end
    requires Inner(cuts, n) && AreRecorded(segments, cuts, lists)
    ensures Ordered(Joined(lists, i))
    ensures Within(Joined(lists, i), Point(0, 0), Point(SamplesToCs(OffsetAt(cuts, i)), StartOr(segments, i, end)))
  {
    if i == 0 {
      RoundingIsMonotone(0, OffsetAt(cuts, 0));
      assert Joined(lists, 0) == [];
    } else {
      assert IsRound(i - 1, |cuts|) && cuts[i - 1].original <= cuts[i - 1].length;
      RecordedInOrder(segments, cuts, lists, i - 1, end, n);
      RecordedNext(segments, cuts, lists[i - 1], Joined(lists, i - 1), i - 1, end);
      assert Joined(lists, i) == Joined(lists, i - 1) + lists[i - 1];
    }
  }

  lemma {:induction false} RecordedNext(segments: seq<Speech>, cuts: seq<Cut>, list: seq<Point>, before: seq<Point>,
                                        i: nat, end: int)
    requires Apart(segments, end) && |segments| == |cuts| && i < |segments| && 0 <= cuts[i].original <= cuts[i].length
    requires cuts[i].silence == (if i < |segments| - 1 then SILENCE else 0)
             && list == PointsOf(segments, cuts[i], i, OffsetAt(cuts, i))
    requires Ordered(before) && Within(before, Point(0, 0), Point(SamplesToCs(OffsetAt(cuts, i)), segments[i].start))
    ensures Ordered(before + list)
    ensures Within(before + list, Point(0, 0), Point(SamplesToCs(OffsetAt(cuts, i + 1)), StartOr(segments, i + 1, end)))
  {
    var mid := Point(SamplesToCs(OffsetAt(cuts, i)), segments[i].start);
    var high := Point(SamplesToCs(OffsetAt(cuts, i + 1)), StartOr(segments, i + 1, end));
    PointsOfOrdered(segments, cuts[i], i, OffsetAt(cuts, i), end);
    assert OffsetAt(cuts, i + 1) == OffsetAt(cuts, i) + Space(cuts[i]);
    RoundingIsMonotone(0, OffsetAt(cuts, i));
    OrderedAppend(before, list, Point(0, 0), mid, high);
  }

  /** Sorted by processed time, in any order among equal times. */
  ghost predicate ByProcessed(s: seq<Point>) {
    forall k, m :: 0 <= k < m < |s| ==> s[k].processed <= s[m].processed
  }

  /** Of neighbours with the same processed time the first stays. */
  function Unique(s: seq<Point>): seq<Point> {
    if |s| < 2 then s
    else
      var front := Unique(s[..|s| - 1]);
      if s[|s| - 2].processed == s[|s| - 1].processed then front else front + [s[|s| - 1]]
  }

  /** Whatever order the sort gives equal times, and whichever of them then stays. */
  ghost predicate IsTable(points: seq<Point>, table: seq<Point>) {
    exists s :: multiset(s) == multiset(points) && ByProcessed(s) && table == Unique(s)
  }

  /** What the search and the interpolation need. */
  ghost predicate Increasing(table: seq<Point>) {
    forall k, m :: 0 <= k < m < |table| ==>
      table[k].processed < table[m].processed && table[k].original <= table[m].original
  }

  ghost predicate StrictlyByProcessed(table: seq<Point>) {
    forall k, m :: 0 <= k < m < |table| ==> table[k].processed < table[m].processed
  }

  ghost predicate HasTime(table: seq<Point>, time: int) {
    exists k :: 0 <= k < |table| && table[k].processed == time
  }

  /** The entries come from `s`, and every processed time of `s` has one. */
  ghost predicate Represents(table: seq<Point>, s: seq<Point>) {
    && (forall k :: 0 <= k < |table| ==> table[k] in s)
    && forall k :: 0 <= k < |s| ==> HasTime(table, s[k].processed)
  }

  lemma {:induction false} UniqueOrdered(s: seq<Point>)
    requires ByProcessed(s) && s != []
    ensures StrictlyByProcessed(Unique(s)) && Unique(s) != []
    ensures Unique(s)[|Unique(s)| - 1].processed == s[|s| - 1].processed
  {
    if |s| >= 2 {
      UniqueOrdered(s[..|s| - 1]);
    }
  }

  lemma {:induction false} HasTimeAppend(table: seq<Point>, p: Point, time: int)
    ensures HasTime(table + [p], time) <==> HasTime(table, time) || p.processed == time
  {
    var longer := table + [p];
    assert longer[|table|] == p;
    if HasTime(table, time) {
      var k :| 0 <= k < |table| && table[k].processed == time;
      assert longer[k].processed == time;
    }
  }

  lemma {:induction false} UniqueRepresents(s: seq<Point>)
    ensures Represents(Unique(s), s)
  {
    if |s| >= 2 {
      var front, last := s[..|s| - 1], s[|s| - 1];
      UniqueRepresents(front);
      var u := Unique(front);
      forall k | 0 <= k < |s|
        ensures HasTime(Unique(s), s[k].processed)
      {
        HasTimeAppend(u, last, s[k].processed);
        assert HasTime(u, front[if k < |front| then k else |front| - 1].processed);
      }
      forall k | 0 <= k < |Unique(s)|
        ensures Unique(s)[k] in s
      {
        assert k < |u| ==> u[k] in front;
      }
    }
  }

  lemma {:induction false} PairOrdered(points: seq<Point>, a: Point, b: Point)
    requires Ordered(points) && a in points && b in points && a.processed < b.processed
    ensures a.original <= b.original
  {
  }

  lemma {:induction false} SameMembers(s: seq<Point>, t: seq<Point>)
    requires multiset(s) == multiset(t)
    ensures |s| == |t| && forall p :: p in s <==> p in t
  {
    assert |s| == |multiset(s)| && |t| == |multiset(t)|;
    forall p
      ensures p in s <==> p in t
    {
      assert p in multiset(s) <==> p in multiset(t);
    }
  }

  /**
   Whichever tie the sort and the removal keep, the table rises in processed time and never falls in original time.
   */
  lemma {:induction false} TableIncreasing(points: seq<Point>, table: seq<Point>)
    requires Ordered(points) && IsTable(points, table)
    ensures Increasing(table) && (points != [] ==> table != []) && Represents(table, points)
  {
    var s :| multiset(s) == multiset(points) && ByProcessed(s) && table == Unique(s);
    SameMembers(s, points);
    UniqueRepresents(s);
    if s != [] {
      UniqueOrdered(s);
    }
    forall k, m | 0 <= k < m < |table|
      ensures table[k].processed < table[m].processed && table[k].original <= table[m].original
    {
      PairOrdered(points, table[k], table[m]);
    }
    forall k | 0 <= k < |points|
      ensures HasTime(table, points[k].processed)
    {
      assert points[k] in s;
      var i :| 0 <= i < |s| && s[i] == points[k];
    }
  }

  method RemoveDuplicates(s: seq<Point>) returns (table: seq<Point>)
    requires ByProcessed(s)
    ensures table == Unique(s)
  {
    table := [];
    for i := 0 to |s|
      invariant table == Unique(s[..i]) && (i > 0 <==> table != [])
      invariant i > 0 ==> table[|table| - 1].processed == s[i - 1].processed
    {
      assert s[..i + 1][..i] == s[..i];
      if i == 0 || table[|table| - 1].processed != s[i].processed {
        table := table + [s[i]];
      }
    }
    assert s[..|s|] == s;
  }

  // ---------------------------------------------------------------------------------------------
  // Mapping back
  // ---------------------------------------------------------------------------------------------

  /** Linear interpolation with the integer division of C++, whose operands are never negative here. */
  function Interpolated(lower: Point, upper: Point, time: int): int
    requires lower.processed < upper.processed
  {
    var offset, originalDiff := time - lower.processed, upper.original - lower.original;
    lower.original + (offset * originalDiff) / (upper.processed - lower.processed)
  }

  /** The first entry at or behind `time`. */
  function LowerBound(table: seq<Point>, time: int, from: nat): (i: nat)
    requires from <= |table|
    ensures from <= i <= |table| && (i < |table| ==> table[i].processed >= time)
    ensures forall k :: from <= k < i ==> table[k].processed < time
    decreases |table| - from
  {
    if from == |table| || table[from].processed >= time then from else LowerBound(table, time, from + 1)
  }

  ghost function Mapped(table: seq<Point>, time: int): int
    requires Increasing(table)
  {
    if table == [] then time
    else if time <= table[0].processed then table[0].original
    else if time >= table[|table| - 1].processed then table[|table| - 1].original
    else
      var i := LowerBound(table, time, 0);
      if table[i].processed == time then table[i].original else Interpolated(table[i - 1], table[i], time)
  }

  /** On the line through two points, less what an integer division cuts off. */
  predicate OnLine(lower: Point, upper: Point, time: int, original: int) {
    var d, x := upper.processed - lower.processed, (time - lower.processed) * (upper.original - lower.original);
    x - d < d * (original - lower.original) <= x
  }

  predicate IsBetween(table: seq<Point>, time: int, i: int) {
    0 < i < |table| && table[i - 1].processed <= time <= table[i].processed
  }

  lemma {:induction false} InterpolatedOnLine(lower: Point, upper: Point, time: int)
    requires lower.processed < upper.processed
    ensures OnLine(lower, upper, time, Interpolated(lower, upper, time))
  {
    var d, x := upper.processed - lower.processed, (time - lower.processed) * (upper.original - lower.original);
    assert x == d * (x / d) + x % d;
  }

  /** Between neighbours the map is the line through them. */
  lemma {:induction false} MappedLinear(table: seq<Point>, time: int, i: nat)
    requires Increasing(table) && IsBetween(table, time, i)
    ensures OnLine(table[i - 1], table[i], time, Mapped(table, time))
  {
    MappedBetween(table, time, i);
    InterpolatedOnLine(table[i - 1], table[i], time);
  }

  method MapProcessedToOriginal(time: int, table: seq<Point>) returns (original: int)
    requires Increasing(table)
    ensures original == Mapped(table, time)
    ensures forall i {:trigger IsBetween(table, time, i)} :: IsBetween(table, time, i) ==>
              OnLine(table[i - 1], table[i], time, original)
    ensures table != [] && time <= table[0].processed ==> original == table[0].original
    ensures table != [] && time >= table[|table| - 1].processed ==> original == table[|table| - 1].original
  {
    forall i | IsBetween(table, time, i)
      ensures OnLine(table[i - 1], table[i], time, Mapped(table, time))
    {
      MappedLinear(table, time, i);
    }
    if |table| == 0 {
      return time;
    }
    if time <= table[0].processed {
      return table[0].original;
    }
    if time >= table[|table| - 1].processed {
      return table[|table| - 1].original;
    }
    var first, count := 0, |table|;
    while count > 0
      invariant 0 <= first <= first + count <= |table|
      invariant forall k :: 0 <= k < first ==> table[k].processed < time
      invariant forall k :: first + count <= k < |table| ==> table[k].processed >= time
      decreases count
    {
      var half := count / 2;
      if table[first + half].processed < time {
        first, count := first + half + 1, count - half - 1;
      } else {
        count := half;
      }
    }
    FoundAt(table, time, first);
    if table[first].processed == time {
      return table[first].original;
    }
    var lower, upper := table[first - 1], table[first];
    original := Interpolated(lower, upper, time);
  }

  lemma {:induction false} InterpolatedBetween(lower: Point, upper: Point, time: int, later: int)
    requires lower.processed <= time <= later <= upper.processed && lower.processed < upper.processed
             && lower.original <= upper.original
    ensures lower.original <= Interpolated(lower, upper, time) <= Interpolated(lower, upper, later) <= upper.original
  {
    var d, o := upper.processed - lower.processed, upper.original - lower.original;
    var x, y := time - lower.processed, later - lower.processed;
    ProductMonotone(x, y, o);
    ProductMonotone(y, d, o);
    DivideMonotone(x * o, y * o, d);
    DivideMonotone(y * o, d * o, d);
    QuotientOf(d, o);
  }

  /** Between two neighbours every answer is interpolated; at the neighbours themselves that is exact. */
  lemma {:induction false} MappedBetween(table: seq<Point>, time: int, i: nat)
    requires Increasing(table) && 0 < i < |table| && table[i - 1].processed <= time <= table[i].processed
    ensures Mapped(table, time) == Interpolated(table[i - 1], table[i], time)
  {
    var lower, upper := table[i - 1], table[i];
    InterpolatedEnds(lower, upper);
    assert i > 1 ==> table[0].processed < lower.processed;
    assert i < |table| - 1 ==> upper.processed < table[|table| - 1].processed;
    if table[0].processed < time < table[|table| - 1].processed {
      FoundAt(table, time, if time == lower.processed then i - 1 else i);
    }
  }

  lemma {:induction false} InterpolatedEnds(lower: Point, upper: Point)
    requires lower.processed < upper.processed && lower.original <= upper.original
    ensures Interpolated(lower, upper, lower.processed) == lower.original
    ensures Interpolated(lower, upper, upper.processed) == upper.original
  {
    QuotientOf(upper.processed - lower.processed, upper.original - lower.original);
  }

  lemma {:induction false} FoundAt(table: seq<Point>, time: int, i: nat)
    requires Increasing(table) && i < |table| && time <= table[i].processed && (i > 0 ==> table[i - 1].processed < time)
    ensures LowerBound(table, time, 0) == i
  {
  }

  /** The segment of the table that holds `time`. */
  lemma {:induction false} Locate(table: seq<Point>, time: int) returns (i: nat)
    requires Increasing(table) && |table| > 0 && table[0].processed < time < table[|table| - 1].processed
    ensures 0 < i < |table| && table[i - 1].processed < time <= table[i].processed
  {
    i := LowerBound(table, time, 0);
    assert i > 0 ==> table[i - 1].processed < time;
  }

  /** Exact at the table's points. */
  lemma {:induction false} MappedExact(table: seq<Point>, i: nat)
    requires Increasing(table) && i < |table|
    ensures Mapped(table, table[i].processed) == table[i].original
  {
  }

  /** Between the first and the last original time. */
  lemma {:induction false} MappedBounded(table: seq<Point>, time: int)
    requires Increasing(table) && |table| > 0
    ensures table[0].original <= Mapped(table, time) <= table[|table| - 1].original
  {
    assert |table| > 1 ==> table[0].original <= table[|table| - 1].original;
    if table[0].processed < time < table[|table| - 1].processed {
      var i := Locate(table, time);
      MappedBetween(table, time, i);
      InterpolatedBetween(table[i - 1], table[i], time, time);
      assert i > 1 ==> table[0].original <= table[i - 1].original;
      assert i < |table| - 1 ==> table[i].original <= table[|table| - 1].original;
    }
  }

  /** Later processed times never map to earlier original times. */
  lemma {:induction false} MappedMonotone(table: seq<Point>, time: int, later: int)
    requires Increasing(table) && time <= later
    ensures Mapped(table, time) <= Mapped(table, later)
  {
    if |table| == 0 {
      return;
    }
    MappedBounded(table, time);
    MappedBounded(table, later);
    if table[0].processed < time && later < table[|table| - 1].processed {
      var i := Locate(table, time);
      var j := Locate(table, later);
      MappedBetween(table, time, i);
      MappedBetween(table, later, j);
      if i == j {
        InterpolatedBetween(table[i - 1], table[i], time, later);
      } else {
        assert i < j;
        InterpolatedBetween(table[i - 1], table[i], time, time);
        InterpolatedBetween(table[j - 1], table[j], later, later);
        assert i < j - 1 ==> table[i].original <= table[j - 1].original;
      }
    }
  }

  /** The points recorded for any sorted segments, between 0 and the end. */
  lemma {:induction false} PointsInOrder(segments: seq<Speech>, overlap: nat, n: nat, end: int) returns (high: Point)
    requires Apart(segments, end) && 0 <= end && n > 0
    ensures var points := Joined(Points(segments, Cuts(segments, overlap, n)), |segments|);
            Ordered(points) && Within(points, Point(0, 0), high) && high.original == end
  {
    var cuts := Cuts(segments, overlap, n);
    CutsInner(segments, overlap, n, end);
    RecordedInOrder(segments, cuts, Points(segments, cuts), |segments|, end, n);
    high := Point(SamplesToCs(OffsetAt(cuts, |segments|)), end);
  }

  lemma {:induction false} TableWithin(points: seq<Point>, table: seq<Point>, low: Point, high: Point)
    requires Within(points, low, high) && Represents(table, points)
    ensures Within(table, low, high)
  {
  }

  /** The table increases, and the mapping keeps the order and stays within the audio. */
  ghost predicate MapsInto(table: seq<Point>, end: int) {
    && Increasing(table)
    && forall time, later :: time <= later ==>
         Mapped(table, time) <= Mapped(table, later) && (table != [] ==> 0 <= Mapped(table, time) <= end)
  }

  /** All of it together, for the table built from any sorted segments. */
  lemma {:induction false} BuiltTableMaps(segments: seq<Speech>, cuts: seq<Cut>, overlap: nat, n: nat, end: int,
                                          table: seq<Point>)
    requires Apart(segments, end) && 0 <= end && n > 0 && cuts == Cuts(segments, overlap, n)
    ensures IsTable(Joined(Points(segments, cuts), |segments|), table) ==> MapsInto(table, end)
  {
    var points := Joined(Points(segments, cuts), |segments|);
    if IsTable(points, table) {
      var high := PointsInOrder(segments, overlap, n, end);
      TableIncreasing(points, table);
      TableWithin(points, table, Point(0, 0), high);
      forall time, later | time <= later
        ensures Mapped(table, time) <= Mapped(table, later) && (table != [] ==> 0 <= Mapped(table, time) <= end)
      {
        MappedMonotone(table, time, later);
        if table != [] {
          MappedBounded(table, time);
          assert Below(Point(0, 0), table[0]) && Below(table[|table| - 1], high);
        }
      }
    }
  }
}
