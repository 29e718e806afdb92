/**
 From detected speech to the final segments: merging close segments, dropping short ones, padding, rounding to
 centiseconds, and cutting the samples out.
 */
module VadSegments {
  import opened Arithmetic
  import opened VadDetect
  import Sequences

  /** Gaps below 200 ms are closed. */
  const MAX_MERGE_GAP := 3200

  const SAMPLES_PER_CS := 160

  // ---------------------------------------------------------------------------------------------
  // Merging
  // ---------------------------------------------------------------------------------------------

  predicate Inside(s: seq<Speech>, k: int, x: int) {
    0 <= k < |s| && s[k].start <= x < s[k].end
  }

  ghost predicate InSome(s: seq<Speech>, x: int) {
    exists k :: Inside(s, k, x)
  }

  predicate CloseGap(s: seq<Speech>, k: int) {
    0 <= k < |s| - 1 && s[k + 1].start - s[k].end < MAX_MERGE_GAP
  }

  predicate InsideGap(s: seq<Speech>, k: int, x: int) {
    CloseGap(s, k) && s[k].end <= x < s[k + 1].start
  }

  /** Sample `x` lies in a segment, or in a gap that is to be closed. */
  ghost predicate InEither(s: seq<Speech>, x: int) {
    exists k :: Inside(s, k, x) || InsideGap(s, k, x)
  }

  function MergedAt(s: seq<Speech>, i: int): seq<Speech>
    requires 0 <= i < |s| - 1
  {
    seq(|s| - 1, (k: nat) requires k < |s| - 1 =>
      if k < i then s[k] else if k == i then Speech(s[i].start, s[i + 1].end) else s[k + 1])
  }

  lemma {:induction false} MergeApart(s: seq<Speech>, i: int, end: int)
    requires 0 <= i < |s| - 1 && Apart(s, end)
    ensures Apart(MergedAt(s, i), end)
  {
  }

  /** Away from the merged pair, segments and gaps only shift. */
  lemma {:induction false} Shifted(s: seq<Speech>, i: int, k: int, x: int)
    requires 0 <= i < |s| - 1
    ensures k < i ==> Inside(MergedAt(s, i), k, x) == Inside(s, k, x)
    ensures k < i ==> InsideGap(MergedAt(s, i), k, x) == InsideGap(s, k, x)
    ensures k > i ==> Inside(MergedAt(s, i), k, x) == Inside(s, k + 1, x)
    ensures k >= i ==> InsideGap(MergedAt(s, i), k, x) == InsideGap(s, k + 1, x)
  {
  }

  /** The merged segment takes in both segments and the gap between them. */
  lemma {:induction false} JoinedPair(s: seq<Speech>, i: int, end: int, x: int)
    requires 0 <= i < |s| - 1 && Apart(s, end) && CloseGap(s, i)
    ensures Inside(MergedAt(s, i), i, x) == (Inside(s, i, x) || InsideGap(s, i, x) || Inside(s, i + 1, x))
  {
  }

  lemma {:induction false} MergeKeepsSample(s: seq<Speech>, i: int, end: int, x: int)
    requires 0 <= i < |s| - 1 && Apart(s, end) && CloseGap(s, i)
    ensures InEither(s, x) ==> InEither(MergedAt(s, i), x)
  {
    if InEither(s, x) {
      var k :| Inside(s, k, x) || InsideGap(s, k, x);
      JoinedPair(s, i, end, x);
      Shifted(s, i, if k < i then k else k - 1, x);
    }
  }

  lemma {:induction false} MergeAddsNone(s: seq<Speech>, i: int, end: int, x: int)
    requires 0 <= i < |s| - 1 && Apart(s, end) && CloseGap(s, i)
    ensures InEither(MergedAt(s, i), x) ==> InEither(s, x)
  {
    if InEither(MergedAt(s, i), x) {
      var k :| Inside(MergedAt(s, i), k, x) || InsideGap(MergedAt(s, i), k, x);
      JoinedPair(s, i, end, x);
      Shifted(s, i, k, x);
    }
  }

  ghost predicate FillsCloseGaps(s: seq<Speech>, merged: seq<Speech>) {
    forall x {:trigger InSome(merged, x)} :: InSome(merged, x) <==> InEither(s, x)
  }

  ghost predicate NoneClose(s: seq<Speech>) {
    forall k :: !CloseGap(s, k)
  }

  ghost predicate AllInside(s: seq<Speech>, outer: seq<Speech>) {
    forall k {:trigger s[k]} :: 0 <= k < |s| ==> Covered(outer, s[k].start, s[k].end)
  }

  lemma {:induction false} MergeCovers(s: seq<Speech>, first: seq<Speech>, i: int, end: int)
    requires 0 <= i < |s| - 1 && Apart(s, end)
    requires AllInside(first, s)
    ensures AllInside(first, MergedAt(s, i))
  {
    var m := MergedAt(s, i);
    forall k | 0 <= k < |first|
      ensures Covered(m, first[k].start, first[k].end)
    {
      var j :| 0 <= j < |s| && Contains(s[j], first[k].start, first[k].end);
      assert Contains(m[if j <= i then j else j - 1], first[k].start, first[k].end);
    }
  }

  /** Merging from segment `i` on; a merged segment is looked at again. */
  function Merged(s: seq<Speech>, i: nat): seq<Speech>
    decreases |s| - i
  {
    if i + 1 >= |s| then s
    else if CloseGap(s, i) then Merged(MergedAt(s, i), i)
    else Merged(s, i + 1)
  }

  /** What holds while `s` is what the segments `first` have become. */
  ghost predicate Merging(first: seq<Speech>, s: seq<Speech>, i: int, end: int) {
    && Apart(s, end) && AllInside(first, s)
    && (forall k :: k < i ==> !CloseGap(s, k))
    && forall x :: InEither(s, x) <==> InEither(first, x)
  }

  lemma {:induction false} MergingNext(first: seq<Speech>, s: seq<Speech>, i: nat, end: int)
    requires Merging(first, s, i, end) && CloseGap(s, i)
    ensures Merging(first, MergedAt(s, i), i, end)
  {
    MergeApart(s, i, end);
    MergeCovers(s, first, i, end);
    forall x
      ensures InEither(MergedAt(s, i), x) <==> InEither(s, x)
    {
      MergeKeepsSample(s, i, end, x);
      MergeAddsNone(s, i, end, x);
    }
    forall k | k < i
      ensures !CloseGap(MergedAt(s, i), k)
    {
      assert !CloseGap(s, k);
    }
  }

  lemma {:induction false} MergedIsMerging(first: seq<Speech>, s: seq<Speech>, i: nat, end: int)
    requires Merging(first, s, i, end)
    ensures Merging(first, Merged(s, i), |Merged(s, i)|, end)
    decreases |s| - i
  {
    if i + 1 < |s| {
      if CloseGap(s, i) {
        MergingNext(first, s, i, end);
        MergedIsMerging(first, MergedAt(s, i), i, end);
      } else {
        MergedIsMerging(first, s, i + 1, end);
      }
    }
  }

  /** A sample is in a merged segment exactly if it was in a segment or in a gap below 200 ms between two. */
  lemma {:induction false} MergedOk(s: seq<Speech>, end: int)
    requires Apart(s, end)
    ensures Apart(Merged(s, 0), end) && NoneClose(Merged(s, 0))
    ensures FillsCloseGaps(s, Merged(s, 0)) && AllInside(s, Merged(s, 0))
  {
    assert AllInside(s, s) by {
      forall k | 0 <= k < |s|
        ensures Covered(s, s[k].start, s[k].end)
      {
        assert Contains(s[k], s[k].start, s[k].end);
      }
    }
    MergedIsMerging(s, s, 0, end);
    NoneCloseLeft(s, Merged(s, 0), end);
  }

  lemma {:induction false} NoneCloseLeft(first: seq<Speech>, m: seq<Speech>, end: int)
    requires Merging(first, m, |m|, end)
    ensures NoneClose(m) && FillsCloseGaps(first, m)
  {
    assert NoneClose(m) by {
      forall k
        ensures !CloseGap(m, k)
      {
      }
    }
    forall x
      ensures InSome(m, x) <==> InEither(first, x)
    {
      OnlySegments(m, x);
      assert InEither(m, x) <==> InEither(first, x);
    }
  }

  lemma {:induction false} OnlySegments(m: seq<Speech>, x: int)
    requires NoneClose(m)
    ensures InSome(m, x) <==> InEither(m, x)
  {
    if InSome(m, x) {
      var k :| Inside(m, k, x);
    }
    if InEither(m, x) {
      var k :| Inside(m, k, x) || InsideGap(m, k, x);
      assert !CloseGap(m, k);
    }
  }

  /** Starts and ends of merged segments are those of segments. */
  lemma {:induction false} MergedEnds(s: seq<Speech>, i: nat, k: nat) returns (first: nat, last: nat)
    requires k < |Merged(s, i)|
    ensures first < |s| && Merged(s, i)[k].start == s[first].start
    ensures last < |s| && Merged(s, i)[k].end == s[last].end
    decreases |s| - i
  {
    first, last := k, k;
    if i + 1 < |s| {
      if CloseGap(s, i) {
        first, last := MergedEnds(MergedAt(s, i), i, k);
        first, last := if first <= i then first else first + 1, if last < i then last else last + 1;
      } else {
        first, last := MergedEnds(s, i + 1, k);
      }
    }
  }

  method MergeClose(speeches: seq<Speech>) returns (s: seq<Speech>)
    ensures s == Merged(speeches, 0)
  {
    s := speeches;
    var i := 0;
    while i < |s| - 1
      invariant 0 <= i && Merged(s, i) == Merged(speeches, 0)
      decreases |s| - i
    {
      if s[i + 1].start - s[i].end < MAX_MERGE_GAP {
        ghost var before := s;
        s := s[i := s[i].(end := s[i + 1].end)];
        s := s[..i + 1] + s[i + 2..];
        assert s == MergedAt(before, i);
      } else {
        i := i + 1;
      }
    }
  }

  // ---------------------------------------------------------------------------------------------
  // Dropping
  // ---------------------------------------------------------------------------------------------

  predicate LongEnough(s: Speech, minSpeech: int) {
    s.end - s.start >= minSpeech
  }

  function Kept(s: seq<Speech>, minSpeech: int): seq<Speech> {
    if s == [] then []
    else
      var last := s[|s| - 1];
      Kept(s[..|s| - 1], minSpeech) + if LongEnough(last, minSpeech) then [last] else []
  }

  lemma {:induction false} KeptMembers(s: seq<Speech>, minSpeech: int, x: Speech)
    ensures x in Kept(s, minSpeech) <==> x in s && LongEnough(x, minSpeech)
  {
    if s != [] {
      KeptMembers(s[..|s| - 1], minSpeech, x);
      assert s == s[..|s| - 1] + [s[|s| - 1]];
    }
  }

  lemma {:induction false} KeptApart(s: seq<Speech>, minSpeech: int, end: int)
    requires Apart(s, end)
    ensures Apart(Kept(s, minSpeech), end)
  {
    if s != [] {
      var front, last := s[..|s| - 1], s[|s| - 1];
      FrontApart(s, end);
      KeptApart(front, minSpeech, last.start);
      if LongEnough(last, minSpeech) {
        ApartPush(Kept(front, minSpeech), last.start, last.start, last.end);
      }
      Widen(Kept(s, minSpeech), if LongEnough(last, minSpeech) then last.end else last.start, end);
    }
  }

  lemma {:induction false} FrontApart(s: seq<Speech>, end: int)
    requires s != [] && Apart(s, end)
    ensures Apart(s[..|s| - 1], s[|s| - 1].start)
  {
  }

  lemma {:induction false} Widen(s: seq<Speech>, end: int, more: int)
    requires Apart(s, end) && end <= more
    ensures Apart(s, more)
  {
  }

  lemma {:induction false} KeepsAll(s: seq<Speech>, minSpeech: int)
    requires forall k :: 0 <= k < |s| ==> LongEnough(s[k], minSpeech)
    ensures Kept(s, minSpeech) == s
  {
    if s != [] {
      KeepsAll(s[..|s| - 1], minSpeech);
      assert s == s[..|s| - 1] + [s[|s| - 1]];
    }
  }

  method DropShort(speeches: seq<Speech>, minSpeech: int) returns (s: seq<Speech>)
    ensures s == Kept(speeches, minSpeech)
  {
    s := speeches;
    ghost var done := 0;
    var i := 0;
    while i < |s|
      invariant 0 <= i <= |s| && done <= |speeches| && |s| - i == |speeches| - done
      invariant s[..i] == Kept(speeches[..done], minSpeech) && s[i..] == speeches[done..]
      decreases |s| - i
    {
      assert speeches[..done + 1][..done] == speeches[..done] && s[i] == speeches[done];
      done := done + 1;
      if s[i].end - s[i].start < minSpeech {
        s := s[..i] + s[i + 1..];
      } else {
        assert s[..i + 1] == s[..i] + [s[i]];
        i := i + 1;
      }
    }
    assert speeches[..done] == speeches && s[..i] == s;
  }

  // ---------------------------------------------------------------------------------------------
  // Padding
  // ---------------------------------------------------------------------------------------------

  /** How far two neighbours grow into the gap between them. */
  function Share(gap: int, pad: nat): int {
    if gap < 2 * pad then gap / 2 else pad
  }

  function PaddedStart(s: seq<Speech>, pad: nat, k: int): int
    requires 0 <= k < |s|
  {
    if k == 0 then Max(0, s[0].start - pad) else s[k].start - Share(s[k].start - s[k - 1].end, pad)
  }

  function PaddedEnd(s: seq<Speech>, pad: nat, audio: int, k: int): int
    requires 0 <= k < |s|
  {
    if k == |s| - 1 then Min(audio, s[k].end + pad) else s[k].end + Share(s[k + 1].start - s[k].end, pad)
  }

  ghost predicate IsPadded(s: seq<Speech>, p: seq<Speech>, pad: nat, audio: int) {
    |p| == |s| && forall k :: 0 <= k < |s| ==> p[k] == Speech(PaddedStart(s, pad, k), PaddedEnd(s, pad, audio, k))
  }

  /** Every segment grows by the padding, but neighbours share the gap between them. */
  function Padded(s: seq<Speech>, pad: nat, audio: int): seq<Speech> {
    seq(|s|, (k: nat) requires k < |s| => Speech(PaddedStart(s, pad, k), PaddedEnd(s, pad, audio, k)))
  }

  /** Segment `k` before round `i`: padded, or only its start moved, or untouched. */
  function PaddedBy(s: seq<Speech>, pad: nat, audio: int, i: int, k: int): Speech
    requires 0 <= k < |s|
  {
    if k < i then Speech(PaddedStart(s, pad, k), PaddedEnd(s, pad, audio, k))
    else if k == i && k > 0 then Speech(PaddedStart(s, pad, k), s[k].end)
    else s[k]
  }

  ghost predicate PaddedUpTo(s: seq<Speech>, p: seq<Speech>, pad: nat, audio: int, i: int) {
    |p| == |s| && forall k :: 0 <= k < |s| ==> p[k] == PaddedBy(s, pad, audio, i, k)
  }

  /** The end of segment `i` and the start of the next one. */
  method PadOne(s: seq<Speech>, end: int, nextStart: int, pad: nat, audio: int, i: nat)
    returns (newEnd: int, newStart: int)
    requires Apart(s, audio) && i < |s| && end == s[i].end && (i + 1 < |s| ==> nextStart == s[i + 1].start)
    ensures newEnd == PaddedEnd(s, pad, audio, i) && (i + 1 < |s| ==> newStart == PaddedStart(s, pad, i + 1))
  {
    newStart := nextStart;
    if i < |s| - 1 {
      var silence := nextStart - end;
      assert s[i].end <= s[i + 1].start <= s[i + 1].end <= audio && s[i].start >= 0;
      if silence < 2 * pad {
        newEnd := end + silence / 2;
        newStart := if nextStart > silence / 2 then nextStart - silence / 2 else 0;
      } else {
        newEnd := if end + pad < audio then end + pad else audio;
        newStart := if nextStart > pad then nextStart - pad else 0;
      }
    } else {
      newEnd := if end + pad < audio then end + pad else audio;
    }
  }

  method Pad(speeches: seq<Speech>, pad: nat, audio: int) returns (s: seq<Speech>)
    requires Apart(speeches, audio)
    ensures s == Padded(speeches, pad, audio)
  {
    s := speeches;
    for i := 0 to |speeches|
      invariant PaddedUpTo(speeches, s, pad, audio, i)
    {
      assert s[i] == PaddedBy(speeches, pad, audio, i, i);
      assert i + 1 < |s| ==> s[i + 1] == PaddedBy(speeches, pad, audio, i, i + 1) == speeches[i + 1];
      var start := if i == 0 then (if s[i].start > pad then s[i].start - pad else 0) else s[i].start;
      var end, nextStart := PadOne(speeches, s[i].end, if i + 1 < |s| then s[i + 1].start else 0, pad, audio, i);
      s := s[i := Speech(start, end)];
      if i < |s| - 1 {
        s := s[i + 1 := s[i + 1].(start := nextStart)];
      }
    }
  }

  /** Padded segments only grow, by at most the padding, and stay apart and inside the audio. */
  lemma {:induction false} PaddedApart(s: seq<Speech>, p: seq<Speech>, pad: nat, audio: int)
    requires Apart(s, audio) && IsPadded(s, p, pad, audio)
    ensures Apart(p, audio)
    ensures forall k :: 0 <= k < |s| ==>
            s[k].start - pad <= p[k].start <= s[k].start && s[k].end <= p[k].end <= s[k].end + pad
  {
    forall k | 0 <= k < |s|
      ensures PadFits(s, p, pad, audio, k)
    {
      PadOneFits(s, p, pad, audio, k);
    }
    FitsApart(s, p, pad, audio);
  }

  lemma {:induction false} FitsApart(s: seq<Speech>, p: seq<Speech>, pad: nat, audio: int)
    requires |s| == |p| && forall i {:trigger PadFits(s, p, pad, audio, i)} :: 0 <= i < |p| ==>
             PadFits(s, p, pad, audio, i)
    ensures Apart(p, audio)
    ensures forall k :: 0 <= k < |s| ==>
            s[k].start - pad <= p[k].start <= s[k].start && s[k].end <= p[k].end <= s[k].end + pad
  {
    forall k, m | 0 <= k < m < |p|
      ensures p[k].end <= p[m].start
    {
      NextFirst(s, p, pad, audio, k, m);
    }
    forall k | 0 <= k < |p|
      ensures 0 <= p[k].start <= p[k].end <= audio
      ensures s[k].start - pad <= p[k].start <= s[k].start && s[k].end <= p[k].end <= s[k].end + pad
    {
      assert PadFits(s, p, pad, audio, k);
    }
  }

  ghost predicate PadFits(s: seq<Speech>, p: seq<Speech>, pad: nat, audio: int, k: int)
    requires |s| == |p| && 0 <= k < |s|
  {
    && 0 <= p[k].start && s[k].start - pad <= p[k].start <= s[k].start
    && s[k].end <= p[k].end <= s[k].end + pad && p[k].end <= audio
    && p[k].start <= p[k].end
    && (k > 0 ==> p[k - 1].end <= p[k].start)
  }

  lemma {:induction false} PadOneFits(s: seq<Speech>, p: seq<Speech>, pad: nat, audio: int, k: int)
    requires Apart(s, audio) && IsPadded(s, p, pad, audio) && 0 <= k < |s|
    ensures PadFits(s, p, pad, audio, k)
  {
  }

  lemma {:induction false} NextFirst(s: seq<Speech>, p: seq<Speech>, pad: nat, audio: int, k: int, m: int)
    requires |s| == |p| && 0 <= k < m < |p|
    requires forall i {:trigger PadFits(s, p, pad, audio, i)} :: 0 <= i < |p| ==> PadFits(s, p, pad, audio, i)
    ensures p[k].end <= p[m].start
    decreases m
  {
    assert PadFits(s, p, pad, audio, m);
    if k < m - 1 {
      NextFirst(s, p, pad, audio, k, m - 1);
      assert PadFits(s, p, pad, audio, m - 1);
    }
  }

  /** Sample `x` is at most `pad` samples before segment `k`, and nearer to it than to the segment before. */
  predicate Precedes(s: seq<Speech>, pad: nat, k: nat, x: int)
    requires k < |s|
  {
    0 < s[k].start - x <= pad && (k > 0 ==> s[k].start - x < x - s[k - 1].end + 1)
  }

  /** Sample `x` is at most `pad` samples behind segment `k`, and nearer to it than to the segment behind. */
  predicate Trails(s: seq<Speech>, pad: nat, k: nat, x: int)
    requires k < |s|
  {
    0 < x - s[k].end + 1 <= pad && (k + 1 < |s| ==> x - s[k].end + 1 < s[k + 1].start - x)
  }

  /** Padding adds to a segment exactly the samples near it that are nearer to it than to its neighbours. */
  lemma {:induction false} PaddedHolds(s: seq<Speech>, pad: nat, audio: int, k: nat, x: int)
    requires Apart(s, audio) && k < |s| && 0 <= x < audio
    ensures Inside(Padded(s, pad, audio), k, x) <==> Inside(s, k, x) || Precedes(s, pad, k, x) || Trails(s, pad, k, x)
  {
    if x < s[k].start {
      PaddedStartIs(s, pad, audio, k, x);
    } else if s[k].end <= x {
      PaddedEndIs(s, pad, audio, k, x);
    }
    PadOneFits(s, Padded(s, pad, audio), pad, audio, k);
    assert s[k].start <= s[k].end;
  }

  lemma {:induction false} PaddedStartIs(s: seq<Speech>, pad: nat, audio: int, k: nat, x: int)
    requires Apart(s, audio) && k < |s| && 0 <= x < s[k].start
    ensures PaddedStart(s, pad, k) <= x <==> Precedes(s, pad, k, x)
  {
    if k > 0 {
      var gap := s[k].start - s[k - 1].end;
      assert gap == 2 * (gap / 2) + gap % 2;
    }
  }

  lemma {:induction false} PaddedEndIs(s: seq<Speech>, pad: nat, audio: int, k: nat, x: int)
    requires Apart(s, audio) && k < |s| && s[k].end <= x < audio
    ensures x < PaddedEnd(s, pad, audio, k) <==> Trails(s, pad, k, x)
  {
    if k + 1 < |s| {
      var gap := s[k + 1].start - s[k].end;
      assert gap == 2 * (gap / 2) + gap % 2;
    }
  }

  /** Sample `x` is in segment `k`, or at most `pad` samples away from it. */
  predicate Reaches(s: seq<Speech>, pad: nat, k: int, x: int) {
    0 <= k < |s| && s[k].start - pad <= x < s[k].end + pad
  }

  /** Sample `x` is the middle one of an odd gap that the padding would fill. */
  predicate Middle(s: seq<Speech>, pad: nat, k: int, x: int) {
    0 <= k < |s| - 1 && s[k + 1].start - s[k].end < 2 * pad && s[k + 1].start - x == x - s[k].end + 1
  }

  ghost predicate InReach(s: seq<Speech>, pad: nat, x: int) {
    exists k :: Reaches(s, pad, k, x)
  }

  ghost predicate InMiddle(s: seq<Speech>, pad: nat, x: int) {
    exists k :: Middle(s, pad, k, x)
  }

  /** The gap that `x` is in, between segments `k` and `k + 1`; before the first one, or behind the last. */
  lemma {:induction false} FindGap(s: seq<Speech>, audio: int, x: int, n: nat) returns (k: int)
    requires Apart(s, audio) && n <= |s| && (n < |s| ==> x < s[n].start)
    requires forall m :: 0 <= m < n ==> !Inside(s, m, x)
    ensures -1 <= k < n && (k >= 0 ==> s[k].end <= x) && (k + 1 < |s| ==> x < s[k + 1].start)
  {
    if n == 0 {
      k := -1;
    } else if s[n - 1].end <= x {
      k := n - 1;
    } else {
      assert !Inside(s, n - 1, x);
      k := FindGap(s, audio, x, n - 1);
    }
  }

  /** Only the segments next to the gap can be nearer than their neighbours. */
  lemma {:induction false} GapOwner(s: seq<Speech>, pad: nat, audio: int, x: int, k: int, m: nat)
    requires Apart(s, audio) && -1 <= k < |s| && m < |s|
    requires (k >= 0 ==> s[k].end <= x) && (k + 1 < |s| ==> x < s[k + 1].start)
    ensures !Inside(s, m, x) && (Precedes(s, pad, m, x) ==> m == k + 1) && (Trails(s, pad, m, x) ==> m == k)
  {
    assert m < k ==> s[m].end <= s[m + 1].start <= s[m + 1].end <= s[k].end;
    assert m > k + 1 ==> s[k + 1].start <= s[k + 1].end <= s[m - 1].end <= s[m].start;
  }

  /** What lies in a gap is added exactly if it is near enough to one end, and not in the middle. */
  lemma {:induction false} GapFills(s: seq<Speech>, pad: nat, audio: int, x: int, k: int)
    requires Apart(s, audio) && 0 <= x < audio && -1 <= k < |s|
    requires (k >= 0 ==> s[k].end <= x) && (k + 1 < |s| ==> x < s[k + 1].start)
    ensures InSome(Padded(s, pad, audio), x) <==>
            (k >= 0 && Trails(s, pad, k, x)) || (k + 1 < |s| && Precedes(s, pad, k + 1, x))
  {
    var p := Padded(s, pad, audio);
    forall m: nat | m < |s|
      ensures Inside(p, m, x) <==> (m == k && Trails(s, pad, m, x)) || (m == k + 1 && Precedes(s, pad, m, x))
    {
      PaddedHolds(s, pad, audio, m, x);
      GapOwner(s, pad, audio, x, k, m);
    }
    if k >= 0 && Trails(s, pad, k, x) {
      assert Inside(p, k, x);
    }
    if k + 1 < |s| && Precedes(s, pad, k + 1, x) {
      assert Inside(p, k + 1, x);
    }
  }

  lemma {:induction false} GapReach(s: seq<Speech>, pad: nat, audio: int, x: int, k: int)
    requires Apart(s, audio) && 0 <= x < audio && -1 <= k < |s|
    requires (k >= 0 ==> s[k].end <= x) && (k + 1 < |s| ==> x < s[k + 1].start)
    ensures InReach(s, pad, x) <==> Reaches(s, pad, k, x) || Reaches(s, pad, k + 1, x)
    ensures InMiddle(s, pad, x) <==> Middle(s, pad, k, x)
  {
    forall m | Reaches(s, pad, m, x)
      ensures Reaches(s, pad, k, x) || Reaches(s, pad, k + 1, x)
    {
      assert m < k ==> s[m].end <= s[k].start <= s[k].end;
      assert m > k + 1 ==> s[k + 1].start <= s[k + 1].end <= s[m].start;
    }
    forall m
      ensures Middle(s, pad, m, x) ==> m == k
    {
      OnlyMiddle(s, pad, audio, x, k, m);
    }
  }

  lemma {:induction false} OnlyMiddle(s: seq<Speech>, pad: nat, audio: int, x: int, k: int, m: int)
    requires Apart(s, audio) && -1 <= k < |s|
    requires (k >= 0 ==> s[k].end <= x) && (k + 1 < |s| ==> x < s[k + 1].start)
    ensures Middle(s, pad, m, x) ==> m == k
  {
    assert 0 <= m < k ==> s[m + 1].start <= s[m + 1].end <= s[k].end;
    assert k < m < |s| ==> s[k + 1].start <= s[k + 1].end <= s[m].end;
  }

  lemma {:induction false} NoMiddleInside(s: seq<Speech>, pad: nat, audio: int, x: int, k: int, m: int)
    requires Apart(s, audio) && Inside(s, k, x)
    ensures !Middle(s, pad, m, x)
  {
    assert 0 <= m < k ==> s[m + 1].start <= s[k].start;
    assert k <= m < |s| ==> s[k].end <= s[m].end;
  }

  /**
   Padding covers exactly the samples of the audio that are in a segment or at most `pad` samples away from one, except
   the middle sample of an odd gap shorter than twice the padding.
   */
  lemma {:induction false} PaddingCovers(s: seq<Speech>, pad: nat, audio: int, x: int)
    requires Apart(s, audio) && 0 <= x < audio
    ensures InSome(Padded(s, pad, audio), x) <==> InReach(s, pad, x) && !InMiddle(s, pad, x)
  {
    if k :| Inside(s, k, x) {
      PaddedHolds(s, pad, audio, k, x);
      assert Inside(Padded(s, pad, audio), k, x) && Reaches(s, pad, k, x);
      forall m
        ensures !Middle(s, pad, m, x)
      {
        NoMiddleInside(s, pad, audio, x, k, m);
      }
    } else {
      var k := FindGap(s, audio, x, |s|);
      GapFills(s, pad, audio, x, k);
      GapReach(s, pad, audio, x, k);
    }
  }

  // ---------------------------------------------------------------------------------------------
  // Centiseconds, and the whole pass
  // ---------------------------------------------------------------------------------------------

  /** Rounds half up. */
  function SamplesToCs(n: int): (cs: int)
    ensures SAMPLES_PER_CS * cs - SAMPLES_PER_CS / 2 <= n < SAMPLES_PER_CS * cs + SAMPLES_PER_CS / 2
  {
    (n + SAMPLES_PER_CS / 2) / SAMPLES_PER_CS
  }

  lemma {:induction false} RoundingIsMonotone(a: int, b: int)
    requires a <= b
    ensures SamplesToCs(a) <= SamplesToCs(b)
  {
  }

  function InCs(s: Speech): Speech {
    Speech(SamplesToCs(s.start), SamplesToCs(s.end))
  }

  ghost predicate AreInCs(s: seq<Speech>, segments: seq<Speech>) {
    |segments| == |s| && forall k :: 0 <= k < |s| ==> segments[k] == InCs(s[k])
  }

  lemma {:induction false} RoundedSorted(s: seq<Speech>, segments: seq<Speech>, audio: int)
    requires Apart(s, audio) && AreInCs(s, segments)
    ensures Apart(segments, SamplesToCs(audio))
  {
  }

  /** Within the last centisecond of the audio, the second half is rounded up. */
  predicate RoundsUpAtEnd(e: int, audio: int) {
    e % SAMPLES_PER_CS >= SAMPLES_PER_CS / 2 && e / SAMPLES_PER_CS == audio / SAMPLES_PER_CS
  }

  /** A rounded end lies behind the audio exactly if it is rounded up within the audio's last centisecond. */
  lemma {:induction false} RoundedEndLeaves(e: int, audio: int)
    requires 0 <= e <= audio
    ensures SAMPLES_PER_CS * SamplesToCs(e) > audio <==> RoundsUpAtEnd(e, audio)
  {
    var q, last := e / SAMPLES_PER_CS, audio / SAMPLES_PER_CS;
    assert q <= last;
    assert SamplesToCs(e) == if e % SAMPLES_PER_CS >= SAMPLES_PER_CS / 2 then q + 1 else q;
  }

  /** Rounding keeps every end inside the audio exactly if the audio's own length is not rounded up. */
  lemma {:induction false} RoundingStaysExactlyIf(audio: int)
    requires audio >= 0
    ensures (forall e :: 0 <= e <= audio ==> SAMPLES_PER_CS * SamplesToCs(e) <= audio)
            <==> audio % SAMPLES_PER_CS < SAMPLES_PER_CS / 2
  {
    RoundedEndLeaves(audio, audio);
    forall e | 0 <= e <= audio && audio % SAMPLES_PER_CS < SAMPLES_PER_CS / 2
      ensures SAMPLES_PER_CS * SamplesToCs(e) <= audio
    {
      RoundedEndLeaves(e, audio);
    }
  }

  ghost predicate StaysInAudio(segments: seq<Speech>, audio: int) {
    forall k :: 0 <= k < |segments| ==> SAMPLES_PER_CS * segments[k].end <= audio
  }

  /** The segments stay inside the audio exactly if none of them ends where rounding leaves it. */
  lemma {:induction false} SegmentsStayExactlyIf(s: seq<Speech>, segments: seq<Speech>, audio: int)
    requires Apart(s, audio) && AreInCs(s, segments)
    ensures StaysInAudio(segments, audio) <==> forall k :: 0 <= k < |s| ==> !RoundsUpAtEnd(s[k].end, audio)
    ensures audio % SAMPLES_PER_CS < SAMPLES_PER_CS / 2 ==> StaysInAudio(segments, audio)
  {
    forall k | 0 <= k < |s|
      ensures SAMPLES_PER_CS * segments[k].end > audio <==> RoundsUpAtEnd(s[k].end, audio)
    {
      RoundedEndLeaves(s[k].end, audio);
    }
  }

  /** With windows of 512 samples this depends on the number of windows alone. */
  lemma {:induction false} WindowsOf512(n: nat)
    ensures (512 * n) % SAMPLES_PER_CS < SAMPLES_PER_CS / 2 <==> n % 5 < 3
  {
    assert 512 * n == SAMPLES_PER_CS * (16 * (n / 5) + 3 * (n % 5)) + 32 * (n % 5);
    ModUnique(512 * n, SAMPLES_PER_CS, 16 * (n / 5) + 3 * (n % 5), 32 * (n % 5));
  }

  method ToCs(s: seq<Speech>) returns (segments: seq<Speech>)
    ensures AreInCs(s, segments)
  {
    segments := [];
    for i := 0 to |s|
      invariant AreInCs(s[..i], segments)
    {
      segments := segments + [Speech(SamplesToCs(s[i].start), SamplesToCs(s[i].end))];
    }
    assert s[..|s|] == s;
  }

  /** The segments in samples after all passes. */
  function PaddedSpeech(c: Config, probs: seq<real>): seq<Speech> {
    Padded(Kept(Merged(Detected(c, probs), 0), c.minSpeech), c.pad, At(c, |probs|))
  }

  /** They are in order and inside the audio; rounded as well, unless the audio's length is rounded up. */
  lemma {:induction false} PaddedSpeechOk(c: Config, probs: seq<real>, segments: seq<Speech>)
    requires c.window > 0 && AreInCs(PaddedSpeech(c, probs), segments)
    ensures Apart(PaddedSpeech(c, probs), At(c, |probs|)) && Apart(segments, SamplesToCs(At(c, |probs|)))
    ensures StaysInAudio(segments, At(c, |probs|)) || At(c, |probs|) % SAMPLES_PER_CS >= SAMPLES_PER_CS / 2
  {
    var audio, merged := At(c, |probs|), Merged(Detected(c, probs), 0);
    DetectedOk(c, probs);
    MergedOk(Detected(c, probs), audio);
    KeptApart(merged, c.minSpeech, audio);
    PaddedApart(Kept(merged, c.minSpeech), PaddedSpeech(c, probs), c.pad, audio);
    RoundedSorted(PaddedSpeech(c, probs), segments, audio);
    SegmentsStayExactlyIf(PaddedSpeech(c, probs), segments, audio);
  }

  /** The final segments cover what padding adds to the segments that were found, merged and kept. */
  ghost predicate PadsExactly(c: Config, probs: seq<real>) {
    var kept := Kept(Merged(Detected(c, probs), 0), c.minSpeech);
    forall x {:trigger InSome(PaddedSpeech(c, probs), x)} :: 0 <= x < At(c, |probs|) ==>
           (InSome(PaddedSpeech(c, probs), x) <==> InReach(kept, c.pad, x) && !InMiddle(kept, c.pad, x))
  }

  lemma {:induction false} AllPadsExactly(c: Config, probs: seq<real>)
    requires c.window > 0
    ensures PadsExactly(c, probs)
  {
    var audio := At(c, |probs|);
    var kept := Kept(Merged(Detected(c, probs), 0), c.minSpeech);
    DetectedOk(c, probs);
    MergedOk(Detected(c, probs), audio);
    KeptApart(Merged(Detected(c, probs), 0), c.minSpeech, audio);
    forall x | 0 <= x < audio
      ensures InSome(PaddedSpeech(c, probs), x) <==> InReach(kept, c.pad, x) && !InMiddle(kept, c.pad, x)
    {
      PaddingCovers(kept, c.pad, audio, x);
    }
  }

  /** The whole pass. */
  method SegmentsFromProbs(c: Config, probs: seq<real>) returns (segments: seq<Speech>)
    requires c.window > 0
    ensures AreInCs(PaddedSpeech(c, probs), segments)
    ensures Apart(segments, SamplesToCs(At(c, |probs|)))
    ensures PadsExactly(c, probs)
  {
    ghost var audio := At(c, |probs|);
    var speeches := Detect(c, probs);
    DetectedOk(c, probs);
    MergedOk(speeches, audio);
    if |speeches| > 1 {
      speeches := MergeClose(speeches);
    }
    KeptApart(speeches, c.minSpeech, audio);
    speeches := DropShort(speeches, c.minSpeech);
    speeches := Pad(speeches, c.pad, At(c, |probs|));
    segments := ToCs(speeches);
    PaddedSpeechOk(c, probs, segments);
    AllPadsExactly(c, probs);
  }

  /** The only speech is in the last chunk. */
  lemma {:induction false} LastWindow(c: Config, probs: seq<real>, n: nat)
    requires n < |probs| && forall k :: 0 <= k < n ==> probs[k] < c.threshold
    ensures Scanned(c, probs, n) == Scan([], false, 0, 0, 0, 0, false)
  {
    if n > 0 {
      LastWindow(c, probs, n - 1);
    }
  }

  /** The settings and probabilities of the example: speech in the last of four windows of 512 samples. */
  predicate SpeaksAtTheEnd(c: Config, probs: seq<real>) {
    && c.threshold == 0.5 && c.window == 512 && c.minSpeech == 0 && c.pad == 0
    && |probs| == 4 && probs[0] == probs[1] == probs[2] == 0.0 && probs[3] == 1.0
  }

  lemma {:induction false} LastWindowFound(c: Config, probs: seq<real>)
    requires SpeaksAtTheEnd(c, probs)
    ensures Detected(c, probs) == [Speech(1536, 2048)]
  {
    LastWindow(c, probs, 3);
    var s := Scanned(c, probs, |probs|);
    assert s == Step(c, Scanned(c, probs, 3), probs[3], At(c, 3));
    assert At(c, 3) == 1536 && At(c, |probs|) == 2048;
  }

  /** It becomes a segment whose start is rounded up. */
  lemma {:induction false} LastWindowExample(c: Config, probs: seq<real>, segments: seq<Speech>)
    requires SpeaksAtTheEnd(c, probs) && AreInCs(PaddedSpeech(c, probs), segments)
    ensures segments == [Speech(10, 13)]
  {
    LastWindowFound(c, probs);
    KeepsAll(Detected(c, probs), 0);
    assert PaddedSpeech(c, probs) == Detected(c, probs);
  }

  // ---------------------------------------------------------------------------------------------
  // Cutting the samples out
  // ---------------------------------------------------------------------------------------------

  function ToSample(cs: int, size: nat): nat {
    Min(size, Max(0, cs * SAMPLES_PER_CS))
  }

  /** Whether sample `x` is in one of the segments given in centiseconds. */
  ghost predicate Selected(segments: seq<Speech>, x: int) {
    exists k :: Inside(segments, k, x / SAMPLES_PER_CS)
  }

  /** The samples below `n` that are in some segment, in order. */
  ghost function SelectedUpTo(samples: seq<int>, segments: seq<Speech>, n: nat): seq<int>
    requires n <= |samples|
  {
    if n == 0 then []
    else SelectedUpTo(samples, segments, n - 1) + if Selected(segments, n - 1) then [samples[n - 1]] else []
  }

  ghost predicate AllSelected(segments: seq<Speech>, from: int, upTo: int) {
    forall x {:trigger Selected(segments, x)} :: from <= x < upTo ==> Selected(segments, x)
  }

  ghost predicate NoneSelected(segments: seq<Speech>, from: int, upTo: int) {
    forall x {:trigger Selected(segments, x)} :: from <= x < upTo ==> !Selected(segments, x)
  }

  lemma {:induction false} SkipStretch(samples: seq<int>, segments: seq<Speech>, from: nat, upTo: nat)
    requires from <= upTo <= |samples| && NoneSelected(segments, from, upTo)
    ensures SelectedUpTo(samples, segments, upTo) == SelectedUpTo(samples, segments, from)
    decreases upTo
  {
    if from < upTo {
      SkipStretch(samples, segments, from, upTo - 1);
      assert !Selected(segments, upTo - 1);
      Sequences.EmptyRight(SelectedUpTo(samples, segments, upTo - 1));
    }
  }

  lemma {:induction false} TakeStretch(samples: seq<int>, segments: seq<Speech>, from: nat, upTo: nat)
    requires from <= upTo <= |samples| && AllSelected(segments, from, upTo)
    ensures SelectedUpTo(samples, segments, upTo) == SelectedUpTo(samples, segments, from) + samples[from..upTo]
    decreases upTo
  {
    var before := SelectedUpTo(samples, segments, from);
    if from < upTo {
      TakeStretch(samples, segments, from, upTo - 1);
      assert Selected(segments, upTo - 1);
      Sequences.Associative(before, samples[from..upTo - 1], [samples[upTo - 1]]);
      assert samples[from..upTo] == samples[from..upTo - 1] + [samples[upTo - 1]];
    } else {
      Sequences.EmptyRight(before);
    }
  }

  /** Where the segments below `i` end, in samples. */
  ghost function DoneBefore(segments: seq<Speech>, i: nat, size: nat): nat
    requires i <= |segments|
  {
    if i == 0 then 0 else ToSample(segments[i - 1].end, size)
  }

  /** The output is exactly the samples that lie in some segment, in order and once each. */
  method CollectSpeech(samples: seq<int>, segments: seq<Speech>, ghost limit: int) returns (output: seq<int>)
    requires Apart(segments, limit)
    ensures output == SelectedUpTo(samples, segments, |samples|)
  {
    output := [];
    for i := 0 to |segments|
      invariant DoneBefore(segments, i, |samples|) <= |samples|
      invariant output == SelectedUpTo(samples, segments, DoneBefore(segments, i, |samples|))
    {
      var start, end := ToSample(segments[i].start, |samples|), ToSample(segments[i].end, |samples|);
      InOrder(segments, limit, i, |samples|);
      Between(samples, segments, limit, i, DoneBefore(segments, i, |samples|), start, end);
      if end > start {
        output := output + samples[start..end];
      }
    }
    AfterLast(samples, segments, limit, DoneBefore(segments, |segments|, |samples|));
  }

  lemma {:induction false} CellBelow(cs: int, x: int)
    ensures x < cs * SAMPLES_PER_CS <==> x / SAMPLES_PER_CS < cs
  {
  }

  lemma {:induction false} InOrder(segments: seq<Speech>, limit: int, i: nat, size: nat)
    requires Apart(segments, limit) && i < |segments|
    ensures DoneBefore(segments, i, size) <= ToSample(segments[i].start, size)
    ensures ToSample(segments[i].start, size) <= ToSample(segments[i].end, size) <= size
  {
  }

  lemma {:induction false} Between(samples: seq<int>, segments: seq<Speech>, limit: int, i: nat, done: nat, start: nat,
                                   end: nat)
    requires Apart(segments, limit) && i < |segments| && done == DoneBefore(segments, i, |samples|)
    requires start == ToSample(segments[i].start, |samples|) && end == ToSample(segments[i].end, |samples|)
    requires done <= start <= end <= |samples|
    ensures SelectedUpTo(samples, segments, end) == SelectedUpTo(samples, segments, done) + samples[start..end]
  {
    SkipGap(samples, segments, limit, i, start);
    TakeSegment(samples, segments, i, start, end);
  }

  lemma {:induction false} SkipGap(samples: seq<int>, segments: seq<Speech>, limit: int, i: nat, start: nat)
    requires Apart(segments, limit) && i <= |segments| && DoneBefore(segments, i, |samples|) <= start <= |samples|
    requires i < |segments| ==> start == ToSample(segments[i].start, |samples|)
    ensures SelectedUpTo(samples, segments, start)
            == SelectedUpTo(samples, segments, DoneBefore(segments, i, |samples|))
  {
    NoneBefore(segments, limit, i, start, |samples|);
    SkipStretch(samples, segments, DoneBefore(segments, i, |samples|), start);
  }

  lemma {:induction false} TakeSegment(samples: seq<int>, segments: seq<Speech>, i: nat, start: nat, end: nat)
    requires i < |segments| && start <= end <= |samples|
    requires start == ToSample(segments[i].start, |samples|) && end == ToSample(segments[i].end, |samples|)
    ensures SelectedUpTo(samples, segments, end) == SelectedUpTo(samples, segments, start) + samples[start..end]
  {
    AllWithin(segments, i, start, end, |samples|);
    TakeStretch(samples, segments, start, end);
  }

  lemma {:induction false} AllWithin(segments: seq<Speech>, i: nat, start: nat, end: nat, size: nat)
    requires i < |segments| && start == ToSample(segments[i].start, size) && end == ToSample(segments[i].end, size)
    ensures AllSelected(segments, start, end)
  {
    forall x | start <= x < end
      ensures Selected(segments, x)
    {
      CellBelow(segments[i].start, x);
      CellBelow(segments[i].end, x);
      assert Inside(segments, i, x / SAMPLES_PER_CS);
    }
  }

  lemma {:induction false} NoneBefore(segments: seq<Speech>, limit: int, i: nat, start: nat, size: nat)
    requires Apart(segments, limit) && i <= |segments|
    requires if i < |segments| then start == ToSample(segments[i].start, size) else start <= size
    ensures NoneSelected(segments, DoneBefore(segments, i, size), start)
  {
  }

  lemma {:induction false} AfterLast(samples: seq<int>, segments: seq<Speech>, limit: int, done: nat)
    requires Apart(segments, limit) && done <= |samples| && done == DoneBefore(segments, |segments|, |samples|)
    ensures SelectedUpTo(samples, segments, |samples|) == SelectedUpTo(samples, segments, done)
  {
    SkipGap(samples, segments, limit, |segments|, |samples|);
  }
}
