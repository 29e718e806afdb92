/**
 The length limit of the speech detector: how long segments can get, and what a limit costs. Thresholds are from 0.01
 on, so that no chunk is speech and silence at once.
 */
module VadLimit {
  import opened VadDetect

  /** No segment is longer than the limit and a chunk. */
  ghost predicate AllShort(c: Config, speeches: seq<Speech>) {
    forall k :: 0 <= k < |speeches| ==> speeches[k].end - speeches[k].start <= c.maxSpeech + c.window
  }

  /** A segment over the limit ends where sample `x` is. */
  ghost predicate CutAt(c: Config, speeches: seq<Speech>, x: int) {
    exists k :: 0 <= k < |speeches| && speeches[k].end == x && speeches[k].end - speeches[k].start > c.maxSpeech
  }

  /** Speech at `x`: in a finished segment, or the chunk before which one was cut off. */
  ghost predicate Handled(c: Config, speeches: seq<Speech>, x: int) {
    Covered(speeches, x, x + c.window) || CutAt(c, speeches, x)
  }

  /** Speech at `x` in the open segment: before a pending end, and not in a silence to split at. */
  predicate InOpen(c: Config, s: Scan, x: int) {
    && s.inSpeech && s.start <= x && (s.tempEnd != 0 ==> x + c.window <= s.tempEnd)
    && (s.prevEnd != 0 ==> x + c.window <= s.prevEnd || (s.prevEnd <= s.nextStart <= x))
  }

  ghost predicate AllHandled(c: Config, probs: seq<real>, s: Scan, i: nat)
    requires i <= |probs|
  {
    forall j: nat {:trigger Speaks(c, probs, j)} :: j < i && Speaks(c, probs, j) ==>
      Handled(c, s.speeches, At(c, j)) || InOpen(c, s, At(c, j))
  }

  /** At the chunk at `cur`: the one before was within the limit, and a silence to split at goes on or is over. */
  ghost predicate LimitIn(c: Config, s: Scan, cur: nat) {
    && AllShort(c, s.speeches)
    && (s.inSpeech ==> cur - s.start <= c.maxSpeech + c.window && s.start + c.window <= cur)
    && (s.tempEnd != 0 ==> s.start + c.window <= s.tempEnd)
    && (s.prevEnd != 0 ==> s.start + c.window <= s.prevEnd)
    && (s.prevEnd != 0 && s.nextStart < s.prevEnd ==> s.tempEnd != 0)
  }

  ghost predicate LimitOk(c: Config, s: Scan, cur: nat) {
    LimitIn(c, s, cur) && (s.nextStart != 0 ==> s.nextStart + c.window <= cur)
  }

  lemma {:induction false} ShortPush(c: Config, speeches: seq<Speech>, start: int, end: int)
    requires AllShort(c, speeches) && end - start <= c.maxSpeech + c.window
    ensures AllShort(c, speeches + [Speech(start, end)])
  {
  }

  lemma {:induction false} HandledPush(c: Config, speeches: seq<Speech>, start: int, end: int, x: int)
    ensures Handled(c, speeches, x) ==> Handled(c, speeches + [Speech(start, end)], x)
    ensures start <= x && x + c.window <= end ==> Handled(c, speeches + [Speech(start, end)], x)
    ensures x == end && end - start > c.maxSpeech ==> Handled(c, speeches + [Speech(start, end)], x)
  {
    var longer := speeches + [Speech(start, end)];
    CoveredPush(speeches, Speech(start, end), x, x + c.window);
    assert longer[|speeches|] == Speech(start, end);
    if CutAt(c, speeches, x) {
      var k :| 0 <= k < |speeches| && speeches[k].end == x && speeches[k].end - speeches[k].start > c.maxSpeech;
      assert longer[k] == speeches[k];
    }
  }

  // ---------------------------------------------------------------------------------------------
  // One chunk, in its stages
  // ---------------------------------------------------------------------------------------------

  /** What is known before chunk `i`. */
  ghost predicate Stage(c: Config, probs: seq<real>, s: Scan, i: nat)
    requires i <= |probs|
  {
    LimitOk(c, s, At(c, i)) && AllHandled(c, probs, s, i)
  }

  /** What is known at chunk `i`, after `Resume`. */
  ghost predicate MidStage(c: Config, probs: seq<real>, r: Scan, i: nat)
    requires i < |probs|
  {
    && LimitIn(c, r, At(c, i)) && AllHandled(c, probs, r, i)
    && (if Speaks(c, probs, i) then r.tempEnd == 0 && (r.prevEnd != 0 ==> r.prevEnd <= r.nextStart <= At(c, i))
        else r.nextStart != 0 ==> r.nextStart + c.window <= At(c, i))
  }

  lemma {:induction false} ResumeStage(c: Config, probs: seq<real>, s: Scan, i: nat)
    requires c.window > 0 && i < |probs| && Stage(c, probs, s, i) && ScanOk(c, s, At(c, i)) && s.inSpeech
    ensures MidStage(c, probs, Resume(c, s, probs[i], At(c, i)), i)
  {
    ChunksApart(c);
  }

  lemma {:induction false} OpenStage(c: Config, probs: seq<real>, s: Scan, i: nat)
    requires c.window > 0 && i < |probs| && Stage(c, probs, s, i) && ScanOk(c, s, At(c, i))
    requires !s.inSpeech && Speaks(c, probs, i)
    ensures Stage(c, probs, s.(inSpeech := true, start := At(c, i), hasCurr := true), i + 1)
  {
    ChunksApart(c);
  }

  /** A segment over the limit without a silence is cut off before the chunk. */
  lemma {:induction false} CutStage(c: Config, probs: seq<real>, r: Scan, i: nat)
    requires c.window > 0 && i < |probs| && MidStage(c, probs, r, i)
    requires TooLong(c, r, At(c, i)) && r.prevEnd == 0
    ensures Stage(c, probs, Reset(Push(r, r.start, At(c, i))), i + 1)
  {
    ChunksApart(c);
    ShortPush(c, r.speeches, r.start, At(c, i));
    forall j: nat | j < i + 1 && Speaks(c, probs, j)
      ensures Handled(c, r.speeches + [Speech(r.start, At(c, i))], At(c, j))
    {
      HandledPush(c, r.speeches, r.start, At(c, i), At(c, j));
    }
  }

  /** A split loses nothing: what is between the silence and the next start is no speech. */
  lemma {:induction false} SplitStage(c: Config, probs: seq<real>, r: Scan, i: nat)
    requires c.window > 0 && i < |probs| && MidStage(c, probs, r, i) && InsideOk(c, r, At(c, i))
    requires TooLong(c, r, At(c, i)) && r.prevEnd != 0
    ensures var t := SplitAtSilence(r);
            && AllShort(c, t.speeches) && AllHandled(c, probs, t, i) && t.tempEnd == t.prevEnd == t.nextStart == 0
            && (t.inSpeech <==> r.prevEnd <= r.nextStart) && (t.inSpeech ==> t.start == r.nextStart)
            && (t.inSpeech ==> At(c, i) - t.start <= c.maxSpeech)
  {
    ChunksApart(c);
    ShortPush(c, r.speeches, r.start, r.prevEnd);
    forall j: nat | j < i && Speaks(c, probs, j)
      ensures Handled(c, SplitAtSilence(r).speeches, At(c, j)) || InOpen(c, SplitAtSilence(r), At(c, j))
    {
      HandledPush(c, r.speeches, r.start, r.prevEnd, At(c, j));
      assert Handled(c, r.speeches, At(c, j)) || InOpen(c, r, At(c, j));
    }
  }

  /** A scan within the limit at chunk `i`, before its silence is looked at. */
  ghost predicate Within(c: Config, probs: seq<real>, t: Scan, i: nat)
    requires i < |probs|
  {
    && AllShort(c, t.speeches) && AllHandled(c, probs, t, i) && (t.inSpeech ==> At(c, i) - t.start <= c.maxSpeech)
    && (t.tempEnd != 0 ==> t.start + c.window <= t.tempEnd < At(c, i))
    && (t.prevEnd != 0 ==> t.start + c.window <= t.prevEnd)
    && (t.prevEnd != 0 && t.nextStart < t.prevEnd ==> t.tempEnd != 0) && t.nextStart <= At(c, i)
    && (t.inSpeech && !Speaks(c, probs, i) ==> t.start + c.window <= At(c, i))
    && (t.inSpeech ==> t.start <= At(c, i))
    && (Speaks(c, probs, i) ==> t.inSpeech && t.tempEnd == 0 && (t.prevEnd != 0 ==> t.prevEnd <= t.nextStart))
  }

  lemma {:induction false} MidWithin(c: Config, probs: seq<real>, r: Scan, i: nat)
    requires c.window > 0 && i < |probs| && MidStage(c, probs, r, i) && InsideOk(c, r, At(c, i))
    requires TooLong(c, r, At(c, i)) ==> r.prevEnd != 0
    ensures Within(c, probs, if TooLong(c, r, At(c, i)) then SplitAtSilence(r) else r, i)
  {
    ChunksApart(c);
    if TooLong(c, r, At(c, i)) {
      SplitStage(c, probs, r, i);
    }
  }

  /** A chunk that is not silent. */
  lemma {:induction false} LoudStage(c: Config, probs: seq<real>, t: Scan, i: nat)
    requires c.window > 0 && i < |probs| && Within(c, probs, t, i)
    ensures Stage(c, probs, t, i + 1)
  {
    ChunksApart(c);
    assert At(c, i + 1) == At(c, i) + c.window;
  }

  /** A silent chunk in a segment. */
  lemma {:induction false} SilenceStage(c: Config, probs: seq<real>, t: Scan, i: nat)
    requires c.window > 0 && c.minSpeech == 0 && i < |probs| && Within(c, probs, t, i) && t.inSpeech
    requires !Speaks(c, probs, i)
    ensures Stage(c, probs, Silence(c, t, At(c, i)), i + 1)
  {
    ChunksApart(c);
    assert At(c, i + 1) == At(c, i) + c.window;
    var temp := if t.tempEnd == 0 then At(c, i) else t.tempEnd;
    ShortPush(c, t.speeches, t.start, temp);
    forall j: nat | j < i + 1 && Speaks(c, probs, j)
      ensures Handled(c, Silence(c, t, At(c, i)).speeches, At(c, j)) || InOpen(c, Silence(c, t, At(c, i)), At(c, j))
    {
      HandledPush(c, t.speeches, t.start, temp, At(c, j));
      assert Handled(c, t.speeches, At(c, j)) || InOpen(c, t, At(c, j));
    }
  }

  lemma {:induction false} StepStage(c: Config, probs: seq<real>, s: Scan, i: nat)
    requires c.window > 0 && Separates(c) && c.minSpeech == 0 && i < |probs|
    requires Stage(c, probs, s, i) && ScanOk(c, s, At(c, i))
    ensures Stage(c, probs, Step(c, s, probs[i], At(c, i)), i + 1)
  {
    var cur := At(c, i);
    ChunksApart(c);
    if s.inSpeech {
      var r := Resume(c, s, probs[i], cur);
      ResumeStage(c, probs, s, i);
      ResumeOk(c, s, probs[i], cur);
      if TooLong(c, r, cur) && r.prevEnd == 0 {
        CutStage(c, probs, r, i);
      } else {
        var t := if TooLong(c, r, cur) then SplitAtSilence(r) else r;
        MidWithin(c, probs, r, i);
        if probs[i] < NegThreshold(c) && t.inSpeech {
          SilenceStage(c, probs, t, i);
        } else {
          LoudStage(c, probs, t, i);
        }
      }
    } else if Speaks(c, probs, i) {
      OpenStage(c, probs, s, i);
    } else {
      assert Step(c, s, probs[i], cur) == s;
    }
  }

  lemma {:induction false} ScannedStage(c: Config, probs: seq<real>, i: nat)
    requires c.window > 0 && Separates(c) && c.minSpeech == 0 && i <= |probs|
    ensures Stage(c, probs, Scanned(c, probs, i), i)
  {
    ChunksApart(c);
    if i > 0 {
      ScannedStage(c, probs, i - 1);
      ScannedOk(c, probs, i - 1);
      StepStage(c, probs, Scanned(c, probs, i - 1), i - 1);
    }
  }

  // ---------------------------------------------------------------------------------------------
  // What is cut off is lost
  // ---------------------------------------------------------------------------------------------

  predicate Over(c: Config, s: Speech) {
    s.end - s.start > c.maxSpeech
  }

  /** No segment over the limit ends at `x`. */
  ghost predicate Free(c: Config, speeches: seq<Speech>, x: int) {
    forall k {:trigger speeches[k]} :: 0 <= k < |speeches| && Over(c, speeches[k]) ==> speeches[k].end != x
  }

  /** No segment starts where one over the limit ends. */
  ghost predicate Clear(c: Config, speeches: seq<Speech>) {
    forall m {:trigger speeches[m]} :: 0 <= m < |speeches| ==> Free(c, speeches, speeches[m].start)
  }

  ghost predicate AllBefore(speeches: seq<Speech>, cur: int) {
    forall k {:trigger speeches[k]} :: 0 <= k < |speeches| ==> speeches[k].start <= speeches[k].end < cur
  }

  /** Before the chunk at `cur`. */
  ghost predicate CutsClear(c: Config, s: Scan, cur: nat) {
    && Clear(c, s.speeches) && AllBefore(s.speeches, cur) && (s.inSpeech ==> Free(c, s.speeches, s.start))
    && (s.prevEnd != 0 ==> s.prevEnd + c.window <= cur)
  }

  lemma {:induction false} FreePush(c: Config, speeches: seq<Speech>, added: Speech, x: int)
    requires Free(c, speeches, x) && (Over(c, added) ==> added.end != x)
    ensures Free(c, speeches + [added], x)
  {
  }

  lemma {:induction false} ClearPush(c: Config, speeches: seq<Speech>, added: Speech, cur: int)
    requires Clear(c, speeches) && AllBefore(speeches, cur) && Free(c, speeches, added.start) && added.start < added.end
    requires Over(c, added) ==> cur <= added.end
    ensures Clear(c, speeches + [added])
  {
    var longer := speeches + [added];
    forall m | 0 <= m < |longer|
      ensures Free(c, longer, longer[m].start)
    {
      if m < |speeches| {
        assert longer[m] == speeches[m];
        FreePush(c, speeches, added, speeches[m].start);
      } else {
        FreePush(c, speeches, added, added.start);
      }
    }
  }

  lemma {:induction false} BeforePush(speeches: seq<Speech>, added: Speech, cur: int, next: int)
    requires AllBefore(speeches, cur) && cur < next && added.start <= added.end < next
    ensures AllBefore(speeches + [added], next)
  {
  }

  /** What starts at or behind the chunk, or behind all segments, starts at no cut. */
  lemma {:induction false} FreeBehind(c: Config, speeches: seq<Speech>, cur: int, x: int)
    requires AllBefore(speeches, cur) && cur <= x
    ensures Free(c, speeches, x)
  {
  }

  lemma {:induction false} FreeAfter(c: Config, speeches: seq<Speech>, start: int, x: int)
    requires Apart(speeches, start) && start < x
    ensures Free(c, speeches, x)
  {
  }

  lemma {:induction false} CutClear(c: Config, probs: seq<real>, r: Scan, i: nat)
    requires c.window > 0 && i < |probs| && CutsClear(c, r, At(c, i)) && r.inSpeech && r.start < At(c, i)
    ensures CutsClear(c, Reset(Push(r, r.start, At(c, i))), At(c, i + 1))
  {
    ChunksApart(c);
    ClearPush(c, r.speeches, Speech(r.start, At(c, i)), At(c, i));
    BeforePush(r.speeches, Speech(r.start, At(c, i)), At(c, i), At(c, i + 1));
  }

  lemma {:induction false} SplitClear(c: Config, r: Scan, cur: nat)
    requires c.window > 0 && CutsClear(c, r, cur) && LimitIn(c, r, cur) && InsideOk(c, r, cur) && r.prevEnd != 0
    requires Separates(c)
    ensures CutsClear(c, SplitAtSilence(r), cur)
  {
    var added := Speech(r.start, r.prevEnd);
    assert !Over(c, added);
    ClearPush(c, r.speeches, added, cur);
    if r.prevEnd <= r.nextStart {
      FreeAfter(c, r.speeches, r.start, r.nextStart);
      FreePush(c, r.speeches, added, r.nextStart);
    }
  }

  lemma {:induction false} SilenceClear(c: Config, t: Scan, cur: nat, next: nat)
    requires c.window > 0 && CutsClear(c, t, cur) && t.inSpeech && cur - t.start <= c.maxSpeech
    requires next == cur + c.window
    requires t.tempEnd != 0 ==> t.start < t.tempEnd < cur
    ensures CutsClear(c, Silence(c, t, cur), next)
  {
    var temp := if t.tempEnd == 0 then cur else t.tempEnd;
    var added := Speech(t.start, temp);
    if temp - t.start > 0 {
      assert !Over(c, added);
      ClearPush(c, t.speeches, added, cur);
      BeforePush(t.speeches, added, cur, next);
    }
  }

  lemma {:induction false} StepClear(c: Config, probs: seq<real>, s: Scan, i: nat)
    requires c.window > 0 && Separates(c) && c.minSpeech == 0 && i < |probs|
    requires Stage(c, probs, s, i) && ScanOk(c, s, At(c, i)) && CutsClear(c, s, At(c, i))
    ensures CutsClear(c, Step(c, s, probs[i], At(c, i)), At(c, i + 1))
  {
    var cur := At(c, i);
    ChunksApart(c);
    assert At(c, i + 1) == cur + c.window;
    if s.inSpeech {
      var r := Resume(c, s, probs[i], cur);
      ResumeStage(c, probs, s, i);
      ResumeOk(c, s, probs[i], cur);
      assert CutsClear(c, r, cur);
      if TooLong(c, r, cur) && r.prevEnd == 0 {
        CutClear(c, probs, r, i);
      } else {
        var t := if TooLong(c, r, cur) then SplitAtSilence(r) else r;
        MidWithin(c, probs, r, i);
        if TooLong(c, r, cur) {
          SplitClear(c, r, cur);
        }
        if probs[i] < NegThreshold(c) && t.inSpeech {
          SilenceClear(c, t, cur, At(c, i + 1));
        }
      }
    } else if Speaks(c, probs, i) {
      FreeBehind(c, s.speeches, cur, cur);
    }
  }

  /** What is known of the scan before chunk `i`. */
  ghost predicate ClearAt(c: Config, probs: seq<real>, i: nat, s: Scan) {
    i <= |probs| && s == Scanned(c, probs, i) && CutsClear(c, s, At(c, i))
  }

  lemma {:induction false} ClearNext(c: Config, probs: seq<real>, i: nat, s: Scan) returns (s2: Scan)
    requires c.window > 0 && Separates(c) && c.minSpeech == 0 && i < |probs| && ClearAt(c, probs, i, s)
    ensures ClearAt(c, probs, i + 1, s2)
  {
    ScannedStage(c, probs, i);
    ScannedOk(c, probs, i);
    StepClear(c, probs, s, i);
    s2 := Step(c, s, probs[i], At(c, i));
    assert s2 == Scanned(c, probs, i + 1);
  }

  lemma {:induction false} ScannedClear(c: Config, probs: seq<real>, i: nat) returns (s: Scan)
    requires c.window > 0 && Separates(c) && c.minSpeech == 0 && i <= |probs|
    ensures ClearAt(c, probs, i, s)
  {
    s := Scan([], false, 0, 0, 0, 0, false);
    if i > 0 {
      s := ScannedClear(c, probs, i - 1);
      s := ClearNext(c, probs, i - 1, s);
    }
  }

  lemma {:induction false} DetectedClear(c: Config, probs: seq<real>)
    requires c.window > 0 && Separates(c) && c.minSpeech == 0
    ensures Clear(c, Detected(c, probs))
  {
    var audio := At(c, |probs|);
    var s := ScannedClear(c, probs, |probs|);
    ScannedOk(c, probs, |probs|);
    if s.inSpeech {
      ClearPush(c, s.speeches, Speech(s.start, audio), audio);
    }
  }

  lemma {:induction false} CutIsLost(c: Config, speeches: seq<Speech>, end: int, x: int)
    requires c.window > 0 && Apart(speeches, end) && Clear(c, speeches) && CutAt(c, speeches, x)
    ensures !Covered(speeches, x, x + c.window)
  {
    var k :| 0 <= k < |speeches| && speeches[k].end == x && speeches[k].end - speeches[k].start > c.maxSpeech;
    forall m | 0 <= m < |speeches|
      ensures !Contains(speeches[m], x, x + c.window)
    {
      assert Free(c, speeches, speeches[m].start) && Over(c, speeches[k]);
      assert m < k ==> speeches[m].end <= speeches[k].start;
      assert k < m ==> speeches[k].end <= speeches[m].start;
    }
  }

  /**
   With any length limit: no segment is longer than the limit and a chunk, and a speech chunk lies in a segment exactly
   if no segment over the limit was cut off right before it.
   */
  lemma {:induction false} LostExactlyIfCut(c: Config, probs: seq<real>, j: nat)
    requires c.window > 0 && Separates(c) && c.minSpeech == 0
    ensures AllShort(c, Detected(c, probs))
    ensures j < |probs| && Speaks(c, probs, j) ==>
              (Covered(Detected(c, probs), At(c, j), At(c, j) + c.window) <==> !CutAt(c, Detected(c, probs), At(c, j)))
  {
    var s, audio := Scanned(c, probs, |probs|), At(c, |probs|);
    ScannedStage(c, probs, |probs|);
    ScannedOk(c, probs, |probs|);
    if s.inSpeech {
      ShortPush(c, s.speeches, s.start, audio);
    }
    if j < |probs| && Speaks(c, probs, j) {
      DetectedHandles(c, probs, j);
      DetectedClear(c, probs);
      DetectedOk(c, probs);
      if CutAt(c, Detected(c, probs), At(c, j)) {
        CutIsLost(c, Detected(c, probs), audio, At(c, j));
      }
    }
  }

  lemma {:induction false} DetectedHandles(c: Config, probs: seq<real>, j: nat)
    requires c.window > 0 && Separates(c) && c.minSpeech == 0 && j < |probs| && Speaks(c, probs, j)
    ensures Handled(c, Detected(c, probs), At(c, j))
  {
    var s, audio := Scanned(c, probs, |probs|), At(c, |probs|);
    ScannedStage(c, probs, |probs|);
    ScannedOk(c, probs, |probs|);
    PairApart(c, j, |probs|);
    HandledPush(c, s.speeches, s.start, audio, At(c, j));
    assert Handled(c, s.speeches, At(c, j)) || InOpen(c, s, At(c, j));
  }

  /** Speech all through, with a limit of one chunk: the third of four chunks is lost. */
  lemma {:induction false} LostExample(c: Config, probs: seq<real>)
    requires c == Config(0.5, 512, 32000, 0, 512, 0) && probs == [1.0, 1.0, 1.0, 1.0]
    ensures Detected(c, probs) == [Speech(0, 1024), Speech(1536, 2048)] && CutAt(c, Detected(c, probs), At(c, 2))
  {
    assert At(c, 1) == 512 && At(c, 2) == 1024 && At(c, 3) == 1536 && At(c, 4) == 2048;
    assert Scanned(c, probs, 0) == Scan([], false, 0, 0, 0, 0, false);
    assert Scanned(c, probs, 1) == Scan([], true, 0, 0, 0, 0, true);
    assert Scanned(c, probs, 2) == Scan([], true, 0, 0, 0, 0, true);
    assert Scanned(c, probs, 3) == Scan([Speech(0, 1024)], false, 0, 0, 0, 0, false);
    assert Scanned(c, probs, 4) == Scan([Speech(0, 1024)], true, 0, 0, 0, 1536, true);
    var found := Detected(c, probs);
    assert found[0].end == 1024;
  }
}
