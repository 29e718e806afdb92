/**
 Whether any speech is lost on the way from probabilities to samples. A chunk that is speech and silence at once can
 end the segment that it belongs to, and is then left out; the later passes may cover it again.
 */
module VadCoverage {
  import opened Arithmetic
  import opened VadDetect
  import opened VadSegments

  /** Every chunk at or above the threshold lies inside some segment. */
  ghost predicate AllSpeechCovered(c: Config, probs: seq<real>, s: seq<Speech>) {
    forall j: nat {:trigger Speaks(c, probs, j)} :: j < |probs| && Speaks(c, probs, j) ==>
      Covered(s, At(c, j), At(c, j) + c.window)
  }

  // ---------------------------------------------------------------------------------------------
  // Room for a pause
  // ---------------------------------------------------------------------------------------------

  /** How many chunks after its first one a pause ends. */
  function PauseChunks(c: Config): nat
    requires c.window > 0
  {
    (c.minSilence + c.window - 1) / c.window
  }

  lemma {:induction false} PauseLength(c: Config)
    requires c.window > 0
    ensures At(c, PauseChunks(c)) >= c.minSilence
    ensures forall m: nat {:trigger At(c, m)} :: m < PauseChunks(c) ==> At(c, m) < c.minSilence
  {
    var all, p := c.minSilence + c.window - 1, PauseChunks(c);
    assert all == c.window * p + all % c.window;
    ChunksApart(c);
  }

  lemma {:induction false} Distance(c: Config, t: nat, e: nat)
    requires t <= e
    ensures At(c, e) - At(c, t) == At(c, e - t)
  {
  }

  /** Segments are neither too long nor too short for a speech chunk, another one, and a pause from that one on. */
  predicate HasRoom(c: Config)
    requires c.window > 0
  {
    c.minSpeech == 0 && At(c, PauseChunks(c) + 2) <= c.maxSpeech
  }

  lemma {:induction false} NoRoomNoPause(c: Config, probs: seq<real>, t: nat, e: nat)
    requires c.window > 0 && Unlimited(c, |probs|) && !HasRoom(c) && t > 0
    ensures !Pause(c, probs, t, e)
  {
    if t <= e < |probs| {
      PauseLength(c);
      ChunksApart(c);
      Distance(c, t, e);
      assert |probs| < PauseChunks(c) + 2;
    }
  }

  // ---------------------------------------------------------------------------------------------
  // Before padding
  // ---------------------------------------------------------------------------------------------

  /** Without room for a pause every segment lasts until the end. */
  lemma {:induction false} LastsToTheEnd(c: Config, probs: seq<real>, s: Speech)
    requires c.window > 0 && Unlimited(c, |probs|) && !HasRoom(c) && IsSegment(c, probs, s)
    ensures s.end == At(c, |probs|)
  {
    var a: nat, t: nat :| SegmentAt(c, probs, a, t) && s == Speech(At(c, a), At(c, t));
    if t < |probs| {
      var e: nat :| Pause(c, probs, t, e);
      NoRoomNoPause(c, probs, t, e);
    }
  }

  lemma {:induction false} FoundAt(c: Config, probs: seq<real>, j: nat) returns (k: nat)
    requires c.window > 0 && Unlimited(c, |probs|) && j < |probs| && Speaks(c, probs, j)
    ensures k < |Detected(c, probs)| && Contains(Detected(c, probs)[k], At(c, j), At(c, j) + Sure(c, probs, j))
    ensures IsSegment(c, probs, Detected(c, probs)[k])
  {
    DetectedOk(c, probs);
    k :| 0 <= k < |Detected(c, probs)| && Contains(Detected(c, probs)[k], At(c, j), At(c, j) + Sure(c, probs, j));
  }

  lemma {:induction false} FoundCovers(c: Config, probs: seq<real>)
    requires c.window > 0 && Unlimited(c, |probs|) && (Separates(c) || !HasRoom(c))
    ensures AllSpeechCovered(c, probs, Detected(c, probs))
  {
    var found := Detected(c, probs);
    forall j: nat | j < |probs| && Speaks(c, probs, j)
      ensures Covered(found, At(c, j), At(c, j) + c.window)
    {
      var k := FoundAt(c, probs, j);
      if !HasRoom(c) {
        LastsToTheEnd(c, probs, found[k]);
        PairApart(c, j, |probs|);
      }
      assert Contains(found[k], At(c, j), At(c, j) + c.window);
    }
  }

  /** Speech, then a chunk at the threshold, then silence for as long as a pause lasts. */
  function FadingOut(c: Config): (probs: seq<real>)
    requires c.window > 0
    ensures |probs| == PauseChunks(c) + 2
  {
    seq(PauseChunks(c) + 2, (k: nat) => if k == 0 then 0.01 else if k == 1 then c.threshold else c.threshold - 1.0)
  }

  /** The scan has seen the silence start at chunk 1. */
  ghost predicate Waiting(c: Config, s: Scan) {
    s.speeches == [] && s.inSpeech && s.hasCurr && s.start == 0 && s.tempEnd == At(c, 1)
  }

  lemma {:induction false} FadingStarts(c: Config)
    requires c.window > 0 && !Separates(c)
    ensures Scanned(c, FadingOut(c), 1) == Scan([], true, 0, 0, 0, 0, true)
  {
    assert Scanned(c, FadingOut(c), 0) == Scan([], false, 0, 0, 0, 0, false);
  }

  lemma {:induction false} FadingWaits(c: Config, k: nat)
    requires c.window > 0 && !Separates(c) && HasRoom(c) && 2 <= k <= PauseChunks(c) + 1
    ensures Waiting(c, Scanned(c, FadingOut(c), k))
  {
    var probs, cur := FadingOut(c), At(c, k - 1);
    ChunksApart(c);
    PauseLength(c);
    Distance(c, 1, k - 1);
    if k == 2 {
      FadingStarts(c);
    } else {
      FadingWaits(c, k - 1);
    }
    var s := Scanned(c, probs, k - 1);
    var r := Resume(c, s, probs[k - 1], cur);
    assert r == s && !TooLong(c, r, cur);
    assert Step(c, s, probs[k - 1], cur) == Silence(c, s, cur);
  }

  /** The segment ends at chunk 1, although that chunk is at the threshold. */
  lemma {:induction false} FadingIsCut(c: Config)
    requires c.window > 0 && !Separates(c) && HasRoom(c)
    ensures Unlimited(c, |FadingOut(c)|) && Speaks(c, FadingOut(c), 1)
    ensures Detected(c, FadingOut(c)) == [Speech(0, At(c, 1))]
  {
    var probs, k := FadingOut(c), PauseChunks(c) + 1;
    var cur := At(c, k);
    ChunksApart(c);
    PauseLength(c);
    Distance(c, 1, k);
    if k == 1 {
      FadingStarts(c);
    } else {
      FadingWaits(c, k);
    }
    var s := Scanned(c, probs, k);
    var r := Resume(c, s, probs[k], cur);
    assert r == s && !TooLong(c, r, cur);
    assert Step(c, s, probs[k], cur) == Reset(Push(s, 0, At(c, 1)));
    assert Scanned(c, probs, k + 1) == Step(c, s, probs[k], cur);
  }

  /** What is found covers all speech, for all probabilities, exactly if no chunk is both, or there is no room. */
  lemma {:induction false} FoundCoversExactlyIf(c: Config)
    requires c.window > 0
    ensures (forall probs {:trigger Detected(c, probs)} ::
               Unlimited(c, |probs|) ==> AllSpeechCovered(c, probs, Detected(c, probs)))
            <==> Separates(c) || !HasRoom(c)
  {
    if Separates(c) || !HasRoom(c) {
      forall probs | Unlimited(c, |probs|)
        ensures AllSpeechCovered(c, probs, Detected(c, probs))
      {
        FoundCovers(c, probs);
      }
    } else {
      FadingIsCut(c);
      assert !Covered([Speech(0, At(c, 1))], At(c, 1), At(c, 1) + c.window);
    }
  }

  // ---------------------------------------------------------------------------------------------
  // After padding
  // ---------------------------------------------------------------------------------------------

  /** A gap of one chunk can be left open: it is a pause of its own, and too long to be closed by merging. */
  predicate LeavesOneChunk(c: Config) {
    c.minSilence == 0 && c.window >= MAX_MERGE_GAP && At(c, 3) <= c.maxSpeech
  }

  /** When the whole pass covers all speech. */
  predicate KeepsSpeech(c: Config)
    requires c.window > 0
  {
    Separates(c) || !HasRoom(c) || (c.window <= c.pad && !LeavesOneChunk(c))
  }

  lemma {:induction false} MergedCovers(found: seq<Speech>, merged: seq<Speech>, from: int, end: int) returns (k: nat)
    requires Covered(found, from, end) && AllInside(found, merged)
    ensures k < |merged| && Contains(merged[k], from, end)
  {
    var i :| 0 <= i < |found| && Contains(found[i], from, end);
    k :| 0 <= k < |merged| && Contains(merged[k], found[i].start, found[i].end);
  }

  lemma {:induction false} PaddedGrows(s: seq<Speech>, pad: nat, audio: int, k: nat)
    requires Apart(s, audio) && k < |s|
    ensures var p := Padded(s, pad, audio);
            Contains(p[k], s[k].start, s[k].end) && p[k].end == PaddedEnd(s, pad, audio, k)
  {
    PadOneFits(s, Padded(s, pad, audio), pad, audio, k);
  }

  /** Segments start at speech chunks and end at chunks; a segment that ends before another starts ends in a pause. */
  lemma {:induction false} ChunkGap(c: Config, probs: seq<real>, a: Speech, b: Speech) returns (t: nat, u: nat)
    requires c.window > 0 && Unlimited(c, |probs|) && IsSegment(c, probs, a) && IsSegment(c, probs, b)
    ensures a.end == At(c, t) && b.start == At(c, u)
    ensures u == t + 1 ==> c.minSilence == 0 && At(c, 3) <= c.maxSpeech
  {
    var a0: nat, a1: nat :| SegmentAt(c, probs, a0, a1) && a == Speech(At(c, a0), At(c, a1));
    var b0: nat, b1: nat :| SegmentAt(c, probs, b0, b1) && b == Speech(At(c, b0), At(c, b1));
    t, u := a1, b0;
    ChunksApart(c);
    if u == t + 1 {
      var e: nat :| Pause(c, probs, t, e);
      assert Speaks(c, probs, u);
      assert e == t;
    }
  }

  /** The gap behind a segment that ends at chunk `j` is at least two chunks long. */
  lemma {:induction false} GapIsWide(c: Config, probs: seq<real>, k: nat, j: nat)
    requires c.window > 0 && Unlimited(c, |probs|) && !LeavesOneChunk(c) && j < |probs|
    requires k + 1 < |Merged(Detected(c, probs), 0)|
    requires At(c, j) <= Merged(Detected(c, probs), 0)[k].end < At(c, j) + c.window
    ensures var m := Merged(Detected(c, probs), 0); m[k].end == At(c, j) && m[k + 1].start - m[k].end >= 2 * c.window
  {
    var found, m := Detected(c, probs), Merged(Detected(c, probs), 0);
    DetectedOk(c, probs);
    MergedOk(found, At(c, |probs|));
    var _, last := MergedEnds(found, 0, k);
    var first, _ := MergedEnds(found, 0, k + 1);
    var t, u := ChunkGap(c, probs, found[last], found[first]);
    SameChunk(c, j, t);
    assert !CloseGap(m, k);
    WideGap(c, t, u);
  }

  lemma {:induction false} SameChunk(c: Config, j: nat, t: nat)
    requires c.window > 0 && At(c, j) <= At(c, t) < At(c, j) + c.window
    ensures j == t
  {
    ChunksApart(c);
  }

  lemma {:induction false} WideGap(c: Config, t: nat, u: nat)
    requires c.window > 0 && At(c, u) - At(c, t) >= MAX_MERGE_GAP && !LeavesOneChunk(c)
    requires u == t + 1 ==> c.minSilence == 0 && At(c, 3) <= c.maxSpeech
    ensures At(c, u) - At(c, t) >= 2 * c.window
  {
    ChunksApart(c);
    assert u > t;
    if u > t + 1 {
      assert At(c, t + 1) + c.window <= At(c, u);
    }
  }

  lemma {:induction false} MergedInOrder(c: Config, probs: seq<real>, k: nat)
    requires c.window > 0 && k < |Merged(Detected(c, probs), 0)|
    ensures var m := Merged(Detected(c, probs), 0);
            m[k].end <= At(c, |probs|) && (k + 1 < |m| ==> m[k].end <= m[k + 1].start)
  {
    DetectedOk(c, probs);
    MergedOk(Detected(c, probs), At(c, |probs|));
  }

  /** The chunk at which a segment ends is covered by its padding. */
  lemma {:induction false} PadReaches(c: Config, probs: seq<real>, k: nat, j: nat)
    requires c.window > 0 && Unlimited(c, |probs|) && c.window <= c.pad && !LeavesOneChunk(c) && j < |probs|
    requires k < |Merged(Detected(c, probs), 0)| && At(c, j) <= Merged(Detected(c, probs), 0)[k].end
    ensures At(c, j) + c.window <= PaddedEnd(Merged(Detected(c, probs), 0), c.pad, At(c, |probs|), k)
  {
    var m := Merged(Detected(c, probs), 0);
    PairApart(c, j, |probs|);
    MergedInOrder(c, probs, k);
    if m[k].end < At(c, j) + c.window && k + 1 < |m| {
      GapIsWide(c, probs, k, j);
    }
  }

  lemma {:induction false} NothingDropped(c: Config, probs: seq<real>)
    requires c.window > 0 && c.minSpeech == 0
    ensures PaddedSpeech(c, probs) == Padded(Merged(Detected(c, probs), 0), c.pad, At(c, |probs|))
  {
    DetectedOk(c, probs);
    MergedOk(Detected(c, probs), At(c, |probs|));
    KeepsAll(Merged(Detected(c, probs), 0), c.minSpeech);
  }

  lemma {:induction false} ChunkCovered(c: Config, probs: seq<real>, j: nat)
    requires c.window > 0 && Unlimited(c, |probs|) && KeepsSpeech(c) && j < |probs| && Speaks(c, probs, j)
    ensures Covered(PaddedSpeech(c, probs), At(c, j), At(c, j) + c.window)
  {
    var found, m, audio := Detected(c, probs), Merged(Detected(c, probs), 0), At(c, |probs|);
    DetectedOk(c, probs);
    MergedOk(found, audio);
    NothingDropped(c, probs);
    if Separates(c) || !HasRoom(c) {
      FoundCovers(c, probs);
      var k := MergedCovers(found, m, At(c, j), At(c, j) + c.window);
      PaddedGrows(m, c.pad, audio, k);
      assert Contains(PaddedSpeech(c, probs)[k], At(c, j), At(c, j) + c.window);
    } else {
      var k := MergedCovers(found, m, At(c, j), At(c, j) + Sure(c, probs, j));
      PaddedGrows(m, c.pad, audio, k);
      PadReaches(c, probs, k, j);
      assert Contains(PaddedSpeech(c, probs)[k], At(c, j), At(c, j) + c.window);
    }
  }

  /** A segment of one chunk does not grow over the next chunk. */
  lemma {:induction false} ShortPadding(c: Config)
    requires c.window > 0 && !Separates(c) && HasRoom(c) && c.pad < c.window
    ensures !AllSpeechCovered(c, FadingOut(c), PaddedSpeech(c, FadingOut(c)))
  {
    var probs := FadingOut(c);
    FadingIsCut(c);
    NothingDropped(c, probs);
    var p := PaddedSpeech(c, probs);
    assert p == Padded([Speech(0, At(c, 1))], c.pad, At(c, |probs|));
    assert |p| == 1 && p[0].end <= At(c, 1) + c.pad;
    assert !Covered(p, At(c, 1), At(c, 1) + c.window);
  }

  /** Speech, a chunk at the threshold, speech. */
  function Dipping(c: Config): seq<real> {
    [0.01, c.threshold, 0.01]
  }

  lemma {:induction false} DippingIsSplit(c: Config, probs: seq<real>)
    requires c.window > 0 && !Separates(c) && c.minSpeech == 0 && LeavesOneChunk(c) && probs == Dipping(c)
    ensures Detected(c, probs) == [Speech(0, At(c, 1)), Speech(At(c, 2), At(c, 3))]
  {
    ChunksApart(c);
    var s0, s1 := Scan([], false, 0, 0, 0, 0, false), Scan([], true, 0, 0, 0, 0, true);
    var s2 := Scan([Speech(0, At(c, 1))], false, 0, 0, 0, 0, false);
    assert Scanned(c, probs, 0) == s0;
    assert Scanned(c, probs, 1) == Step(c, s0, probs[0], At(c, 0)) == s1;
    assert !TooLong(c, s1, At(c, 1));
    assert Scanned(c, probs, 2) == Step(c, s1, probs[1], At(c, 1)) == s2;
    assert Scanned(c, probs, 3) == Step(c, s2, probs[2], At(c, 2));
  }

  /** Two segments with one chunk between them share it, so neither covers it. */
  lemma {:induction false} SharedChunk(c: Config, probs: seq<real>)
    requires c.window > 0 && !Separates(c) && c.minSpeech == 0 && LeavesOneChunk(c) && probs == Dipping(c)
    requires c.window <= c.pad
    ensures Unlimited(c, |probs|) && !AllSpeechCovered(c, probs, PaddedSpeech(c, probs))
  {
    DippingIsSplit(c, probs);
    NothingDropped(c, probs);
    ChunksApart(c);
    var s := [Speech(0, At(c, 1)), Speech(At(c, 2), At(c, 3))];
    assert At(c, 2) == At(c, 1) + c.window;
    assert !CloseGap(s, 0);
    assert Merged(s, 1) == s;
    var p := PaddedSpeech(c, probs);
    assert p == Padded(s, c.pad, At(c, 3));
    assert p[0].end == At(c, 1) + c.window / 2 && p[1].start == At(c, 2) - c.window / 2;
    assert Speaks(c, probs, 1) && !Covered(p, At(c, 1), At(c, 1) + c.window);
  }

  /**
   The whole pass covers all speech, for all probabilities, exactly if no chunk is both, or there is no room, or the
   padding is at least a chunk and no gap of one chunk is left open.
   */
  lemma {:induction false} PaddingCoversExactlyIf(c: Config)
    requires c.window > 0
    ensures (forall probs {:trigger PaddedSpeech(c, probs)} ::
               Unlimited(c, |probs|) ==> AllSpeechCovered(c, probs, PaddedSpeech(c, probs)))
            <==> KeepsSpeech(c)
  {
    if KeepsSpeech(c) {
      forall probs | Unlimited(c, |probs|)
        ensures AllSpeechCovered(c, probs, PaddedSpeech(c, probs))
      {
        forall j: nat | j < |probs| && Speaks(c, probs, j)
          ensures Covered(PaddedSpeech(c, probs), At(c, j), At(c, j) + c.window)
        {
          ChunkCovered(c, probs, j);
        }
      }
    } else if c.pad < c.window {
      FadingIsCut(c);
      ShortPadding(c);
    } else {
      SharedChunk(c, Dipping(c));
    }
  }

  // ---------------------------------------------------------------------------------------------
  // Short segments
  // ---------------------------------------------------------------------------------------------

  /** The settings without a shortest segment. */
  function KeepingShort(c: Config): Config {
    c.(minSpeech := 0)
  }

  /** The scan with a shortest segment leaves out the shorter ones, and is otherwise the same. */
  ghost predicate DropsShort(c: Config, s: Scan, all: Scan) {
    s == all.(speeches := Kept(all.speeches, c.minSpeech + 1))
  }

  lemma {:induction false} KeptPush(s: seq<Speech>, last: Speech, minSpeech: int)
    ensures Kept(s + [last], minSpeech) == Kept(s, minSpeech) + if LongEnough(last, minSpeech) then [last] else []
  {
    assert (s + [last])[..|s|] == s;
  }

  lemma {:induction false} StepDropsShort(c: Config, s: Scan, all: Scan, prob: real, cur: nat)
    requires DropsShort(c, s, all) && cur <= c.maxSpeech
    ensures DropsShort(c, Step(c, s, prob, cur), Step(KeepingShort(c), all, prob, cur))
  {
    var r, rAll := Resume(c, s, prob, cur), Resume(KeepingShort(c), all, prob, cur);
    ResumeDropsShort(c, s, all, prob, cur);
    assert !TooLong(c, r, cur) && !TooLong(KeepingShort(c), rAll, cur);
    assert NegThreshold(KeepingShort(c)) == NegThreshold(c);
    if prob < NegThreshold(c) && r.inSpeech {
      SilenceDropsShort(c, r, rAll, cur);
    }
  }

  lemma {:induction false} ResumeDropsShort(c: Config, s: Scan, all: Scan, prob: real, cur: nat)
    requires DropsShort(c, s, all)
    ensures DropsShort(c, Resume(c, s, prob, cur), Resume(KeepingShort(c), all, prob, cur))
  {
  }

  lemma {:induction false} SilenceDropsShort(c: Config, s: Scan, all: Scan, cur: nat)
    requires DropsShort(c, s, all)
    ensures DropsShort(c, Silence(c, s, cur), Silence(KeepingShort(c), all, cur))
  {
    var temp := if all.tempEnd == 0 then cur else all.tempEnd;
    if cur - temp >= c.minSilence {
      PushDropsShort(c, s, all, temp);
    }
  }

  /** A segment is pushed by both scans, by one of them, or by none. */
  lemma {:induction false} PushDropsShort(c: Config, s: Scan, all: Scan, end: nat)
    requires DropsShort(c, s, all)
    ensures DropsShort(c, if end - s.start > c.minSpeech then Push(s, s.start, end) else s,
                       if end - all.start > 0 then Push(all, all.start, end) else all)
  {
    KeptPush(all.speeches, Speech(all.start, end), c.minSpeech + 1);
  }

  lemma {:induction false} ScannedDropsShort(c: Config, probs: seq<real>, i: nat)
    requires c.window > 0 && i <= |probs| && At(c, |probs|) <= c.maxSpeech
    ensures DropsShort(c, Scanned(c, probs, i), Scanned(KeepingShort(c), probs, i))
  {
    if i > 0 {
      ScannedDropsShort(c, probs, i - 1);
      ChunksApart(c);
      StepDropsShort(c, Scanned(c, probs, i - 1), Scanned(KeepingShort(c), probs, i - 1), probs[i - 1], At(c, i - 1));
    }
  }

  /**
   With a shortest length, up to the length limit, exactly those segments are found that are longer, of the ones that
   are found without.
   */
  lemma {:induction false} ShortAreDropped(c: Config, probs: seq<real>)
    requires c.window > 0 && At(c, |probs|) <= c.maxSpeech
    ensures Detected(c, probs) == Kept(Detected(KeepingShort(c), probs), c.minSpeech + 1)
    ensures FoundExactly(KeepingShort(c), probs, Detected(KeepingShort(c), probs))
  {
    ScannedDropsShort(c, probs, |probs|);
    DetectedOk(KeepingShort(c), probs);
    var all := Scanned(KeepingShort(c), probs, |probs|);
    KeptPush(all.speeches, Speech(all.start, At(c, |probs|)), c.minSpeech + 1);
  }

  // ---------------------------------------------------------------------------------------------
  // The app's settings
  // ---------------------------------------------------------------------------------------------

  const NO_LIMIT := 3.4e38

  /** The settings of the app: no shortest speech, no longest one, 2 s of silence, 400 ms of padding. */
  function AppConfig(threshold: real, window: nat): Config {
    var clamped := if threshold < 0.0 then 0.0 else if threshold > 1.0 then 1.0 else threshold;
    ConfigFrom(clamped, window, 0, 2000, NO_LIMIT, 400)
  }

  /** They lose no speech, whatever the threshold, up to the length that stands for "no limit". */
  lemma {:induction false} AppKeepsAllSpeech(threshold: real, window: nat, n: nat)
    requires window > 0
    ensures Unlimited(AppConfig(threshold, window), n) <==> window * n <= INT_MAX / 2
    ensures window <= 6400 ==> KeepsSpeech(AppConfig(threshold, window))
  {
  }

  /** The output is cut from segments that cover, before rounding, every chunk at or above the threshold. */
  ghost predicate CutFrom(c: Config, samples: seq<int>, probs: seq<real>, output: seq<int>, segments: seq<Speech>) {
    && (c.window * |probs| <= INT_MAX / 2 && c.window <= 6400 ==> AllSpeechCovered(c, probs, PaddedSpeech(c, probs)))
    && AreInCs(PaddedSpeech(c, probs), segments) && PadsExactly(c, probs)
    && Apart(segments, SamplesToCs(At(c, |probs|)))
    && output == SelectedUpTo(samples, segments, |samples|)
  }

  /** From the samples and the detector's probabilities to the samples with speech. */
  method CollectWhisperSpeech(samples: seq<int>, threshold: real, window: nat, probs: seq<real>)
    returns (speech: bool, output: seq<int>)
    requires window > 0
    ensures speech <==> output != []
    ensures samples == [] ==> !speech
    ensures samples != [] ==>
              exists segments :: CutFrom(AppConfig(threshold, window), samples, probs, output, segments)
  {
    output := [];
    if |samples| == 0 {
      return false, output;
    }
    var c := AppConfig(threshold, window);
    AppKeepsAllSpeech(threshold, window, |probs|);
    PaddingCoversExactlyIf(c);
    var segments := SegmentsFromProbs(c, probs);
    output := CollectSpeech(samples, segments, SamplesToCs(At(c, |probs|)));
    assert CutFrom(c, samples, probs, output, segments);
    speech := |output| > 0;
  }
}
