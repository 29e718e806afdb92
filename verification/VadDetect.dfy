/**
 The first pass of whisper.cpp's voice activity detection: a state machine over the chunk probabilities that
 produces speech segments in samples.
 */
module VadDetect {

  const SAMPLE_RATE := 16000

  const INT_MAX := 0x7fff_ffff

  /** Silences longer than this (98 ms) are where a segment that gets too long is split. */
  const MIN_SILENCE_AT_MAX_SPEECH := 1568

  datatype Speech = Speech(start: int, end: int)

  /** Lengths in samples. */
  datatype Config = Config(threshold: real, window: nat, minSilence: nat, minSpeech: nat, maxSpeech: nat, pad: nat)

  function SamplesOf(ms: nat): nat {
    SAMPLE_RATE * ms / 1000
  }

  /** The length limit in samples: "no limit" above 100000 seconds, and when the subtraction leaves nothing. */
  function MaxSpeechSamples(seconds: real, window: nat, pad: nat): nat {
    if seconds > 100000.0 then INT_MAX / 2
    else
      var limit := SAMPLE_RATE * Truncate(seconds) - window - 2 * pad;
      if limit > INT_MAX || limit < 0 then INT_MAX / 2 else limit
  }

  function Truncate(x: real): int {
    if x >= 0.0 then x.Floor else -(-x).Floor
  }

  /** The lengths that the scan works with, from the settings in milliseconds and seconds. */
  function ConfigFrom(threshold: real, window: nat, minSpeechMs: nat, minSilenceMs: nat, maxSpeech: real,
                      padMs: nat): Config {
    Config(threshold, window, SamplesOf(minSilenceMs), SamplesOf(minSpeechMs),
           MaxSpeechSamples(maxSpeech, window, SamplesOf(padMs)), SamplesOf(padMs))
  }

  /** With a threshold below 0.01 a chunk can be speech and silence at once. */
  predicate Separates(c: Config) {
    c.threshold >= 0.01
  }

  function NegThreshold(c: Config): real {
    var lower := c.threshold - 0.15;
    if lower < 0.01 then 0.01 else lower
  }

  /** The sample at which chunk `j` starts. */
  function At(c: Config, j: nat): nat {
    c.window * j
  }

  lemma {:induction false} PairApart(c: Config, i: nat, j: nat)
    requires i < j
    ensures At(c, i) + c.window <= At(c, j)
    decreases j
  {
    assert At(c, j) == At(c, j - 1) + c.window;
    if i < j - 1 {
      PairApart(c, i, j - 1);
    }
  }

  lemma {:induction false} ChunksApart(c: Config)
    ensures forall i: nat, j: nat {:trigger At(c, i), At(c, j)} :: i < j ==> At(c, i) + c.window <= At(c, j)
    ensures At(c, 0) == 0
  {
    forall i: nat, j: nat | i < j
      ensures At(c, i) + c.window <= At(c, j)
    {
      PairApart(c, i, j);
    }
  }

  // ---------------------------------------------------------------------------------------------
  // The state machine
  // ---------------------------------------------------------------------------------------------

  /** The variables of the loop; 0 stands for "not set" in `tempEnd`, `prevEnd` and `nextStart`. */
  datatype Scan = Scan(speeches: seq<Speech>, inSpeech: bool, tempEnd: nat, prevEnd: nat, nextStart: nat, start: nat,
                       hasCurr: bool)

  function Reset(s: Scan): Scan {
    s.(inSpeech := false, hasCurr := false, prevEnd := 0, nextStart := 0, tempEnd := 0)
  }

  function Push(s: Scan, start: nat, end: nat): Scan {
    s.(speeches := s.speeches + [Speech(start, end)])
  }

  /** Back to speech: a pending end is dropped. */
  function Resume(c: Config, s: Scan, prob: real, cur: nat): Scan {
    if prob >= c.threshold && s.tempEnd != 0 then
      s.(tempEnd := 0, nextStart := if s.nextStart < s.prevEnd then cur else s.nextStart)
    else
      s
  }

  function TooLong(c: Config, s: Scan, cur: nat): bool {
    s.inSpeech && cur - s.start > c.maxSpeech
  }

  /** Splits a segment that got too long at its last long silence. */
  function SplitAtSilence(s: Scan): Scan {
    var pushed := Push(s, s.start, s.prevEnd);
    if s.nextStart < s.prevEnd then Reset(pushed)
    else pushed.(start := s.nextStart, hasCurr := true, prevEnd := 0, nextStart := 0, tempEnd := 0)
  }

  /** A silent chunk inside a segment. */
  function Silence(c: Config, s: Scan, cur: nat): Scan {
    var temp := if s.tempEnd == 0 then cur else s.tempEnd;
    var prev := if cur - temp > MIN_SILENCE_AT_MAX_SPEECH then temp else s.prevEnd;
    if cur - temp < c.minSilence then s.(tempEnd := temp, prevEnd := prev)
    else Reset(if temp - s.start > c.minSpeech then Push(s, s.start, temp) else s)
  }

  /** One chunk. */
  function Step(c: Config, s0: Scan, prob: real, cur: nat): Scan {
    var s := Resume(c, s0, prob, cur);
    if prob >= c.threshold && !s.inSpeech then
      s.(inSpeech := true, start := cur, hasCurr := true)
    else if TooLong(c, s, cur) && s.prevEnd == 0 then
      Reset(Push(s, s.start, cur))
    else
      var t := if TooLong(c, s, cur) then SplitAtSilence(s) else s;
      if prob < NegThreshold(c) && t.inSpeech then Silence(c, t, cur) else t
  }

  // ---------------------------------------------------------------------------------------------
  // Sorted, disjoint, inside the audio
  // ---------------------------------------------------------------------------------------------

  /** Segments in order, not overlapping, inside 0..end. */
  ghost predicate Apart(speeches: seq<Speech>, end: int) {
    && (forall k :: 0 <= k < |speeches| ==> 0 <= speeches[k].start <= speeches[k].end <= end)
    && forall k, m :: 0 <= k < m < |speeches| ==> speeches[k].end <= speeches[m].start
  }

  ghost predicate NoneEmpty(speeches: seq<Speech>) {
    forall k :: 0 <= k < |speeches| ==> speeches[k].start < speeches[k].end
  }

  lemma {:induction false} ApartPush(speeches: seq<Speech>, end: int, start: int, newEnd: int)
    requires Apart(speeches, end) && end <= start <= newEnd && 0 <= start
    ensures Apart(speeches + [Speech(start, newEnd)], newEnd)
    ensures NoneEmpty(speeches) && start < newEnd ==> NoneEmpty(speeches + [Speech(start, newEnd)])
  {
  }

  /** Only a chunk that is speech and silence at once can leave an end at the start of its segment. */
  ghost predicate EndOk(c: Config, s: Scan, end: nat) {
    s.start <= end && (Separates(c) ==> s.start < end)
  }

  ghost predicate PushedOk(c: Config, speeches: seq<Speech>, end: int) {
    Apart(speeches, end) && (Separates(c) ==> NoneEmpty(speeches))
  }

  /** What holds before the chunk at `cur`. */
  ghost predicate ScanOk(c: Config, s: Scan, cur: nat) {
    && s.inSpeech == s.hasCurr
    && PushedOk(c, s.speeches, if s.inSpeech then s.start else cur)
    && (s.inSpeech ==> s.start < cur)
    && (!s.inSpeech ==> s.tempEnd == s.prevEnd == s.nextStart == 0)
    && (s.tempEnd != 0 ==> EndOk(c, s, s.tempEnd) && s.tempEnd < cur)
    && (s.prevEnd != 0 ==> EndOk(c, s, s.prevEnd) && s.prevEnd < cur)
    && (s.nextStart != 0 ==> s.nextStart < cur)
  }

  /** Inside a segment at the chunk at `cur`, which may be where it starts. */
  ghost predicate InsideOk(c: Config, s: Scan, cur: nat) {
    && s.inSpeech && s.hasCurr && s.start <= cur && PushedOk(c, s.speeches, s.start)
    && (s.tempEnd != 0 ==> EndOk(c, s, s.tempEnd) && s.tempEnd < cur)
    && (s.prevEnd != 0 ==> EndOk(c, s, s.prevEnd) && s.prevEnd < cur)
    && s.nextStart <= cur
  }

  lemma {:induction false} SilenceOk(c: Config, s: Scan, cur: nat, next: nat)
    requires InsideOk(c, s, cur) && cur < next && (Separates(c) ==> s.start < cur)
    ensures ScanOk(c, Silence(c, s, cur), next)
  {
    ApartPush(s.speeches, s.start, s.start, if s.tempEnd == 0 then cur else s.tempEnd);
  }

  lemma {:induction false} SplitOk(c: Config, s: Scan, cur: nat)
    requires InsideOk(c, s, cur) && s.prevEnd != 0
    ensures var t := SplitAtSilence(s);
            && (if t.inSpeech then InsideOk(c, t, cur) && t.start == s.nextStart else ScanOk(c, t, cur))
            && t.tempEnd == 0
  {
    ApartPush(s.speeches, s.start, s.start, s.prevEnd);
  }

  lemma {:induction false} ResumeOk(c: Config, s: Scan, prob: real, cur: nat)
    requires ScanOk(c, s, cur) && s.inSpeech
    ensures var r := Resume(c, s, prob, cur);
            InsideOk(c, r, cur) && r.start < cur && (prob < c.threshold ==> r.nextStart < cur)
  {
  }

  /** A segment that got too long ends here. */
  lemma {:induction false} CutOk(c: Config, r: Scan, cur: nat, next: nat)
    requires InsideOk(c, r, cur) && r.start < cur < next
    ensures ScanOk(c, Reset(Push(r, r.start, cur)), next)
  {
    ApartPush(r.speeches, r.start, r.start, cur);
  }

  /** Inside a segment, after `Resume`. */
  lemma {:induction false} InsideStepOk(c: Config, r: Scan, prob: real, cur: nat, next: nat)
    requires InsideOk(c, r, cur) && r.start < cur < next && (prob < c.threshold ==> r.nextStart < cur)
    requires TooLong(c, r, cur) ==> r.prevEnd != 0
    ensures var t := if TooLong(c, r, cur) then SplitAtSilence(r) else r;
            ScanOk(c, if prob < NegThreshold(c) && t.inSpeech then Silence(c, t, cur) else t, next)
  {
    var t := r;
    if TooLong(c, r, cur) {
      SplitOk(c, r, cur);
      t := SplitAtSilence(r);
    }
    if prob < NegThreshold(c) && t.inSpeech {
      SilenceOk(c, t, cur, next);
    }
  }

  lemma {:induction false} StepOk(c: Config, s: Scan, prob: real, cur: nat, next: nat)
    requires ScanOk(c, s, cur) && cur < next
    ensures ScanOk(c, Step(c, s, prob, cur), next)
  {
    if s.inSpeech {
      var r := Resume(c, s, prob, cur);
      ResumeOk(c, s, prob, cur);
      if TooLong(c, r, cur) && r.prevEnd == 0 {
        CutOk(c, r, cur, next);
      } else {
        InsideStepOk(c, r, prob, cur, next);
      }
    }
  }

  // ---------------------------------------------------------------------------------------------
  // Exactly the speech, when no segment is split or dropped
  // ---------------------------------------------------------------------------------------------

  predicate Speaks(c: Config, probs: seq<real>, j: nat)
    requires j < |probs|
  {
    probs[j] >= c.threshold
  }

  predicate Silent(c: Config, probs: seq<real>, j: nat)
    requires j < |probs|
  {
    probs[j] < NegThreshold(c)
  }

  /** How much of a speech chunk is sure to be in its segment: nothing if it is silent as well. */
  function Sure(c: Config, probs: seq<real>, j: nat): nat
    requires j < |probs|
  {
    if Silent(c, probs, j) then 0 else c.window
  }

  ghost predicate NoSpeech(c: Config, probs: seq<real>, from: nat, upTo: nat)
    requires upTo <= |probs|
  {
    forall j: nat {:trigger Speaks(c, probs, j)} :: from <= j < upTo ==> !Speaks(c, probs, j)
  }

  /** Chunks t..e are a pause: silent at both ends, without speech behind `t`, and long enough. */
  ghost predicate Pause(c: Config, probs: seq<real>, t: nat, e: nat) {
    && t <= e < |probs| && Silent(c, probs, t) && Silent(c, probs, e) && NoSpeech(c, probs, t + 1, e + 1)
    && At(c, e) - At(c, t) >= c.minSilence
  }

  /** No pause starts between `a` and `t` and is over before `end`. */
  ghost predicate NoPause(c: Config, probs: seq<real>, a: nat, t: nat, end: nat) {
    forall p: nat, e: nat {:trigger Pause(c, probs, p, e)} :: a < p < t && e < end ==> !Pause(c, probs, p, e)
  }

  /** A segment starts with speech and lasts until the first pause, or the end of the audio. */
  ghost predicate SegmentAt(c: Config, probs: seq<real>, a: nat, t: nat) {
    && a < t <= |probs| && Speaks(c, probs, a)
    && (t == |probs| || exists e: nat :: Pause(c, probs, t, e))
    && NoPause(c, probs, a, t, |probs|)
  }

  ghost predicate IsSegment(c: Config, probs: seq<real>, s: Speech) {
    exists a: nat, t: nat :: SegmentAt(c, probs, a, t) && s == Speech(At(c, a), At(c, t))
  }

  ghost predicate Segments(c: Config, probs: seq<real>, speeches: seq<Speech>) {
    forall k :: 0 <= k < |speeches| ==> IsSegment(c, probs, speeches[k])
  }

  predicate Contains(s: Speech, from: int, upTo: int) {
    s.start <= from && upTo <= s.end
  }

  ghost predicate Covered(speeches: seq<Speech>, from: int, upTo: int) {
    exists k :: 0 <= k < |speeches| && Contains(speeches[k], from, upTo)
  }

  lemma {:induction false} CoveredPush(speeches: seq<Speech>, s: Speech, from: int, upTo: int)
    ensures Covered(speeches, from, upTo) || Contains(s, from, upTo) ==> Covered(speeches + [s], from, upTo)
  {
    var longer := speeches + [s];
    assert longer[|speeches|] == s;
    if Covered(speeches, from, upTo) {
      var k :| 0 <= k < |speeches| && Contains(speeches[k], from, upTo);
      assert longer[k] == speeches[k];
    }
  }

  /** Every silent chunk between `a` and `t` is followed by speech before `upTo`. */
  ghost predicate Resumed(c: Config, probs: seq<real>, a: nat, t: nat, upTo: nat)
    requires t <= upTo <= |probs|
  {
    forall p: nat {:trigger Silent(c, probs, p)} :: a < p < t && Silent(c, probs, p) ==>
           !NoSpeech(c, probs, p + 1, upTo)
  }

  /** The open segment started at chunk `a`; its pending end, if any, is the silent chunk `t`. */
  ghost predicate Open(c: Config, probs: seq<real>, s: Scan, i: nat, a: nat, t: nat)
    requires i <= |probs|
  {
    && a < i && Speaks(c, probs, a) && s.start == At(c, a)
    && NoPause(c, probs, a, i, i)
    && if s.tempEnd == 0 then Resumed(c, probs, a, i, i) else Pending(c, probs, s, i, a, t)
  }

  /** The pending end is the silent chunk `t`, and no speech has come since. */
  ghost predicate Pending(c: Config, probs: seq<real>, s: Scan, i: nat, a: nat, t: nat)
    requires i <= |probs|
  {
    && a < t < i && s.tempEnd == At(c, t) && Silent(c, probs, t) && NoSpeech(c, probs, t + 1, i)
    && Resumed(c, probs, a, t, t + 1)
  }

  /** Chunk `j` is in a finished segment, or in the open one before its pending end. */
  ghost predicate Caught(c: Config, probs: seq<real>, s: Scan, j: nat)
    requires j < |probs|
  {
    var end := At(c, j) + Sure(c, probs, j);
    || Covered(s.speeches, At(c, j), end)
    || (s.inSpeech && s.start <= At(c, j) && (s.tempEnd != 0 ==> end <= s.tempEnd))
  }

  ghost predicate AllCaught(c: Config, probs: seq<real>, s: Scan, i: nat)
    requires i <= |probs|
  {
    forall j: nat {:trigger Speaks(c, probs, j)} :: j < i && Speaks(c, probs, j) ==> Caught(c, probs, s, j)
  }

  ghost predicate Exact(c: Config, probs: seq<real>, s: Scan, i: nat, a: nat, t: nat)
    requires i <= |probs|
  {
    Segments(c, probs, s.speeches) && AllCaught(c, probs, s, i) && (s.inSpeech ==> Open(c, probs, s, i, a, t))
  }

  /** No segment is ever too long, and none is too short. */
  predicate Unlimited(c: Config, n: nat) {
    At(c, n) <= c.maxSpeech && c.minSpeech == 0
  }

  lemma {:induction false} NoPauseAcross(c: Config, probs: seq<real>, a: nat, t: nat, p: nat, e: nat)
    requires t < |probs| && Resumed(c, probs, a, t, t + 1) && a < p < t <= e < |probs|
    ensures !Pause(c, probs, p, e)
  {
  }

  /** Chunk `i` closes the open segment with pending end `t`. */
  lemma {:induction false} Closing(c: Config, probs: seq<real>, i: nat, a: nat, t: nat)
    requires i < |probs| && Silent(c, probs, i)
    requires a < t <= i && Speaks(c, probs, a) && Silent(c, probs, t) && NoSpeech(c, probs, t + 1, i + 1)
    requires NoPause(c, probs, a, i, i) && Resumed(c, probs, a, t, t + 1) && At(c, i) - At(c, t) >= c.minSilence
    ensures SegmentAt(c, probs, a, t)
  {
    assert Pause(c, probs, t, i);
    forall p: nat, e: nat | a < p < t && e < |probs|
      ensures !Pause(c, probs, p, e)
    {
      if e >= t {
        NoPauseAcross(c, probs, a, t, p, e);
      }
    }
  }

  /** A silent chunk that does not close the segment leaves it without a pause. */
  lemma {:induction false} NotClosing(c: Config, probs: seq<real>, i: nat, a: nat, t: nat)
    requires i < |probs| && a < t <= i && NoPause(c, probs, a, i, i) && Resumed(c, probs, a, t, t + 1)
    requires At(c, i) - At(c, t) < c.minSilence
    ensures NoPause(c, probs, a, i + 1, i + 1)
  {
    ChunksApart(c);
    forall p: nat, e: nat | a < p < i + 1 && e < i + 1
      ensures !Pause(c, probs, p, e)
    {
      if e == i && p < t {
        NoPauseAcross(c, probs, a, t, p, e);
      }
    }
  }

  lemma {:induction false} NotSilent(c: Config, probs: seq<real>, i: nat, a: nat)
    requires i < |probs| && !Silent(c, probs, i) && NoPause(c, probs, a, i, i)
    ensures NoPause(c, probs, a, i + 1, i + 1)
  {
  }

  /** A speech chunk outside opens a segment. */
  lemma {:induction false} OpenExact(c: Config, probs: seq<real>, s: Scan, i: nat, a: nat, t: nat)
    requires i < |probs| && Speaks(c, probs, i) && !s.inSpeech
    requires ScanOk(c, s, At(c, i)) && Exact(c, probs, s, i, a, t)
    ensures Exact(c, probs, Step(c, s, probs[i], At(c, i)), i + 1, i, t)
  {
    ChunksApart(c);
    var r := Step(c, s, probs[i], At(c, i));
    assert r.speeches == s.speeches && r.tempEnd == 0 && r.inSpeech && r.start == At(c, i);
    forall j: nat | j < i + 1 && Speaks(c, probs, j)
      ensures Caught(c, probs, r, j)
    {
      assert j < i ==> Caught(c, probs, s, j);
    }
  }

  /** Inside a segment, before it is decided whether chunk `i` is silent. */
  ghost predicate Ready(c: Config, probs: seq<real>, r: Scan, i: nat, a: nat, t: nat)
    requires i < |probs|
  {
    && Segments(c, probs, r.speeches) && AllCaught(c, probs, r, i)
    && r.inSpeech && a < i && Speaks(c, probs, a) && r.start == At(c, a) && NoPause(c, probs, a, i, i)
    && if r.tempEnd == 0 then Resumed(c, probs, a, i, i + 1) else Pending(c, probs, r, i, a, t) && !Speaks(c, probs, i)
  }

  lemma {:induction false} ResumedNext(c: Config, probs: seq<real>, a: nat, i: nat)
    requires i < |probs| && (Resumed(c, probs, a, i, i) || Speaks(c, probs, i))
    ensures Resumed(c, probs, a, i, i + 1)
  {
    forall p: nat | a < p < i && Silent(c, probs, p)
      ensures !NoSpeech(c, probs, p + 1, i + 1)
    {
      if Resumed(c, probs, a, i, i) {
        assert !NoSpeech(c, probs, p + 1, i);
      }
    }
  }

  lemma {:induction false} ResumeReady(c: Config, probs: seq<real>, s: Scan, i: nat, a: nat, t: nat)
    requires i < |probs| && s.inSpeech && Exact(c, probs, s, i, a, t)
    ensures Ready(c, probs, Resume(c, s, probs[i], At(c, i)), i, a, t)
  {
    var r := Resume(c, s, probs[i], At(c, i));
    assert r.speeches == s.speeches && r.inSpeech && r.start == s.start;
    if r.tempEnd == 0 {
      ResumedNext(c, probs, a, i);
    }
    forall j: nat | j < i && Speaks(c, probs, j)
      ensures Caught(c, probs, r, j)
    {
      assert Caught(c, probs, s, j);
    }
  }

  /** A silent chunk inside a segment sets the pending end, or closes the segment there. */
  lemma {:induction false} SilenceExact(c: Config, probs: seq<real>, r: Scan, i: nat, a: nat, t: nat) returns (t2: nat)
    requires Unlimited(c, |probs|) && i < |probs| && Silent(c, probs, i) && c.window > 0 && Ready(c, probs, r, i, a, t)
    ensures Exact(c, probs, Silence(c, r, At(c, i)), i + 1, a, t2)
  {
    t2 := if r.tempEnd == 0 then i else t;
    if At(c, i) - At(c, t2) < c.minSilence {
      SilenceStaysOpen(c, probs, r, i, a, t2);
    } else {
      SilenceCloses(c, probs, r, i, a, t2);
    }
  }

  /** The silence starts at chunk `t`. */
  ghost predicate SilentSince(c: Config, probs: seq<real>, r: Scan, i: nat, a: nat, t: nat)
    requires i < |probs|
  {
    && Silent(c, probs, i) && Ready(c, probs, r, i, a, t)
    && if r.tempEnd == 0 then t == i else At(c, t) == r.tempEnd
  }

  lemma {:induction false} SilenceStaysOpen(c: Config, probs: seq<real>, r: Scan, i: nat, a: nat, t: nat)
    requires i < |probs| && c.window > 0 && SilentSince(c, probs, r, i, a, t) && At(c, i) - At(c, t) < c.minSilence
    ensures Exact(c, probs, Silence(c, r, At(c, i)), i + 1, a, t)
  {
    ChunksApart(c);
    var after := Silence(c, r, At(c, i));
    NotClosing(c, probs, i, a, t);
    assert after.speeches == r.speeches && after.tempEnd == At(c, t) && Pending(c, probs, after, i + 1, a, t);
    forall j: nat | j < i + 1 && Speaks(c, probs, j)
      ensures Caught(c, probs, after, j)
    {
      assert j < i ==> Caught(c, probs, r, j);
    }
  }

  /** Where a speech chunk is once the segment that starts at chunk `a` is closed at chunk `t`. */
  lemma {:induction false} ClosedCatches(c: Config, probs: seq<real>, r: Scan, i: nat, a: nat, t: nat, j: nat)
    requires i < |probs| && j <= i && Speaks(c, probs, j) && (j < i ==> Caught(c, probs, r, j))
    requires Silent(c, probs, i) && r.inSpeech && r.start == At(c, a) && a < i
    requires if r.tempEnd == 0 then t == i else At(c, t) == r.tempEnd && !Speaks(c, probs, i)
    ensures Covered(r.speeches + [Speech(At(c, a), At(c, t))], At(c, j), At(c, j) + Sure(c, probs, j))
  {
    ChunksApart(c);
    CoveredPush(r.speeches, Speech(At(c, a), At(c, t)), At(c, j), At(c, j) + Sure(c, probs, j));
  }

  lemma {:induction false} SilenceCloses(c: Config, probs: seq<real>, r: Scan, i: nat, a: nat, t: nat)
    requires Unlimited(c, |probs|) && i < |probs| && c.window > 0
    requires SilentSince(c, probs, r, i, a, t) && At(c, i) - At(c, t) >= c.minSilence
    ensures Exact(c, probs, Silence(c, r, At(c, i)), i + 1, a, t)
  {
    ChunksApart(c);
    var after, closed := Silence(c, r, At(c, i)), Speech(At(c, a), At(c, t));
    Closing(c, probs, i, a, t);
    assert IsSegment(c, probs, closed);
    assert after.speeches == r.speeches + [closed];
    forall j: nat | j < i + 1 && Speaks(c, probs, j)
      ensures Caught(c, probs, after, j)
    {
      ClosedCatches(c, probs, r, i, a, t, j);
    }
  }

  lemma {:induction false} LoudResumed(c: Config, probs: seq<real>, a: nat, i: nat)
    requires i < |probs| && !Silent(c, probs, i) && Resumed(c, probs, a, i, i + 1)
    ensures Resumed(c, probs, a, i + 1, i + 1)
  {
  }

  lemma {:induction false} CaughtNext(c: Config, probs: seq<real>, r: Scan, i: nat)
    requires i < |probs| && AllCaught(c, probs, r, i) && (Speaks(c, probs, i) ==> Caught(c, probs, r, i))
    ensures AllCaught(c, probs, r, i + 1)
  {
  }

  /** Any other chunk inside a segment leaves it open. */
  lemma {:induction false} LoudExact(c: Config, probs: seq<real>, r: Scan, i: nat, a: nat, t: nat)
    requires i < |probs| && !Silent(c, probs, i) && Ready(c, probs, r, i, a, t)
    requires r.tempEnd != 0 ==> !Speaks(c, probs, i)
    ensures Exact(c, probs, r, i + 1, a, t)
  {
    ChunksApart(c);
    NotSilent(c, probs, i, a);
    if r.tempEnd == 0 {
      LoudResumed(c, probs, a, i);
    }
    assert Open(c, probs, r, i + 1, a, t);
    CaughtNext(c, probs, r, i);
  }

  lemma {:induction false} StepExact(c: Config, probs: seq<real>, s: Scan, i: nat, a: nat, t: nat)
    returns (a2: nat, t2: nat)
    requires Unlimited(c, |probs|) && i < |probs| && c.window > 0
    requires ScanOk(c, s, At(c, i)) && Exact(c, probs, s, i, a, t)
    ensures Exact(c, probs, Step(c, s, probs[i], At(c, i)), i + 1, a2, t2)
  {
    ChunksApart(c);
    a2, t2 := a, t;
    var r := Resume(c, s, probs[i], At(c, i));
    assert !TooLong(c, r, At(c, i));
    if s.inSpeech {
      ResumeReady(c, probs, s, i, a, t);
      if Silent(c, probs, i) {
        t2 := SilenceExact(c, probs, r, i, a, t);
      } else {
        LoudExact(c, probs, r, i, a, t);
      }
    } else if Speaks(c, probs, i) {
      a2 := i;
      OpenExact(c, probs, s, i, a, t);
    } else {
      assert Exact(c, probs, s, i + 1, a, t);
    }
  }

  /** What the audio end adds: the open segment, if it is long enough. */
  function Finish(c: Config, s: Scan, audio: nat): seq<Speech> {
    if s.hasCurr && audio - s.start > c.minSpeech then s.speeches + [Speech(s.start, audio)] else s.speeches
  }

  lemma {:induction false} FinishOk(c: Config, s: Scan, audio: nat)
    requires ScanOk(c, s, audio)
    ensures PushedOk(c, Finish(c, s, audio), audio)
  {
  }

  /** The segments are exactly the stretches from speech to the first pause; they contain all speech that is sure. */
  ghost predicate FoundExactly(c: Config, probs: seq<real>, speeches: seq<Speech>) {
    && Segments(c, probs, speeches)
    && forall j: nat {:trigger Speaks(c, probs, j)} :: j < |probs| && Speaks(c, probs, j) ==>
         Covered(speeches, At(c, j), At(c, j) + Sure(c, probs, j))
  }

  lemma {:induction false} FinishExact(c: Config, probs: seq<real>, s: Scan, a: nat, t: nat)
    requires Unlimited(c, |probs|) && ScanOk(c, s, At(c, |probs|)) && Exact(c, probs, s, |probs|, a, t)
    ensures FoundExactly(c, probs, Finish(c, s, At(c, |probs|)))
  {
    ChunksApart(c);
    if s.inSpeech {
      assert SegmentAt(c, probs, a, |probs|) by {
        StillOpen(c, probs, s, a, t);
      }
      assert IsSegment(c, probs, Speech(s.start, At(c, |probs|)));
    }
    forall j: nat | j < |probs| && Speaks(c, probs, j)
      ensures Covered(Finish(c, s, At(c, |probs|)), At(c, j), At(c, j) + Sure(c, probs, j))
    {
      assert At(c, j) + c.window <= At(c, |probs|);
      FinishCovers(c, probs, s, At(c, |probs|), j);
    }
  }

  lemma {:induction false} StillOpen(c: Config, probs: seq<real>, s: Scan, a: nat, t: nat)
    requires s.inSpeech && Open(c, probs, s, |probs|, a, t)
    ensures SegmentAt(c, probs, a, |probs|)
  {
  }

  lemma {:induction false} FinishCovers(c: Config, probs: seq<real>, s: Scan, audio: nat, j: nat)
    requires j < |probs| && Caught(c, probs, s, j) && At(c, j) + c.window <= audio
    requires s.inSpeech == s.hasCurr && c.minSpeech == 0 && (s.inSpeech ==> s.start < audio)
    ensures Covered(Finish(c, s, audio), At(c, j), At(c, j) + Sure(c, probs, j))
  {
    CoveredPush(s.speeches, Speech(s.start, audio), At(c, j), At(c, j) + Sure(c, probs, j));
  }

  /** The state before chunk `i`. */
  function Scanned(c: Config, probs: seq<real>, i: nat): Scan
    requires i <= |probs|
  {
    if i == 0 then Scan([], false, 0, 0, 0, 0, false) else Step(c, Scanned(c, probs, i - 1), probs[i - 1], At(c, i - 1))
  }

  lemma {:induction false} ScannedOk(c: Config, probs: seq<real>, i: nat)
    requires c.window > 0 && i <= |probs|
    ensures ScanOk(c, Scanned(c, probs, i), At(c, i))
  {
    ChunksApart(c);
    if i > 0 {
      ScannedOk(c, probs, i - 1);
      StepOk(c, Scanned(c, probs, i - 1), probs[i - 1], At(c, i - 1), At(c, i));
    }
  }

  /** What is known of the scan before chunk `i`. */
  ghost predicate Known(c: Config, probs: seq<real>, i: nat, s: Scan, a: nat, t: nat) {
    i <= |probs| && s == Scanned(c, probs, i) && Exact(c, probs, s, i, a, t)
  }

  lemma {:induction false} KnownNext(c: Config, probs: seq<real>, i: nat, s: Scan, a: nat, t: nat)
    returns (s2: Scan, a2: nat, t2: nat)
    requires c.window > 0 && i < |probs| && Unlimited(c, |probs|) && Known(c, probs, i, s, a, t)
    ensures Known(c, probs, i + 1, s2, a2, t2)
  {
    ScannedOk(c, probs, i);
    a2, t2 := StepExact(c, probs, s, i, a, t);
    s2 := Step(c, s, probs[i], At(c, i));
    assert s2 == Scanned(c, probs, i + 1);
  }

  lemma {:induction false} ScannedExact(c: Config, probs: seq<real>, i: nat) returns (s: Scan, a: nat, t: nat)
    requires c.window > 0 && i <= |probs| && Unlimited(c, |probs|)
    ensures Known(c, probs, i, s, a, t)
  {
    s, a, t := Scan([], false, 0, 0, 0, 0, false), 0, 0;
    if i > 0 {
      s, a, t := ScannedExact(c, probs, i - 1);
      s, a, t := KnownNext(c, probs, i - 1, s, a, t);
    }
  }

  /** The segments that the pass finds. */
  function Detected(c: Config, probs: seq<real>): seq<Speech> {
    Finish(c, Scanned(c, probs, |probs|), At(c, |probs|))
  }

  /** They are in order, apart and inside the audio; without limits they are exactly the stretches of speech. */
  lemma {:induction false} DetectedOk(c: Config, probs: seq<real>)
    requires c.window > 0
    ensures Apart(Detected(c, probs), At(c, |probs|)) && (Separates(c) ==> NoneEmpty(Detected(c, probs)))
    ensures Unlimited(c, |probs|) ==> FoundExactly(c, probs, Detected(c, probs))
  {
    ScannedOk(c, probs, |probs|);
    FinishOk(c, Scanned(c, probs, |probs|), At(c, |probs|));
    if Unlimited(c, |probs|) {
      var s, a, t := ScannedExact(c, probs, |probs|);
      FinishExact(c, probs, s, a, t);
    }
  }

  /** The body of the detection loop on the code's own variables follows the state machine. */
  method Chunk(c: Config, negThreshold: real, currProb: real, currSample: nat, s: seq<Speech>, in0: bool, temp0: nat,
               prev0: nat, next0: nat, start0: nat, has0: bool)
    returns (speeches: seq<Speech>, isSpeechSegment: bool, tempEnd: nat, prevEnd: nat, nextStart: nat,
             currSpeechStart: nat, hasCurrSpeech: bool)
    requires negThreshold == NegThreshold(c)
    ensures Scan(speeches, isSpeechSegment, tempEnd, prevEnd, nextStart, currSpeechStart, hasCurrSpeech)
         == Step(c, Scan(s, in0, temp0, prev0, next0, start0, has0), currProb, currSample)
  {
    speeches, isSpeechSegment, hasCurrSpeech := s, in0, has0;
    tempEnd, prevEnd, nextStart, currSpeechStart := temp0, prev0, next0, start0;
    if currProb >= c.threshold && tempEnd != 0 {
      tempEnd := 0;
      if nextStart < prevEnd {
        nextStart := currSample;
      }
    }
    if currProb >= c.threshold && !isSpeechSegment {
      isSpeechSegment := true;
      currSpeechStart := currSample;
      hasCurrSpeech := true;
      return;
    }
    if isSpeechSegment && currSample - currSpeechStart > c.maxSpeech {
      if prevEnd != 0 {
        speeches := speeches + [Speech(currSpeechStart, prevEnd)];
        hasCurrSpeech := true;
        if nextStart < prevEnd {
          isSpeechSegment := false;
          hasCurrSpeech := false;
        } else {
          currSpeechStart := nextStart;
        }
        prevEnd, nextStart, tempEnd := 0, 0, 0;
      } else {
        speeches := speeches + [Speech(currSpeechStart, currSample)];
        prevEnd, nextStart, tempEnd := 0, 0, 0;
        isSpeechSegment := false;
        hasCurrSpeech := false;
        return;
      }
    }
    if currProb < negThreshold && isSpeechSegment {
      if tempEnd == 0 {
        tempEnd := currSample;
      }
      if currSample - tempEnd > MIN_SILENCE_AT_MAX_SPEECH {
        prevEnd := tempEnd;
      }
      if currSample - tempEnd < c.minSilence {
        return;
      }
      if tempEnd - currSpeechStart > c.minSpeech {
        speeches := speeches + [Speech(currSpeechStart, tempEnd)];
      }
      prevEnd, nextStart, tempEnd := 0, 0, 0;
      isSpeechSegment := false;
      hasCurrSpeech := false;
    }
  }

  /** The detection loop. */
  method Detect(c: Config, probs: seq<real>) returns (speeches: seq<Speech>)
    ensures speeches == Detected(c, probs)
  {
    speeches := [];
    var negThreshold := c.threshold - 0.15;
    if negThreshold < 0.01 {
      negThreshold := 0.01;
    }
    var isSpeechSegment, hasCurrSpeech := false, false;
    var tempEnd: nat, prevEnd: nat, nextStart: nat, currSpeechStart: nat := 0, 0, 0, 0;
    for i := 0 to |probs|
      invariant Scan(speeches, isSpeechSegment, tempEnd, prevEnd, nextStart, currSpeechStart, hasCurrSpeech)
             == Scanned(c, probs, i)
    {
      speeches, isSpeechSegment, tempEnd, prevEnd, nextStart, currSpeechStart, hasCurrSpeech :=
        Chunk(c, negThreshold, probs[i], At(c, i), speeches, isSpeechSegment, tempEnd, prevEnd, nextStart,
              currSpeechStart, hasCurrSpeech);
    }
    var audioLength := At(c, |probs|);
    if hasCurrSpeech && audioLength - currSpeechStart > c.minSpeech {
      speeches := speeches + [Speech(currSpeechStart, audioLength)];
    }
  }
}
