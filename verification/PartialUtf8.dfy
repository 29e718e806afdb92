/**
 Decoding the text of tokens for the grammar. A code point may be split between tokens, so the decoder returns
 the incomplete value and takes it up again with the next token.
 */
module PartialUtf8 {
  import opened Binary
  import opened UtfConverter
  import Sequences

  /** Code points with the terminating zero, and what is carried over. */
  datatype Decoded = Decoded(points: seq<nat>, partial: Partial)

  const INVALID := Decoded([0], Partial(0, -1))

  const START := Partial(0, 0)

  /** How many bytes follow a first byte; -1 for a continuation byte. */
  function Following(first: Byte): int {
    if first < 0x80 then 0 else if first < 0xC0 then -1 else if first < 0xE0 then 1 else if first < 0xF0 then 2 else 3
  }

  /** The bits of a first byte that the mask for its length keeps. */
  function FirstBits(first: Byte): nat
    requires Following(first) >= 0
  {
    if Following(first) == 0 then first % 128
    else if Following(first) == 1 then first % 64
    else if Following(first) == 2 then first % 32
    else first % 16
  }

  // ---------------------------------------------------------------------------------------------
  // The decoder
  // ---------------------------------------------------------------------------------------------

  /** What a C string shows of a text: it ends at the first zero byte. */
  function UpToZero(text: seq<Byte>): (visible: seq<Byte>)
    ensures visible <= text && 0 !in visible && (|visible| < |text| ==> text[|visible|] == 0)
  {
    if text == [] || text[0] == 0 then [] else [text[0]] + UpToZero(text[1..])
  }

  /** The inner loop takes bytes without looking at their high bits. */
  function Follow(src: seq<Byte>, i: nat, value: nat, remaining: nat): (nat, nat, nat)
    requires i <= |src|
    ensures i <= Follow(src, i, value, remaining).0 <= |src| && Follow(src, i, value, remaining).2 <= remaining
    decreases |src| - i
  {
    if i < |src| && remaining > 0 then Follow(src, i + 1, value * 64 + LowBits(src[i]), remaining - 1)
    else (i, value, remaining)
  }

  /** The loop over sequences that start in this text. */
  function Later(src: seq<Byte>, i: nat, points: seq<nat>, value: nat, remaining: int): (d: Decoded)
    requires i <= |src|
    ensures IsDecoded(d) && (remaining <= 3 ==> d.partial.remaining <= 3)
    ensures remaining >= 0 ==> d == INVALID || d.partial.remaining >= 0
    decreases |src| - i
  {
    if i == |src| then Decoded(points + [0], Partial(value, remaining))
    else if Following(src[i]) < 0 then INVALID
    else
      var f := Follow(src, i + 1, FirstBits(src[i]), Following(src[i]));
      Later(src, f.0, if f.2 == 0 then points + [f.1] else points, f.1, f.2)
  }

  /** The loop that continues a sequence of an earlier text; it does look at the high bits. */
  function Continued(src: seq<Byte>, i: nat, value: nat, remaining: int, pending: bool): (d: Decoded)
    requires i <= |src|
    ensures IsDecoded(d) && (remaining <= 3 ==> d.partial.remaining <= 3)
    decreases |src| - i
  {
    if i < |src| && remaining > 0 then
      if IsContinuation(src[i]) then Continued(src, i + 1, value * 64 + LowBits(src[i]), remaining - 1, pending)
      else INVALID
    else
      Later(src, i, if pending && remaining == 0 then [value] else [], value, remaining)
  }

  function Decode(src: seq<Byte>, start: Partial): (d: Decoded)
    ensures IsDecoded(d) && (start.remaining <= 3 ==> d.partial.remaining <= 3)
  {
    Continued(UpToZero(src), 0, start.value, start.remaining, start.remaining > 0)
  }

  predicate IsDecoded(d: Decoded) {
    |d.points| > 0 && d.points[|d.points| - 1] == 0
  }

  /** The code points without the terminating zero. */
  function Found(d: Decoded): seq<nat>
    requires IsDecoded(d)
  {
    d.points[..|d.points| - 1]
  }

  method DecodeUtf8(src: seq<Byte>, start: Partial) returns (d: Decoded)
    ensures d == Decode(src, start)
  {
    ghost var text := UpToZero(src);
    assert forall k :: 0 <= k < |text| ==> text[k] == src[k] && src[k] != 0;
    var i: nat := 0;
    var points: seq<nat> := [];
    var value: nat := start.value;
    var remaining: int := start.remaining;
    while i < |src| && src[i] != 0 && remaining > 0
      invariant i <= |text| && Decode(src, start) == Continued(text, i, value, remaining, start.remaining > 0)
    {
      if !IsContinuation(src[i]) {
        return INVALID;
      }
      value := value * 64 + LowBits(src[i]);
      i := i + 1;
      remaining := remaining - 1;
    }
    if start.remaining > 0 && remaining == 0 {
      Sequences.EmptyLeft([value]);
      points := points + [value];
    }
    while i < |src| && src[i] != 0
      invariant i <= |text| && Decode(src, start) == Later(text, i, points, value, remaining)
      decreases |src| - i
    {
      var first := src[i];
      remaining := Following(first);
      if remaining < 0 {
        return INVALID;
      }
      ghost var at := i;
      value := FirstBits(first);
      i := i + 1;
      while i < |src| && src[i] != 0 && remaining > 0
        invariant at < i <= |text| && remaining >= 0
        invariant Follow(text, at + 1, FirstBits(first), Following(first)) == Follow(text, i, value, remaining)
      {
        value := value * 64 + LowBits(src[i]);
        i := i + 1;
        remaining := remaining - 1;
      }
      if remaining == 0 {
        points := points + [value];
      }
    }
    d := Decoded(points + [0], Partial(value, remaining));
  }

  // ---------------------------------------------------------------------------------------------
  // Byte by byte
  // ---------------------------------------------------------------------------------------------

  /** The decoder as a machine that takes one byte at a time. */
  datatype Scan = Scan(points: seq<nat>, value: nat, remaining: nat)

  const FRESH := Scan([], 0, 0)

  /** A continuation byte inside a sequence, a first byte between sequences. */
  predicate Fits(s: Scan, b: Byte) {
    if s.remaining > 0 then IsContinuation(b) else Following(b) >= 0
  }

  function Feed(s: Scan, b: Byte): Scan
    requires Fits(s, b)
  {
    var value := if s.remaining > 0 then s.value * 64 + LowBits(b) else FirstBits(b);
    var remaining: nat := if s.remaining > 0 then s.remaining - 1 else Following(b);
    Scan(if remaining == 0 then s.points + [value] else s.points, value, remaining)
  }

  predicate AllFit(s: Scan, text: seq<Byte>)
    decreases |text|
  {
    text == [] || (Fits(s, text[0]) && AllFit(Feed(s, text[0]), text[1..]))
  }

  function FeedAll(s: Scan, text: seq<Byte>): Scan
    requires AllFit(s, text)
    decreases |text|
  {
    if text == [] then s else FeedAll(Feed(s, text[0]), text[1..])
  }

  lemma {:induction false} FeedJoin(s: Scan, a: seq<Byte>, b: seq<Byte>)
    ensures AllFit(s, a + b) <==> AllFit(s, a) && AllFit(FeedAll(s, a), b)
    ensures AllFit(s, a + b) ==> FeedAll(s, a + b) == FeedAll(FeedAll(s, a), b)
    decreases |a|
  {
    if a == [] {
      assert a + b == b;
    } else {
      assert (a + b)[0] == a[0] && (a + b)[1..] == a[1..] + b;
      if Fits(s, a[0]) {
        FeedJoin(Feed(s, a[0]), a[1..], b);
      }
    }
  }

  /** Points found earlier stay in front. */
  lemma {:induction false} FeedShift(before: seq<nat>, s: Scan, text: seq<Byte>)
    ensures var t := s.(points := before + s.points);
            && (AllFit(t, text) <==> AllFit(s, text))
            && (AllFit(s, text) ==> FeedAll(t, text) == FeedAll(s, text).(points := before + FeedAll(s, text).points))
    decreases |text|
  {
    var t := s.(points := before + s.points);
    if text != [] && Fits(s, text[0]) {
      var next := Feed(s, text[0]);
      FeedShift(before, next, text[1..]);
      Sequences.Associative(before, s.points, [next.value]);
      assert Feed(t, text[0]) == next.(points := before + next.points);
    }
  }

  /** The bytes of `src` up to `j` end between sequences, unless they are all of it. */
  ghost predicate EndsAt(src: seq<Byte>, i: nat, j: nat, s: Scan) {
    i <= j <= |src| && AllFit(s, src[i..j]) && (j < |src| ==> FeedAll(s, src[i..j]).remaining == 0)
  }

  lemma {:induction false} EndsNext(src: seq<Byte>, i: nat, j: nat, s: Scan)
    requires EndsAt(src, i, j, s) && i < j
    ensures Fits(s, src[i]) && EndsAt(src, i + 1, j, Feed(s, src[i]))
    ensures FeedAll(s, src[i..j]) == FeedAll(Feed(s, src[i]), src[i + 1..j])
  {
    assert src[i..j][0] == src[i] && src[i..j][1..] == src[i + 1..j];
  }

  /** The inner loop brings the machine to position `k`. */
  lemma {:induction false} FollowFeeds(src: seq<Byte>, i: nat, j: nat, s: Scan) returns (k: nat, t: Scan)
    requires s.remaining > 0 && EndsAt(src, i, j, s)
    ensures Follow(src, i, s.value, s.remaining) == (k, t.value, t.remaining)
    ensures t.points == if t.remaining == 0 then s.points + [t.value] else s.points
    ensures i <= k && EndsAt(src, k, j, t) && FeedAll(s, src[i..j]) == FeedAll(t, src[k..j])
    ensures t.remaining > 0 ==> k == |src|
    decreases j - i
  {
    k, t := i, s;
    if i < j {
      EndsNext(src, i, j, s);
      k, t := i + 1, Feed(s, src[i]);
      if t.remaining > 0 {
        k, t := FollowFeeds(src, i + 1, j, t);
      }
    }
  }

  /** On bytes that fit, the loop gets as far as the machine. */
  lemma {:induction false} LaterFeeds(src: seq<Byte>, i: nat, j: nat, s: Scan)
    requires (s.remaining == 0 || i == |src|) && EndsAt(src, i, j, s)
    ensures var t := FeedAll(s, src[i..j]);
            Later(src, i, s.points, s.value, s.remaining) == Later(src, j, t.points, t.value, t.remaining)
    decreases j - i
  {
    if i < j {
      EndsNext(src, i, j, s);
      var t := Feed(s, src[i]);
      if t.remaining > 0 {
        var k, next := FollowFeeds(src, i + 1, j, t);
        LaterFeeds(src, k, j, next);
      } else {
        LaterFeeds(src, i + 1, j, t);
      }
    }
  }

  ghost predicate IsFed(d: Decoded, s: Scan) {
    d == Decoded(s.points + [0], Partial(s.value, s.remaining))
  }

  lemma {:induction false} LaterIsFed(src: seq<Byte>, i: nat, s: Scan)
    requires i <= |src| && (s.remaining == 0 || i == |src|) && AllFit(s, src[i..])
    ensures IsFed(Later(src, i, s.points, s.value, s.remaining), FeedAll(s, src[i..]))
  {
    assert src[i..|src|] == src[i..];
    LaterFeeds(src, i, |src|, s);
  }

  lemma {:induction false} ContinuedFeeds(src: seq<Byte>, i: nat, s: Scan)
    requires i <= |src| && s.points == [] && s.remaining > 0 && AllFit(s, src[i..])
    ensures IsFed(Continued(src, i, s.value, s.remaining, true), FeedAll(s, src[i..]))
    decreases |src| - i
  {
    if i < |src| {
      assert src[i..][0] == src[i] && src[i..][1..] == src[i + 1..];
      var t := Feed(s, src[i]);
      if t.remaining > 0 {
        ContinuedFeeds(src, i + 1, t);
      } else {
        assert t.points == [t.value];
        LaterIsFed(src, i + 1, t);
      }
    }
  }

  /** On text whose visible bytes all fit, the decoder does what the machine does. */
  lemma {:induction false} DecodeFeeds(src: seq<Byte>, value: nat, remaining: nat)
    requires AllFit(Scan([], value, remaining), UpToZero(src))
    ensures IsFed(Decode(src, Partial(value, remaining)), FeedAll(Scan([], value, remaining), UpToZero(src)))
  {
    var text := UpToZero(src);
    assert text[0..] == text;
    if remaining > 0 {
      ContinuedFeeds(text, 0, Scan([], value, remaining));
    } else {
      LaterIsFed(text, 0, Scan([], value, remaining));
    }
  }

  lemma {:induction false} NoZero(text: seq<Byte>)
    requires 0 !in text
    ensures UpToZero(text) == text
  {
    assert forall k :: 0 <= k < |text| ==> text[k] != 0;
  }

  // ---------------------------------------------------------------------------------------------
  // Where texts may be cut
  // ---------------------------------------------------------------------------------------------

  /** Decoding in two parts gives what decoding at once gives. */
  ghost predicate CutAgrees(text: seq<Byte>, k: int)
    requires 0 <= k <= |text|
  {
    var whole, first := Decode(text, START), Decode(text[..k], START);
    var second := Decode(text[k..], first.partial);
    Found(first) + Found(second) == Found(whole) && second.partial == whole.partial
  }

  lemma {:induction false} FittingCut(text: seq<Byte>, k: nat)
    requires 0 !in text && AllFit(FRESH, text) && k <= |text|
    ensures CutAgrees(text, k)
  {
    var a, b := text[..k], text[k..];
    assert text == a + b && 0 !in a && 0 !in b;
    NoZero(text);
    NoZero(a);
    NoZero(b);
    FeedJoin(FRESH, a, b);
    var s := FeedAll(FRESH, a);
    var own := Scan([], s.value, s.remaining);
    FeedShift(s.points, own, b);
    Sequences.EmptyRight(s.points);
    assert own.(points := s.points + own.points) == s;
    DecodeFeeds(text, 0, 0);
    DecodeFeeds(a, 0, 0);
    DecodeFeeds(b, s.value, s.remaining);
  }

  /** The first byte that does not fit. */
  lemma {:induction false} FirstMisfit(s: Scan, text: seq<Byte>) returns (p: nat)
    requires !AllFit(s, text)
    ensures p < |text| && AllFit(s, text[..p]) && !Fits(FeedAll(s, text[..p]), text[p])
    decreases |text|
  {
    if Fits(s, text[0]) {
      p := FirstMisfit(Feed(s, text[0]), text[1..]);
      p := p + 1;
      assert text[..p][0] == text[0] && text[..p][1..] == text[1..][..p - 1];
    } else {
      p := 0;
    }
  }

  lemma {:induction false} FollowLength(src: seq<Byte>, i: nat, value: nat, remaining: nat)
    requires i <= |src|
    ensures var f := Follow(src, i, value, remaining);
            if i + remaining <= |src| then f.0 == i + remaining && f.2 == 0 else f.0 == |src| && f.2 > 0
    decreases |src| - i
  {
    if i < |src| && remaining > 0 {
      FollowLength(src, i + 1, value * 64 + LowBits(src[i]), remaining - 1);
    }
  }

  /** A first sequence that the text does not complete is carried over. */
  lemma {:induction false} FirstSequence(text: seq<Byte>)
    requires 0 !in text && text != [] && !IsContinuation(text[0])
    ensures var k := 1 + Following(text[0]);
            if k > |text| then Decode(text, START).partial.remaining > 0
            else exists v :: Decode(text, START) == Later(text, k, [v], v, 0)
  {
    NoZero(text);
    FollowLength(text, 1, FirstBits(text[0]), Following(text[0]));
    var f := Follow(text, 1, FirstBits(text[0]), Following(text[0]));
    Sequences.EmptyLeft([f.1]);
    assert Decode(text, START) == Later(text, 0, [], 0, 0);
    assert Decode(text, START) == Later(text, f.0, if f.2 == 0 then [f.1] else [], f.1, f.2);
  }

  /** A malformed text loses all its code points, but not the first one when it is cut behind it. */
  lemma {:induction false} CutOfInvalid(text: seq<Byte>) returns (k: nat)
    requires 0 !in text && text != [] && !IsContinuation(text[0]) && Decode(text, START).partial.remaining < 0
    ensures k <= |text| && !CutAgrees(text, k)
  {
    k := 1 + Following(text[0]);
    FirstSequence(text);
    FirstSequence(text[..k]);
    NoZero(text);
    assert Decode(text, START) == INVALID;
    assert |Found(Decode(text[..k], START))| == 1;
  }

  /** Between sequences a continuation byte makes the text malformed. */
  lemma {:induction false} MisfitBetween(text: seq<Byte>, p: nat)
    requires 0 !in text && p < |text| && AllFit(FRESH, text[..p])
    requires FeedAll(FRESH, text[..p]).remaining == 0 && Following(text[p]) < 0
    ensures Decode(text, START) == INVALID
  {
    NoZero(text);
    assert text[0..p] == text[..p];
    LaterFeeds(text, 0, p, FRESH);
  }

  /** The first byte that does not fit is refused when the text is cut before it. */
  lemma {:induction false} CutBeforeMisfit(text: seq<Byte>, p: nat)
    requires 0 !in text && Decode(text, START).partial.remaining >= 0
    requires p < |text| && AllFit(FRESH, text[..p]) && !Fits(FeedAll(FRESH, text[..p]), text[p])
    ensures !CutAgrees(text, p)
  {
    var a, b := text[..p], text[p..];
    assert b[0] == text[p] && 0 !in a && 0 !in b;
    NoZero(a);
    NoZero(b);
    var s := FeedAll(FRESH, a);
    if s.remaining == 0 {
      MisfitBetween(text, p);
    }
    DecodeFeeds(a, 0, 0);
    assert Decode(b, Partial(s.value, s.remaining)) == INVALID;
  }

  /**
   A text that does not start inside a sequence decodes alike wherever it is cut exactly if every byte fits: a
   byte that should continue a sequence is checked only at the start of a text.
   */
  lemma {:induction false} CutsAgreeExactlyIf(text: seq<Byte>)
    requires 0 !in text && (text != [] ==> !IsContinuation(text[0]))
    ensures (forall k :: 0 <= k <= |text| ==> CutAgrees(text, k)) <==> AllFit(FRESH, text)
  {
    if AllFit(FRESH, text) {
      forall k | 0 <= k <= |text|
        ensures CutAgrees(text, k)
      {
        FittingCut(text, k);
      }
    } else if Decode(text, START).partial.remaining < 0 {
      var k := CutOfInvalid(text);
    } else {
      var p := FirstMisfit(FRESH, text);
      CutBeforeMisfit(text, p);
    }
  }

  /** A byte that does not continue a sequence is taken inside one text and refused across two. */
  lemma {:induction false} SplitMatters()
    ensures Decode([0xC3, 0x41], START).points == [0xC1, 0]
    ensures Decode([0xC3], START) == Decoded([0], Partial(3, 1)) && Decode([0x41], Partial(3, 1)) == INVALID
  {
    NoZero([0xC3, 0x41]);
    NoZero([0xC3]);
    NoZero([0x41]);
    assert Follow([0xC3, 0x41], 2, 0xC1, 0) == (2, 0xC1, 0);
    assert Follow([0xC3, 0x41], 1, 3, 1) == (2, 0xC1, 0);
    assert Later([0xC3, 0x41], 2, [0xC1], 0xC1, 0) == Decoded([0xC1, 0], Partial(0xC1, 0));
    assert Later([0xC3, 0x41], 0, [], 0, 0) == Decoded([0xC1, 0], Partial(0xC1, 0));
    assert Follow([0xC3], 1, 3, 1) == (1, 3, 1);
    assert Later([0xC3], 1, [], 3, 1) == Decoded([0], Partial(3, 1));
  }

  // ---------------------------------------------------------------------------------------------
  // Well-formed text in any pieces
  // ---------------------------------------------------------------------------------------------

  /** The first byte of an encoding sets the length; the others add six bits each. */
  lemma {:induction false} OctetBits(p: Scalar, k: nat)
    requires k < Size8(p)
    ensures k == 0 ==> Following(Octet(p, 0)) == Size8(p) - 1
    ensures k > 0 ==> IsContinuation(Octet(p, k))
    ensures Size8(p) - k == 1 && k > 0 ==> LowBits(Octet(p, k)) == p % 64
    ensures Size8(p) - k == 2 && k > 0 ==> LowBits(Octet(p, k)) == p / 64 % 64
    ensures Size8(p) - k == 3 && k > 0 ==> LowBits(Octet(p, k)) == p / 4096 % 64
  {
  }

  lemma {:induction false} LeadOctet(p: Scalar)
    ensures Following(Octet(p, 0)) == Size8(p) - 1
    ensures FirstBits(Octet(p, 0)) == ReadSoFar(p, 1)
  {
  }

  /** The value read from the first `k` bytes of an encoding. */
  ghost function ReadSoFar(p: Scalar, k: nat): nat
    requires 0 < k <= Size8(p)
  {
    var left := Size8(p) - k;
    if left == 0 then p else if left == 1 then p / 64 else if left == 2 then p / 4096 else p / 262144
  }

  lemma {:induction false} NextBits(p: Scalar, k: nat)
    requires 0 < k < Size8(p)
    ensures ReadSoFar(p, k) * 64 + LowBits(Octet(p, k)) == ReadSoFar(p, k + 1) && IsContinuation(Octet(p, k))
  {
    SixBits(p);
    OctetBits(p, k);
  }

  lemma {:induction false} FeedRest(s: Scan, p: Scalar, k: nat)
    requires 0 < k <= Size8(p) && s.value == ReadSoFar(p, k) && s.remaining == Size8(p) - k
    ensures AllFit(s, Utf8(p)[k..])
    ensures FeedAll(s, Utf8(p)[k..]) == if s.remaining == 0 then s else Scan(s.points + [p], p, 0)
    decreases Size8(p) - k
  {
    if k < Size8(p) {
      NextBits(p, k);
      var t := Feed(s, Octet(p, k));
      FeedRest(t, p, k + 1);
      FeedFirst(s, Utf8(p), k, t);
    }
  }

  lemma {:induction false} FeedOne(s: Scan, p: Scalar)
    requires s.remaining == 0
    ensures AllFit(s, Utf8(p)) && FeedAll(s, Utf8(p)) == Scan(s.points + [p], p, 0)
  {
    LeadOctet(p);
    var t := Feed(s, Octet(p, 0));
    FeedRest(t, p, 1);
    FeedFirst(s, Utf8(p), 0, t);
    assert Utf8(p)[0..] == Utf8(p);
  }

  lemma {:induction false} FeedFirst(s: Scan, bytes: seq<Byte>, k: nat, t: Scan)
    requires k < |bytes| && Fits(s, bytes[k]) && t == Feed(s, bytes[k]) && AllFit(t, bytes[k + 1..])
    ensures AllFit(s, bytes[k..]) && FeedAll(s, bytes[k..]) == FeedAll(t, bytes[k + 1..])
  {
    assert bytes[k..][0] == bytes[k] && bytes[k..][1..] == bytes[k + 1..];
  }

  /** The machine reads well-formed UTF-8 as its scalar values. */
  lemma {:induction false} FeedEncoded(s: Scan, points: seq<Scalar>)
    requires s.remaining == 0
    ensures AllFit(s, Encode8(points))
    ensures FeedAll(s, Encode8(points)).points == s.points + points && FeedAll(s, Encode8(points)).remaining == 0
    decreases |points|
  {
    if points == [] {
      Sequences.EmptyRight(s.points);
    } else {
      var front, last := points[..|points| - 1], points[|points| - 1];
      FeedEncoded(s, front);
      FeedOne(FeedAll(s, Encode8(front)), last);
      FeedJoin(s, Encode8(front), Utf8(last));
      assert points == front + [last];
      assert s.points + points == s.points + front + [last];
    }
  }
}
