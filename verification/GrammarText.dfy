/**
 Accepting the texts of tokens: each text is decoded from where the last one stopped, and its code points are
 accepted one by one. However well-formed text is cut into tokens, the grammar sees its scalar values, if none of
 them is zero: a zero byte hides the rest of its token.
 */
module GrammarText {
  import opened Binary
  import opened Grammar
  import opened GrammarAccept
  import opened GrammarStacks
  import opened PartialUtf8
  import opened UtfConverter
  import Sequences

  datatype Progress = Progress(stacks: seq<Stack>, partial: Partial)

  /** Texts of special tokens start with "[_" and are not shown to the grammar. */
  predicate Skipped(text: seq<Byte>) {
    |text| >= 2 && text[0] == 0x5B && text[1] == 0x5F
  }

  /** What the text of one token makes of the grammar. */
  function AcceptText(rules: Rules, g: Progress, text: seq<Byte>): (r: Progress)
    requires Usable(rules) && AllAdvanced(rules, g.stacks)
    ensures AllAdvanced(rules, r.stacks)
  {
    if g.stacks == [] || Skipped(text) then g
    else
      var d := Decode(text, g.partial);
      Progress(AcceptAll(rules, g.stacks, Found(d)), d.partial)
  }

  method AcceptTokenText(rules: Rules, g: Progress, text: seq<Byte>) returns (r: Progress)
    requires Usable(rules) && AllAdvanced(rules, g.stacks)
    ensures r == AcceptText(rules, g, text)
  {
    if |g.stacks| == 0 || (|text| >= 2 && text[0] == 0x5B && text[1] == 0x5F) {
      return g;
    }
    var decoded := DecodeUtf8(text, g.partial);
    var stacks := AcceptToken(rules, g.stacks, decoded.points);
    r := Progress(stacks, decoded.partial);
  }

  function AcceptTexts(rules: Rules, g: Progress, texts: seq<seq<Byte>>): (r: Progress)
    requires Usable(rules) && AllAdvanced(rules, g.stacks)
    ensures AllAdvanced(rules, r.stacks)
  {
    if texts == [] then g else AcceptText(rules, AcceptTexts(rules, g, texts[..|texts| - 1]), texts[|texts| - 1])
  }

  function Joined(texts: seq<seq<Byte>>): seq<Byte> {
    if texts == [] then [] else Joined(texts[..|texts| - 1]) + texts[|texts| - 1]
  }

  lemma {:induction false} AcceptAllJoin(rules: Rules, stacks: seq<Stack>, a: seq<nat>, b: seq<nat>)
    requires Usable(rules) && AllAdvanced(rules, stacks)
    ensures AcceptAll(rules, stacks, a + b) == AcceptAll(rules, AcceptAll(rules, stacks, a), b)
    decreases |a|
  {
    if a == [] {
      assert a + b == b;
    } else {
      AcceptAdvanced(rules, stacks, a[0]);
      AcceptAllJoin(rules, Accept(rules, stacks, a[0]), a[1..], b);
      assert (a + b)[0] == a[0] && (a + b)[1..] == a[1..] + b;
    }
  }

  // ---------------------------------------------------------------------------------------------
  // What the grammar is shown
  // ---------------------------------------------------------------------------------------------

  /** The code points found so far, and what is carried over. */
  datatype Reading = Reading(points: seq<nat>, partial: Partial)

  function ReadText(r: Reading, text: seq<Byte>): Reading {
    var d := Decode(text, r.partial);
    Reading(r.points + Found(d), d.partial)
  }

  function ReadTexts(texts: seq<seq<Byte>>): Reading {
    if texts == [] then Reading([], START) else ReadText(ReadTexts(texts[..|texts| - 1]), texts[|texts| - 1])
  }

  /** The texts that the grammar is shown. */
  function Shown(texts: seq<seq<Byte>>): seq<seq<Byte>> {
    if texts == [] then []
    else
      var last := texts[|texts| - 1];
      Shown(texts[..|texts| - 1]) + if Skipped(last) then [] else [last]
  }

  /** Whatever the texts are, the grammar accepts the code points that are found in those it is shown. */
  lemma {:induction false} TextsAreRead(rules: Rules, stacks: seq<Stack>, texts: seq<seq<Byte>>)
    requires Usable(rules) && AllAdvanced(rules, stacks)
    ensures var g, r := AcceptTexts(rules, Progress(stacks, START), texts), ReadTexts(Shown(texts));
            g.stacks == AcceptAll(rules, stacks, r.points) && (g.stacks != [] ==> g.partial == r.partial)
  {
    if texts != [] {
      var front, last := texts[..|texts| - 1], texts[|texts| - 1];
      TextsAreRead(rules, stacks, front);
      var g, r := AcceptTexts(rules, Progress(stacks, START), front), ReadTexts(Shown(front));
      if Skipped(last) {
        Sequences.EmptyRight(Shown(front));
      } else {
        assert Shown(texts)[..|Shown(front)|] == Shown(front);
        AcceptAllJoin(rules, stacks, r.points, Found(Decode(last, r.partial)));
        if g.stacks == [] {
          NothingLeft(rules, Found(Decode(last, r.partial)));
        }
      }
    }
  }

  /** The reading stands where the machine does. */
  ghost predicate InStep(r: Reading, s: Scan) {
    r == Reading(s.points, Partial(s.value, s.remaining))
  }

  lemma {:induction false} TextInStep(r: Reading, s: Scan, text: seq<Byte>)
    requires InStep(r, s) && AllFit(s, text) && 0 !in text
    ensures InStep(ReadText(r, text), FeedAll(s, text))
  {
    var own := Scan([], s.value, s.remaining);
    NoZero(text);
    FeedShift(s.points, own, text);
    Sequences.EmptyRight(s.points);
    assert own.(points := s.points + own.points) == s;
    DecodeFeeds(text, s.value, s.remaining);
  }

  /** Without zero bytes, and if every byte fits, it does not matter how the bytes are cut into texts. */
  lemma {:induction false} TextsInStep(texts: seq<seq<Byte>>)
    requires AllFit(FRESH, Joined(texts)) && 0 !in Joined(texts)
    ensures InStep(ReadTexts(texts), FeedAll(FRESH, Joined(texts)))
  {
    if texts != [] {
      var front, last := texts[..|texts| - 1], texts[|texts| - 1];
      FeedJoin(FRESH, Joined(front), last);
      TextsInStep(front);
      TextInStep(ReadTexts(front), FeedAll(FRESH, Joined(front)), last);
    }
  }

  // ---------------------------------------------------------------------------------------------
  // Zero bytes
  // ---------------------------------------------------------------------------------------------

  /** The number of bytes that a sequence can start with and that a C string can hold. */
  ghost function Leads(text: seq<Byte>): nat {
    if text == [] then 0 else Lead(text[0]) + Leads(text[1..])
  }

  function Lead(b: Byte): nat {
    if b == 0 || IsContinuation(b) then 0 else 1
  }

  lemma {:induction false} LeadsJoin(a: seq<Byte>, b: seq<Byte>)
    ensures Leads(a + b) == Leads(a) + Leads(b)
    decreases |a|
  {
    if a == [] {
      assert a + b == b;
    } else {
      assert (a + b)[0] == a[0] && (a + b)[1..] == a[1..] + b;
      LeadsJoin(a[1..], b);
    }
  }

  lemma {:induction false} LeadsFrom(text: seq<Byte>, i: nat, j: nat)
    requires i <= j <= |text|
    ensures Leads(text[j..]) <= Leads(text[i..])
    ensures i < j ==> Leads(text[j..]) + Lead(text[i]) <= Leads(text[i..])
    decreases j - i
  {
    if i < j {
      assert text[i..][0] == text[i] && text[i..][1..] == text[i + 1..];
      LeadsFrom(text, i + 1, j);
    }
  }

  function Begun(remaining: int): nat {
    if remaining > 0 then 1 else 0
  }

  lemma {:induction false} LaterBound(src: seq<Byte>, i: nat, points: seq<nat>, value: nat, remaining: int)
    requires i <= |src| && 0 !in src
    ensures var d := Later(src, i, points, value, remaining);
            |Found(d)| + Begun(d.partial.remaining) <= |points| + Begun(remaining) + Leads(src[i..])
    decreases |src| - i
  {
    if i < |src| && Following(src[i]) >= 0 {
      assert src[i] in src;
      var f := Follow(src, i + 1, FirstBits(src[i]), Following(src[i]));
      LeadsFrom(src, i, f.0);
      LaterBound(src, f.0, if f.2 == 0 then points + [f.1] else points, f.1, f.2);
    }
  }

  lemma {:induction false} ContinuedBound(src: seq<Byte>, i: nat, value: nat, remaining: int, pending: bool)
    requires i <= |src| && 0 !in src && (pending ==> remaining >= 0)
    ensures var d := Continued(src, i, value, remaining, pending);
            |Found(d)| + Begun(d.partial.remaining) <= (if pending then 1 else Begun(remaining)) + Leads(src[i..])
    decreases |src| - i
  {
    if i < |src| && remaining > 0 {
      if IsContinuation(src[i]) {
        LeadsFrom(src, i, i + 1);
        ContinuedBound(src, i + 1, value * 64 + LowBits(src[i]), remaining - 1, pending);
      }
    } else {
      LaterBound(src, i, if pending && remaining == 0 then [value] else [], value, remaining);
    }
  }

  /** No text gives more code points than there are first bytes. */
  lemma {:induction false} ReadBound(texts: seq<seq<Byte>>)
    ensures var r := ReadTexts(texts); |r.points| + Begun(r.partial.remaining) <= Leads(Joined(texts))
  {
    if texts != [] {
      var front, last := texts[..|texts| - 1], texts[|texts| - 1];
      var r, visible := ReadTexts(front), UpToZero(last);
      ReadBound(front);
      LeadsJoin(Joined(front), last);
      LeadsJoin(visible, last[|visible|..]);
      assert last == visible + last[|visible|..] && visible[0..] == visible;
      ContinuedBound(visible, 0, r.partial.value, r.partial.remaining, r.partial.remaining > 0);
    }
  }

  /** An encoding has one first byte, except that of zero. */
  lemma {:induction false} LeadsOfOne(p: Scalar)
    ensures Leads(Utf8(p)) == (if p == 0 then 0 else 1) && (0 in Utf8(p) <==> p == 0)
  {
    assert Utf8(p)[1..] == seq(Size8(p) - 1, (k: nat) requires k < Size8(p) - 1 => Octet(p, k + 1));
    NoLeads(Utf8(p)[1..]);
    assert p == 0 ==> Utf8(p)[0] == 0;
  }

  lemma {:induction false} NoLeads(text: seq<Byte>)
    requires forall k :: 0 <= k < |text| ==> IsContinuation(text[k])
    ensures Leads(text) == 0
  {
    if text != [] {
      NoLeads(text[1..]);
    }
  }

  lemma {:induction false} LeadsOfAll(points: seq<Scalar>)
    ensures Leads(Encode8(points)) <= |points| && (0 in points ==> Leads(Encode8(points)) < |points|)
    ensures 0 in Encode8(points) <==> 0 in points
  {
    if points != [] {
      var front, last := points[..|points| - 1], points[|points| - 1];
      LeadsOfAll(front);
      LeadsOfOne(last);
      LeadsJoin(Encode8(front), Utf8(last));
      assert points == front + [last];
    }
  }

  /** The scalar values of well-formed text, cut anywhere, are what is found in it exactly if none of them is zero. */
  lemma {:induction false} ScalarsExactlyIf(texts: seq<seq<Byte>>, points: seq<Scalar>)
    requires Joined(texts) == Encode8(points)
    ensures ReadTexts(texts).points == points <==> 0 !in points
  {
    LeadsOfAll(points);
    if 0 in points {
      ReadBound(texts);
    } else {
      FeedEncoded(FRESH, points);
      Sequences.EmptyLeft(points);
      TextsInStep(texts);
    }
  }

  /**
   Tokens whose texts, without those that are not shown, make up well-formed UTF-8 without zeros, leave the grammar
   where the scalar values do, however they are cut.
   */
  lemma {:induction false} TokensAreScalars(rules: Rules, stacks: seq<Stack>, texts: seq<seq<Byte>>,
                                            points: seq<Scalar>)
    requires Usable(rules) && AllAdvanced(rules, stacks)
    requires Joined(Shown(texts)) == Encode8(points) && 0 !in points
    ensures AcceptTexts(rules, Progress(stacks, START), texts).stacks == AcceptAll(rules, stacks, points)
  {
    ScalarsExactlyIf(Shown(texts), points);
    TextsAreRead(rules, stacks, texts);
  }
}
