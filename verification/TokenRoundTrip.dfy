/**
 Encoding a prompt into tokens and decoding tokens back into text.
 */
module TokenRoundTrip {
  import opened Binary
  import opened BpeMerge
  import opened ByteTable
  import Sequences

  datatype Encoded = Tokens(pieces: seq<Piece>) | NotInVocabulary

  /** One piece per byte. */
  function InitialPieces(text: Bytes): (pieces: seq<Piece>)
    ensures |pieces| == |text|
  {
    seq(|text|, (k: nat) requires k < |text| => Letters(text[k]))
  }

  ghost function Singles(text: Bytes): (parts: seq<Bytes>)
    ensures |parts| == |text|
  {
    seq(|text|, (k: nat) requires k < |text| => [text[k]])
  }

  lemma {:induction false} FlattenSingles(text: Bytes)
    ensures Flatten(Singles(text)) == text
  {
    if text != [] {
      FlattenSingles(text[..|text| - 1]);
      assert Singles(text)[..|text| - 1] == Singles(text[..|text| - 1]);
    }
  }

  lemma {:induction false} InitialSpells(text: Bytes)
    ensures Spells(InitialPieces(text), Singles(text), text)
  {
    FlattenSingles(text);
    forall k | 0 <= k < |text|
      ensures InitialPieces(text)[k] == EncodeText(Singles(text)[k])
    {
      assert [text[k]][..0] == [];
      Sequences.EmptyLeft(Letters(text[k]));
    }
  }

  /** The last `max` of the elements. */
  function Last<T>(s: seq<T>, max: nat): seq<T> {
    if |s| > max then s[|s| - max..] else s
  }

  /** At most `max` elements, from the end, and no fewer than there are. */
  ghost predicate AreLast<T(!new)>(last: seq<T>, s: seq<T>, max: nat) {
    && (|last| == max || |last| == |s| < max)
    && exists front :: s == front + last
  }

  lemma {:induction false} LastAreLast<T(!new)>(s: seq<T>, max: nat)
    ensures AreLast(Last(s, max), s, max) && AreLast([], s, 0)
  {
    assert s == s[..|s| - |Last(s, max)|] + Last(s, max);
    assert s == s + [];
  }

  /** The pieces of a text when no pair can be merged any more. */
  ghost function Tokenized(ranks: Ranks, text: Bytes): seq<Piece> {
    Batched(ranks, InitialPieces(text))
  }

  /** They spell the text, whatever the table is. */
  lemma {:induction false} TokenizedSpells(ranks: Ranks, text: Bytes) returns (parts: seq<Bytes>)
    ensures Spells(Tokenized(ranks, text), parts, text) && NoneMergeable(ranks, Tokenized(ranks, text))
  {
    InitialSpells(text);
    parts := BatchedSpells(ranks, InitialPieces(text), Singles(text), text);
  }

  /** With an orderly table they come from merging one pair at a time. */
  lemma {:induction false} TokenizedOneByOne(ranks: Ranks, text: Bytes)
    requires Loaded(ranks) && Orderly(ranks)
    ensures Tokenized(ranks, text) == OneByOne(ranks, InitialPieces(text))
  {
    OrderlyBatched(ranks, InitialPieces(text));
  }

  /** The last `maxTokens` pieces, if all pieces are known. */
  ghost function Outcome(text: Bytes, maxTokens: nat, vocabulary: set<Piece>, pieces: seq<Piece>): Encoded {
    if text == [] || maxTokens == 0 then Tokens([])
    else if forall p :: p in pieces ==> p in vocabulary then Tokens(Last(pieces, maxTokens))
    else NotInVocabulary
  }

  method Encode(text: Bytes, maxTokens: nat, ranks: Ranks, vocabulary: set<Piece>, encoder: map<Byte, Bytes>)
    returns (r: Encoded)
    requires forall b: Byte :: b in encoder && encoder[b] == Letters(b)
    ensures r == Outcome(text, maxTokens, vocabulary, Tokenized(ranks, text))
    ensures r.Tokens? ==> AreLast(r.pieces, Tokenized(ranks, text), maxTokens)
    ensures r.NotInVocabulary? <==>
            text != [] && maxTokens > 0 && exists p :: p in Tokenized(ranks, text) && p !in vocabulary
  {
    LastAreLast(Tokenized(ranks, text), maxTokens);
    if |text| == 0 {
      NothingTokenized(ranks);
    }
    if |text| == 0 || maxTokens == 0 {
      return Tokens([]);
    }
    var pieces := SplitBytes(text, encoder);
    pieces := MergeAll(ranks, pieces);
    var known := AllKnown(pieces, vocabulary);
    if !known {
      return NotInVocabulary;
    }
    if |pieces| > maxTokens {
      pieces := pieces[|pieces| - maxTokens..];
    }
    r := Tokens(pieces);
  }

  lemma {:induction false} NothingTokenized(ranks: Ranks)
    ensures Tokenized(ranks, []) == []
  {
  }

  method SplitBytes(text: Bytes, encoder: map<Byte, Bytes>) returns (tokens: seq<Piece>)
    requires forall b: Byte :: b in encoder && encoder[b] == Letters(b)
    ensures tokens == InitialPieces(text)
  {
    tokens := [];
    for i := 0 to |text|
      invariant |tokens| == i && forall k :: 0 <= k < i ==> tokens[k] == Letters(text[k])
    {
      tokens := tokens + [encoder[text[i]]];
    }
  }

  method AllKnown(tokens: seq<Piece>, vocabulary: set<Piece>) returns (known: bool)
    ensures known == forall p :: p in tokens ==> p in vocabulary
  {
    for i := 0 to |tokens|
      invariant forall k :: 0 <= k < i ==> tokens[k] in vocabulary
    {
      if tokens[i] !in vocabulary {
        assert tokens[i] in tokens;
        return false;
      }
    }
    return true;
  }

  // ---------------------------------------------------------------------------------------------
  // Decoding
  // ---------------------------------------------------------------------------------------------

  /** A token of at least four bytes that starts with "<|" is taken for a special token. */
  predicate Special(token: Piece) {
    |token| >= 4 && token[0] == 60 && token[1] == 124
  }

  /** The bytes of the known code points. */
  function Known(points: seq<nat>, decoder: map<nat, Byte>): Bytes {
    if points == [] then []
    else
      var front, last := Known(points[..|points| - 1], decoder), points[|points| - 1];
      if last in decoder then front + [decoder[last]] else front
  }

  /** The text of one token. */
  function DecodeToken(token: Bytes, decoder: map<nat, Byte>): Bytes {
    if Special(token) then [] else Known(CodePoints(token, 0), decoder)
  }

  function DecodeAll(tokens: seq<Bytes>, decoder: map<nat, Byte>): Bytes {
    if tokens == [] then [] else DecodeAll(tokens[..|tokens| - 1], decoder) + DecodeToken(tokens[|tokens| - 1], decoder)
  }

  method DecodeTokens(tokens: seq<Bytes>, decoder: map<nat, Byte>) returns (output: Bytes)
    ensures output == DecodeAll(tokens, decoder)
  {
    output := [];
    for i := 0 to |tokens|
      invariant output == DecodeAll(tokens[..i], decoder)
    {
      var token := tokens[i];
      assert tokens[..i + 1][..i] == tokens[..i];
      ghost var before := output;
      if |token| >= 4 && token[0] == 60 && token[1] == 124 {
        Sequences.EmptyRight(before);
        continue;
      }
      var points := ReadCodePoints(token);
      output := AppendKnown(output, points, decoder);
    }
    assert tokens[..|tokens|] == tokens;
  }

  method AppendKnown(output0: Bytes, points: seq<nat>, decoder: map<nat, Byte>) returns (output: Bytes)
    ensures output == output0 + Known(points, decoder)
  {
    output := output0;
    Sequences.EmptyRight(output0);
    for k := 0 to |points|
      invariant output == output0 + Known(points[..k], decoder)
    {
      assert points[..k + 1][..k] == points[..k];
      if points[k] in decoder {
        Sequences.Associative(output0, Known(points[..k], decoder), [decoder[points[k]]]);
        output := output + [decoder[points[k]]];
      }
    }
    assert points[..|points|] == points;
  }

  ghost predicate IsDecoder(decoder: map<nat, Byte>) {
    forall b: Byte :: Code(b) in decoder && decoder[Code(b)] == b
  }

  function Codes(text: Bytes): seq<nat> {
    seq(|text|, (k: nat) requires k < |text| => Code(text[k]))
  }

  /** The first byte's letters, then the others'. */
  lemma {:induction false} EncodeFirst(text: Bytes)
    requires text != []
    ensures EncodeText(text) == Letters(text[0]) + EncodeText(text[1..])
  {
    assert text == [text[0]] + text[1..];
    EncodeJoin([text[0]], text[1..]);
    assert [text[0]][..0] == [];
    Sequences.EmptyLeft(Letters(text[0]));
  }

  lemma {:induction false} Middle(a: Bytes, b: Bytes, c: Bytes)
    ensures (a + b + c)[|a|..|a| + |b|] == b
  {
  }

  /** Reading an encoded text behind any other bytes. */
  lemma {:induction false} ReadEncoded(before: Bytes, text: Bytes)
    ensures CodePoints(before + EncodeText(text), |before|) == Codes(text)
    decreases |text|
  {
    if text == [] {
      Sequences.EmptyRight(before);
      assert EncodeText(text) == [] && Codes(text) == [];
    } else {
      var letters, rest := Letters(text[0]), EncodeText(text[1..]);
      EncodeFirst(text);
      Sequences.Associative(before, letters, rest);
      Middle(before, letters, rest);
      ReadLetters(before + letters + rest, |before|, text[0]);
      ReadEncoded(before + letters, text[1..]);
      CodesFirst(text);
    }
  }

  lemma {:induction false} CodesFirst(text: Bytes)
    requires text != []
    ensures Codes(text) == [Code(text[0])] + Codes(text[1..])
  {
  }

  lemma {:induction false} KnownCodes(text: Bytes, decoder: map<nat, Byte>)
    requires IsDecoder(decoder)
    ensures Known(Codes(text), decoder) == text
  {
    if text != [] {
      var front, last := text[..|text| - 1], text[|text| - 1];
      KnownCodes(front, decoder);
      assert Codes(text)[..|text| - 1] == Codes(front);
      assert Code(last) in decoder && decoder[Code(last)] == last;
      assert text == front + [last];
    }
  }

  /** A token that is not special decodes to the part it spells. */
  lemma {:induction false} DecodePart(part: Bytes, decoder: map<nat, Byte>)
    requires IsDecoder(decoder)
    ensures DecodeToken(EncodeText(part), decoder) == if Special(EncodeText(part)) then [] else part
  {
    ReadEncoded([], part);
    Sequences.EmptyLeft(EncodeText(part));
    KnownCodes(part, decoder);
  }

  /** The parts whose tokens are not special. */
  function Plain(parts: seq<Bytes>): seq<Bytes> {
    if parts == [] then []
    else
      var last := parts[|parts| - 1];
      Plain(parts[..|parts| - 1]) + if Special(EncodeText(last)) then [] else [last]
  }

  ghost predicate SpelledBy(tokens: seq<Bytes>, parts: seq<Bytes>) {
    |tokens| == |parts| && forall k {:trigger tokens[k]} {:trigger parts[k]} :: 0 <= k < |tokens| ==>
        tokens[k] == EncodeText(parts[k]) && parts[k] != []
  }

  lemma {:induction false} DecodeParts(tokens: seq<Bytes>, parts: seq<Bytes>, decoder: map<nat, Byte>)
    requires IsDecoder(decoder) && SpelledBy(tokens, parts)
    ensures DecodeAll(tokens, decoder) == Flatten(Plain(parts))
  {
    if parts != [] {
      var last := parts[|parts| - 1];
      DecodeParts(tokens[..|tokens| - 1], parts[..|parts| - 1], decoder);
      assert tokens[|tokens| - 1] == EncodeText(last);
      DecodePart(last, decoder);
      FlattenJoin(Plain(parts[..|parts| - 1]), [last]);
      FlattenOne(last);
      Sequences.EmptyRight(Flatten(Plain(parts[..|parts| - 1])));
      Sequences.EmptyRight(Plain(parts[..|parts| - 1]));
    }
  }

  ghost predicate NoneSpecial(parts: seq<Bytes>) {
    forall k {:trigger parts[k]} :: 0 <= k < |parts| ==> !Special(EncodeText(parts[k]))
  }

  lemma {:induction false} PlainLength(parts: seq<Bytes>)
    requires forall k {:trigger parts[k]} :: 0 <= k < |parts| ==> parts[k] != []
    ensures |Flatten(Plain(parts))| <= |Flatten(parts)|
    ensures NoneSpecial(parts) ==> Plain(parts) == parts
    ensures !NoneSpecial(parts) ==> |Flatten(Plain(parts))| < |Flatten(parts)|
  {
    if parts != [] {
      var front, last := parts[..|parts| - 1], parts[|parts| - 1];
      PlainLength(front);
      assert parts == front + [last];
      assert NoneSpecial(parts) <==> NoneSpecial(front) && !Special(EncodeText(last)) by {
        assert forall k {:trigger front[k]} :: 0 <= k < |front| ==> front[k] == parts[k];
      }
      FlattenJoin(Plain(front), [last]);
      FlattenOne(last);
      Sequences.EmptyRight(Plain(front));
    }
  }

  /** Decoding the untruncated tokens gives the text back exactly if no token is taken for a special one. */
  lemma {:induction false} RoundTripExactlyIf(text: Bytes, tokens: seq<Bytes>, parts: seq<Bytes>,
                                              decoder: map<nat, Byte>)
    requires IsDecoder(decoder) && SpelledBy(tokens, parts) && Flatten(parts) == text
    ensures DecodeAll(tokens, decoder) == text <==> NoneSpecial(parts)
  {
    DecodeParts(tokens, parts, decoder);
    PlainLength(parts);
  }

  ghost predicate IsSuffix(output: Bytes, text: Bytes) {
    exists before :: text == before + output
  }

  lemma {:induction false} LastKeeps(tokens: seq<Bytes>, parts: seq<Bytes>, max: nat)
    requires SpelledBy(tokens, parts) && NoneSpecial(parts)
    ensures SpelledBy(Last(tokens, max), Last(parts, max)) && NoneSpecial(Last(parts, max))
  {
  }

  lemma {:induction false} LastIsSuffix(parts: seq<Bytes>, max: nat)
    ensures IsSuffix(Flatten(Last(parts, max)), Flatten(parts))
  {
    var dropped := parts[..|parts| - |Last(parts, max)|];
    assert parts == dropped + Last(parts, max);
    FlattenJoin(dropped, Last(parts, max));
  }

  /** The last tokens decode to the end of the text. */
  lemma {:induction false} TruncatedIsSuffix(text: Bytes, tokens: seq<Bytes>, parts: seq<Bytes>, max: nat,
                                             decoder: map<nat, Byte>)
    requires IsDecoder(decoder) && SpelledBy(tokens, parts) && Flatten(parts) == text && NoneSpecial(parts)
    ensures IsSuffix(DecodeAll(Last(tokens, max), decoder), text)
  {
    LastKeeps(tokens, parts, max);
    RoundTripExactlyIf(Flatten(Last(parts, max)), Last(tokens, max), Last(parts, max), decoder);
    LastIsSuffix(parts, max);
  }

  predicate MarkerAt(text: Bytes, i: int) {
    0 <= i < |text| - 1 && text[i] == 60 && text[i + 1] == 124
  }

  /** Only a text that contains "<|" can have a token that is taken for a special one. */
  lemma {:induction false} SpecialNeedsMarker(text: Bytes, parts: seq<Bytes>, k: nat)
    requires Flatten(parts) == text && k < |parts|
    ensures Special(EncodeText(parts[k])) ==> exists i :: MarkerAt(text, i)
  {
    var part := parts[k];
    assert parts == parts[..k] + ([part] + parts[k + 1..]);
    FlattenJoin(parts[..k], [part] + parts[k + 1..]);
    FlattenJoin([part], parts[k + 1..]);
    FlattenOne(part);
    if Special(EncodeText(part)) {
      StartsWithMarker(part);
      assert MarkerAt(text, |Flatten(parts[..k])|);
    }
  }

  lemma {:induction false} StartsWithMarker(part: Bytes)
    requires Special(EncodeText(part))
    ensures |part| >= 2 && part[0] == 60 && part[1] == 124
  {
    EncodeFirst(part);
    assert EncodeText(part)[0] == Letters(part[0])[0];
    if |part| >= 2 {
      EncodeFirst(part[1..]);
      assert EncodeText(part[1..])[0] == Letters(part[1])[0];
    }
  }

  ghost predicate NoMarker(text: Bytes) {
    forall i {:trigger MarkerAt(text, i)} :: !MarkerAt(text, i)
  }

  /** The decoded text is a suffix, and the whole text exactly if nothing is special and nothing was cut off. */
  ghost predicate DecodedAs(text: Bytes, maxTokens: nat, r: Encoded, output: Bytes, parts: seq<Bytes>) {
    && (NoMarker(text) ==> NoneSpecial(parts))
    && (r.Tokens? && NoneSpecial(parts) ==> IsSuffix(output, text))
    && (r.Tokens? && |parts| <= maxTokens ==> (output == text <==> NoneSpecial(parts)))
  }

  /** Decoding what encoding returned, with the table that the decoder builds. */
  lemma {:induction false} DecodesEncoded(text: Bytes, maxTokens: nat, vocabulary: set<Piece>, r: Encoded,
                                          pieces: seq<Piece>, parts: seq<Bytes>, decoder: map<nat, Byte>)
    requires Spells(pieces, parts, text) && r == Outcome(text, maxTokens, vocabulary, pieces) && r.Tokens?
    requires IsDecoder(decoder)
    ensures DecodedAs(text, maxTokens, r, DecodeAll(r.pieces, decoder), parts)
  {
    RoundTripExactlyIf(text, pieces, parts, decoder);
    TextIsEmptyWithoutParts(parts);
    NoMarkerNoneSpecial(text, parts);
    Sequences.EmptyRight(text);
    if NoneSpecial(parts) && text != [] && maxTokens > 0 {
      TruncatedIsSuffix(text, pieces, parts, maxTokens, decoder);
    }
  }

  lemma {:induction false} NoMarkerNoneSpecial(text: Bytes, parts: seq<Bytes>)
    requires Flatten(parts) == text
    ensures NoMarker(text) ==> NoneSpecial(parts)
  {
    if NoMarker(text) {
      forall k | 0 <= k < |parts|
        ensures !Special(EncodeText(parts[k]))
      {
        SpecialNeedsMarker(text, parts, k);
      }
    }
  }

  /** A text without "<|" that was encoded to fewer tokens than allowed is decoded completely. */
  method RoundTrip(text: Bytes, maxTokens: nat, ranks: Ranks, vocabulary: set<Piece>)
    returns (r: Encoded, output: Bytes)
    ensures r == Outcome(text, maxTokens, vocabulary, Tokenized(ranks, text))
    ensures r.Tokens? ==> AreLast(r.pieces, Tokenized(ranks, text), maxTokens)
    ensures exists parts :: Spells(Tokenized(ranks, text), parts, text) && DecodedAs(text, maxTokens, r, output, parts)
    ensures NoMarker(text) && r.Tokens? ==> IsSuffix(output, text)
    ensures NoMarker(text) && r.Tokens? && |r.pieces| < maxTokens ==> output == text
  {
    var encoder := MakeByteEncoder();
    var decoder := MakeByteDecoder();
    r := Encode(text, maxTokens, ranks, vocabulary, encoder);
    ghost var tokens := Tokenized(ranks, text);
    ghost var parts := TokenizedSpells(ranks, text);
    NoMarkerNoneSpecial(text, parts);
    output := [];
    if r.Tokens? {
      output := DecodeTokens(r.pieces, decoder);
      DecodesEncoded(text, maxTokens, vocabulary, r, tokens, parts, decoder);
      FewAreAll(text, maxTokens, vocabulary, r, tokens, parts);
    }
    assert Spells(tokens, parts, text) && DecodedAs(text, maxTokens, r, output, parts);
  }

  /** Fewer tokens than allowed are all tokens. */
  lemma {:induction false} FewAreAll(text: Bytes, maxTokens: nat, vocabulary: set<Piece>, r: Encoded,
                                     pieces: seq<Piece>, parts: seq<Bytes>)
    requires Spells(pieces, parts, text) && r == Outcome(text, maxTokens, vocabulary, pieces) && r.Tokens?
    ensures |r.pieces| < maxTokens ==> |parts| <= maxTokens
  {
    TextIsEmptyWithoutParts(parts);
  }

  lemma {:induction false} TextIsEmptyWithoutParts(parts: seq<Bytes>)
    requires forall k {:trigger parts[k]} :: 0 <= k < |parts| ==> parts[k] != []
    ensures Flatten(parts) == [] <==> parts == []
  {
  }

  // ---------------------------------------------------------------------------------------------
  // Examples
  // ---------------------------------------------------------------------------------------------

  /** The ranks that a list without repetitions gives. */
  lemma {:induction false} RankIs(merges: seq<(Piece, Piece)>, ranks: Ranks, i: nat)
    requires LoadedFrom(merges, ranks) && i < |merges| && forall k, m :: 0 <= k < m < |merges| ==>
             merges[k] != merges[m]
    ensures merges[i] in ranks && ranks[merges[i]] == i
  {
    assert merges[i] in merges;
  }

  lemma {:induction false} EarlyMerges(a: Piece, b: Piece, ab: Piece, aba: Piece)
    requires a == [97] && b == [98] && ab == [97, 98] && aba == [97, 98, 97]
    ensures InitialPieces([97, 98, 97, 98]) == [a, b, a, b] && a + b == ab && ab + a == aba
    ensures MergeAt([a, b, a, b], 0) == [ab, a, b]
    ensures MergeAt([ab, a, b], 0) == [aba, b] && MergeAt([ab, a, b], 1) == [ab, ab]
  {
    assert a + b == ab && ab + a == aba;
  }

  /** The pieces "a", "b", "a", "b", where ("ab", "a") ranks before ("a", "b"): sweeping gives "ab", "ab". */
  lemma {:induction false} EarlyResultExample(ranks: Ranks)
    requires LoadedFrom([([97, 98], [97]), ([97], [98])], ranks)
    ensures var text: Bytes := [97, 98, 97, 98];
            && Tokenized(ranks, text) == [[97, 98], [97, 98]]
            && OneByOne(ranks, InitialPieces(text)) == [[97, 98, 97], [98]]
  {
    var a: Piece, b: Piece, ab: Piece, aba: Piece := [97], [98], [97, 98], [97, 98, 97];
    var start, once, both := [a, b, a, b], [ab, a, b], [ab, ab];
    RankIs([(ab, a), (a, b)], ranks, 0);
    RankIs([(ab, a), (a, b)], ranks, 1);
    assert forall p :: p in ranks ==> p == (ab, a) || p == (a, b);
    EarlyMerges(a, b, ab, aba);
    assert Mergeable(ranks, start, 0) && IsBest(ranks, start, 0);
    assert Mergeable(ranks, once, 0) && IsBest(ranks, once, 0);
    assert NoneMergeable(ranks, both) && NoneMergeable(ranks, [aba, b]);
    SweepsTo(start, (a, b), once, both);
    BatchedStep(ranks, start, 0);
    BatchedEnd(ranks, both);
    OneByOneStep(ranks, start, 0);
    OneByOneStep(ranks, once, 0);
    OneByOneEnd(ranks, [aba, b]);
  }

  lemma {:induction false} SweepsTo(start: seq<Piece>, pair: (Piece, Piece), once: seq<Piece>, both: seq<Piece>)
    requires |start| == 4 && PairAt(start, 0) == pair && once == MergeAt(start, 0) && PairAt(once, 0) != pair
    requires PairAt(once, 1) == pair && both == MergeAt(once, 1)
    ensures Swept(start, pair, 0) == both
  {
    assert Swept(both, pair, 1) == both;
    assert Swept(once, pair, 1) == both;
    assert Swept(once, pair, 0) == both;
  }

  const LESS_BAR: seq<(Piece, Piece)> := [([60], [124]), ([60, 124], [97]), ([60, 124, 97], [98])]

  lemma {:induction false} LessBarPairs(ranks: Ranks)
    requires LoadedFrom(LESS_BAR, ranks)
    ensures forall p :: p in ranks <==> p == ([60], [124]) || p == ([60, 124], [97]) || p == ([60, 124, 97], [98])
  {
    assert LESS_BAR[0] in LESS_BAR && LESS_BAR[1] in LESS_BAR && LESS_BAR[2] in LESS_BAR;
  }

  lemma {:induction false} LessBarMerges(ranks: Ranks)
    requires LoadedFrom(LESS_BAR, ranks)
    ensures Batched(ranks, [[60], [124], [97], [98]]) == [[60, 124, 97, 98]]
  {
    var two: Piece, three: Piece, four: Piece := [60, 124], [60, 124, 97], [60, 124, 97, 98];
    var s4: seq<Piece>, s3: seq<Piece>, s2: seq<Piece> := [[60], [124], [97], [98]], [two, [97], [98]], [three, [98]];
    LessBarPairs(ranks);
    assert [60] + [124] == two && two + [97] == three && three + [98] == four;
    assert MergeAt(s4, 0) == s3 && MergeAt(s3, 0) == s2 && MergeAt(s2, 0) == [four];
    assert Mergeable(ranks, s4, 0) && Mergeable(ranks, s3, 0) && Mergeable(ranks, s2, 0);
    SweepsOne(ranks, s4, s3);
    SweepsOne(ranks, s3, s2);
    SweepsOne(ranks, s2, [four]);
    BatchedEnd(ranks, [four]);
  }

  /** With the merges "<" "|", "<|" "a", "<|a" "b", the text "<|ab" becomes one special token, and its text is lost. */
  lemma {:induction false} SpecialTokenExample(ranks: Ranks, decoder: map<nat, Byte>)
    requires LoadedFrom(LESS_BAR, ranks)
    ensures var text: Bytes := [60, 124, 97, 98];
            Tokenized(ranks, text) == [text] && DecodeAll(Tokenized(ranks, text), decoder) == []
  {
    var four: Piece := [60, 124, 97, 98];
    assert InitialPieces(four) == [[60], [124], [97], [98]];
    LessBarMerges(ranks);
    assert DecodeAll([], decoder) == [] && [four][..0] == [];
  }

  /** The only mergeable pair is the first one, and merging it does not bring it up again. */
  lemma {:induction false} SweepsOne(ranks: Ranks, pieces: seq<Piece>, merged: seq<Piece>)
    requires 1 < |pieces| <= 4 && merged == MergeAt(pieces, 0) && Mergeable(ranks, pieces, 0)
    requires forall i {:trigger Mergeable(ranks, pieces, i)} :: i != 0 ==> !Mergeable(ranks, pieces, i)
    requires forall i :: 0 <= i < |merged| - 1 ==> PairAt(merged, i) != PairAt(pieces, 0)
    ensures Batched(ranks, pieces) == Batched(ranks, merged)
  {
    var pair := PairAt(pieces, 0);
    assert IsBest(ranks, pieces, 0);
    BatchedStep(ranks, pieces, 0);
    assert Swept(merged, pair, 2) == merged;
    assert Swept(merged, pair, 1) == merged;
    assert Swept(merged, pair, 0) == merged;
  }
}
