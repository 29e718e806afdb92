/**
 The conversions between UTF-8 and UTF-16 that replace whatever is malformed by U+FFFD.
 */
module UtfConverter {
  import opened Binary
  import Sequences

  type Unit = u: int | 0 <= u < 0x10000

  const REPLACEMENT := 0xFFFD

  predicate IsSurrogate(p: int) {
    0xD800 <= p <= 0xDFFF
  }

  predicate IsHigh(p: int) {
    0xD800 <= p <= 0xDBFF
  }

  predicate IsLow(p: int) {
    0xDC00 <= p <= 0xDFFF
  }

  /** A Unicode scalar value. */
  type Scalar = p: int | 0 <= p <= 0x10FFFF && !IsSurrogate(p)

  // ---------------------------------------------------------------------------------------------
  // The encodings
  // ---------------------------------------------------------------------------------------------

  function Size8(p: Scalar): nat {
    if p <= 0x7F then 1 else if p <= 0x7FF then 2 else if p <= 0xFFFF then 3 else 4
  }

  /** Byte `k` of the encoding of section 3 of RFC 3629. */
  function Octet(p: Scalar, k: nat): Byte
    requires k < Size8(p)
  {
    match Size8(p)
    case 1 => p
    case 2 => if k == 0 then 0xC0 + p / 64 else 0x80 + p % 64
    case 3 => if k == 0 then 0xE0 + p / 4096 else if k == 1 then 0x80 + p / 64 % 64 else 0x80 + p % 64
    case _ =>
      if k == 0 then 0xF0 + p / 262144 else if k == 1 then 0x80 + p / 4096 % 64
      else if k == 2 then 0x80 + p / 64 % 64 else 0x80 + p % 64
  }

  function Utf8(p: Scalar): seq<Byte> {
    seq(Size8(p), (k: nat) requires k < Size8(p) => Octet(p, k))
  }

  function Size16(p: Scalar): nat {
    if p <= 0xFFFF then 1 else 2
  }

  /** Unit `k` of the encoding of section 2.1 of RFC 2781. */
  function Half(p: Scalar, k: nat): Unit
    requires k < Size16(p)
  {
    if p <= 0xFFFF then p else if k == 0 then 0xD800 + (p - 0x10000) / 1024 else 0xDC00 + (p - 0x10000) % 1024
  }

  function Utf16(p: Scalar): seq<Unit> {
    seq(Size16(p), (k: nat) requires k < Size16(p) => Half(p, k))
  }

  function Encode8(points: seq<Scalar>): seq<Byte> {
    if points == [] then [] else Encode8(points[..|points| - 1]) + Utf8(points[|points| - 1])
  }

  function Encode16(points: seq<Scalar>): seq<Unit> {
    if points == [] then [] else Encode16(points[..|points| - 1]) + Utf16(points[|points| - 1])
  }

  /** Well-formed text is the encoding of some scalar values. */
  ghost predicate WellFormed8(text: seq<Byte>) {
    exists points :: text == Encode8(points)
  }

  ghost predicate WellFormed16(text: seq<Unit>) {
    exists points :: text == Encode16(points)
  }

  lemma {:induction false} Encode8First(p: Scalar, rest: seq<Scalar>)
    ensures Encode8([p] + rest) == Utf8(p) + Encode8(rest)
    decreases |rest|
  {
    if rest == [] {
      assert ([p] + rest)[..0] == [];
      Sequences.EmptyLeft(Utf8(p));
      Sequences.EmptyRight(Utf8(p));
    } else {
      var front, last := rest[..|rest| - 1], rest[|rest| - 1];
      Encode8First(p, front);
      assert ([p] + rest)[..|rest|] == [p] + front;
      Sequences.Associative(Utf8(p), Encode8(front), Utf8(last));
    }
  }

  lemma {:induction false} Encode16First(p: Scalar, rest: seq<Scalar>)
    ensures Encode16([p] + rest) == Utf16(p) + Encode16(rest)
    decreases |rest|
  {
    if rest == [] {
      assert ([p] + rest)[..0] == [];
      Sequences.EmptyLeft(Utf16(p));
      Sequences.EmptyRight(Utf16(p));
    } else {
      var front, last := rest[..|rest| - 1], rest[|rest| - 1];
      Encode16First(p, front);
      assert ([p] + rest)[..|rest|] == [p] + front;
      Sequences.Associative(Utf16(p), Encode16(front), Utf16(last));
    }
  }

  // ---------------------------------------------------------------------------------------------
  // Reading UTF-8
  // ---------------------------------------------------------------------------------------------

  predicate IsContinuation(b: Byte) {
    0x80 <= b <= 0xBF
  }

  /** One step of the reader: the value, the bytes consumed, and whether they were well-formed. */
  datatype Read = Read(point: Scalar, length: nat, ok: bool)

  /** The length that the first byte announces; 0 for bytes that start nothing. */
  function Announced(first: Byte): nat {
    if first <= 0x7F then 1
    else if 0xC2 <= first <= 0xDF then 2
    else if 0xE0 <= first <= 0xEF then 3
    else if 0xF0 <= first <= 0xF4 then 4
    else 0
  }

  /** How many of `length` bytes are there: the first one and the continuation bytes behind it. */
  function Available(text: seq<Byte>, i: nat, from: nat, length: nat): (n: nat)
    requires i + from <= |text| && from <= length
    ensures from <= n <= length && i + n <= |text|
    ensures forall k :: i + from <= k < i + n ==> IsContinuation(text[k])
    ensures n < length && i + n < |text| ==> !IsContinuation(text[i + n])
    decreases length - from
  {
    if from < length && i + from < |text| && IsContinuation(text[i + from]) then Available(text, i, from + 1, length)
        else from
  }

  /** Overlong forms, surrogates and values above 0x10FFFF show in the first two bytes. */
  predicate InvalidRange(first: Byte, second: Byte) {
    || (first == 0xE0 && second < 0xA0)
    || (first == 0xED && second > 0x9F)
    || (first == 0xF0 && second < 0x90)
    || (first == 0xF4 && second > 0x8F)
  }

  function LeadBits(first: Byte): nat {
    if first <= 0x7F then first else if first <= 0xDF then first % 32 else if first <= 0xEF then first % 16
        else first % 8
  }

  function LowBits(b: Byte): nat {
    b % 64
  }

  /** The low bits of the bytes from..length, appended to `point`. */
  function Append(text: seq<Byte>, i: nat, from: nat, length: nat, point: nat): nat
    requires i + length <= |text| && from <= length
    decreases length - from
  {
    if from == length then point else Append(text, i, from + 1, length, point * 64 + LowBits(text[i + from]))
  }

  /** Section 4 of RFC 3629: a well-formed sequence of `n` bytes. */
  predicate IsSequence(text: seq<Byte>, i: nat, n: nat) {
    && n > 0 && i + n <= |text|
    && (n == 1 ==> text[i] <= 0x7F)
    && (n == 2 ==> 0xC2 <= text[i] <= 0xDF && IsContinuation(text[i + 1]))
    && (n == 3 ==>
          && IsContinuation(text[i + 2])
          && ((text[i] == 0xE0 && 0xA0 <= text[i + 1] <= 0xBF)
              || (0xE1 <= text[i] <= 0xEC && IsContinuation(text[i + 1]))
              || (text[i] == 0xED && 0x80 <= text[i + 1] <= 0x9F)
              || (0xEE <= text[i] <= 0xEF && IsContinuation(text[i + 1]))))
    && (n == 4 ==>
          && IsContinuation(text[i + 2]) && IsContinuation(text[i + 3])
          && ((text[i] == 0xF0 && 0x90 <= text[i + 1] <= 0xBF)
              || (0xF1 <= text[i] <= 0xF3 && IsContinuation(text[i + 1]))
              || (text[i] == 0xF4 && 0x80 <= text[i + 1] <= 0x8F)))
    && n <= 4
  }

  /** The six value bits of a continuation byte. */
  function Tail(b: Byte): nat
    requires IsContinuation(b)
  {
    b - 0x80
  }

  /** The value of a well-formed sequence. */
  function ValueOf(text: seq<Byte>, i: nat, n: nat): nat
    requires IsSequence(text, i, n)
  {
    if n == 1 then text[i]
    else if n == 2 then (text[i] as int - 0xC0) * 64 + Tail(text[i + 1])
    else if n == 3 then (text[i] as int - 0xE0) * 4096 + Tail(text[i + 1]) * 64 + Tail(text[i + 2])
    else (text[i] as int - 0xF0) * 262144 + Tail(text[i + 1]) * 4096 + Tail(text[i + 2]) * 64 + Tail(text[i + 3])
  }

  lemma {:induction false} ValueIsScalar(text: seq<Byte>, i: nat, n: nat)
    requires IsSequence(text, i, n)
    ensures ValueOf(text, i, n) <= 0x10FFFF && !IsSurrogate(ValueOf(text, i, n))
  {
  }

  lemma {:induction false} ReadsThree(text: seq<Byte>, i: nat, point: nat)
    requires i + 3 <= |text| && IsContinuation(text[i + 1]) && IsContinuation(text[i + 2])
    ensures Append(text, i, 1, 3, point) == point * 4096 + Tail(text[i + 1]) * 64 + Tail(text[i + 2])
  {
  }

  lemma {:induction false} ReadsFour(text: seq<Byte>, i: nat, point: nat)
    requires i + 4 <= |text| && IsContinuation(text[i + 1]) && IsContinuation(text[i + 2])
             && IsContinuation(text[i + 3])
    ensures Append(text, i, 1, 4, point)
            == point * 262144 + Tail(text[i + 1]) * 4096 + Tail(text[i + 2]) * 64 + Tail(text[i + 3])
  {
    var p := point * 64 + LowBits(text[i + 1]);
    var q := p * 64 + LowBits(text[i + 2]);
    var r := q * 64 + LowBits(text[i + 3]);
    assert Append(text, i, 4, 4, r) == r;
    assert Append(text, i, 3, 4, q) == r;
    assert Append(text, i, 2, 4, p) == r;
  }

  lemma {:induction false} ReadsTwo(text: seq<Byte>, i: nat, point: nat)
    requires i + 2 <= |text| && IsContinuation(text[i + 1])
    ensures Append(text, i, 1, 2, point) == point * 64 + Tail(text[i + 1])
  {
  }

  /** The first byte less its marker bits. */
  lemma {:induction false} LeadBitsOf(text: seq<Byte>, i: nat, n: nat)
    requires IsSequence(text, i, n)
    ensures LeadBits(text[i])
         == text[i] as int - if n == 1 then 0 else if n == 2 then 0xC0 else if n == 3 then 0xE0 else 0xF0
  {
  }

  lemma {:induction false} ReadsValue(text: seq<Byte>, i: nat, n: nat)
    requires IsSequence(text, i, n)
    ensures Append(text, i, 1, n, LeadBits(text[i])) == ValueOf(text, i, n)
  {
    LeadBitsOf(text, i, n);
    if n == 1 {
      assert Append(text, i, 1, 1, LeadBits(text[i])) == LeadBits(text[i]);
    } else if n == 2 {
      ReadsTwo(text, i, LeadBits(text[i]));
    } else if n == 3 {
      ReadsThree(text, i, LeadBits(text[i]));
    } else {
      ReadsFour(text, i, LeadBits(text[i]));
    }
  }

  /** One step of the reader, as the code branches. */
  function ReadUtf8(text: seq<Byte>, i: nat): (r: Read)
    requires i < |text|
    ensures 0 < r.length <= 4 && i + r.length <= |text|
  {
    var first := text[i];
    var length := Announced(first);
    if first <= 0x7F then Read(first, 1, true)
    else if length == 0 then Read(REPLACEMENT, 1, false)
    else
      var valid := Available(text, i, 1, length);
      if valid != length then Read(REPLACEMENT, valid, false)
      else if InvalidRange(first, text[i + 1]) then Read(REPLACEMENT, length, false)
      else
        assert IsContinuation(text[i + 1]);
        ValueIsScalar(text, i, length);
        ReadsValue(text, i, length);
        Read(Append(text, i, 1, length, LeadBits(first)), length, true)
  }

  /** The reader accepts exactly the sequences of section 4, with their value, and reads anything else as U+FFFD. */
  lemma {:induction false} AcceptsExactly(text: seq<Byte>, i: nat)
    requires i < |text|
    ensures var r := ReadUtf8(text, i);
            && (r.ok ==> IsSequence(text, i, r.length) && r.point == ValueOf(text, i, r.length))
            && (!r.ok ==> r.point == REPLACEMENT && forall n :: !IsSequence(text, i, n))
  {
    var length := Announced(text[i]);
    if 1 < length == Available(text, i, 1, length) && !InvalidRange(text[i], text[i + 1]) {
      assert IsContinuation(text[i + 1]);
      ReadsValue(text, i, length);
    }
  }

  /** The scalar values read from position `i` on; malformed input reads as U+FFFD. */
  function Points8(text: seq<Byte>, i: nat): seq<Scalar>
    requires i <= |text|
    decreases |text| - i
  {
    if i == |text| then []
    else
      var r := ReadUtf8(text, i);
      [r.point] + Points8(text, i + r.length)
  }

  method CountAvailable(text: seq<Byte>, index: nat, sequenceLength: nat) returns (validLength: nat)
    requires index < |text| && 0 < sequenceLength
    ensures validLength == Available(text, index, 1, sequenceLength)
  {
    validLength := 1;
    while validLength < sequenceLength && index + validLength < |text| && IsContinuation(text[index + validLength])
      invariant 1 <= validLength <= sequenceLength && index + validLength <= |text|
      invariant Available(text, index, 1, sequenceLength) == Available(text, index, validLength, sequenceLength)
      decreases sequenceLength - validLength
    {
      validLength := validLength + 1;
    }
  }

  method CombineBits(text: seq<Byte>, index: nat, sequenceLength: nat, lead: nat) returns (point: nat)
    requires index + sequenceLength <= |text| && 0 < sequenceLength
    ensures point == Append(text, index, 1, sequenceLength, lead)
  {
    point := lead;
    var offset: nat := 1;
    while offset < sequenceLength
      invariant 1 <= offset <= sequenceLength
      invariant Append(text, index, 1, sequenceLength, lead) == Append(text, index, offset, sequenceLength, point)
    {
      point := point * 64 + LowBits(text[index + offset]);
      offset := offset + 1;
    }
  }

  /** One step of the reader. */
  method ReadOne(text: seq<Byte>, index: nat) returns (point: Scalar, length: nat)
    requires index < |text|
    ensures point == ReadUtf8(text, index).point && length == ReadUtf8(text, index).length
  {
    var first := text[index];
    if first <= 0x7F {
      return first, 1;
    }
    var sequenceLength: nat := 0;
    var lead: nat := 0;
    if first >= 0xC2 && first <= 0xDF {
      sequenceLength, lead := 2, first % 32;
    } else if first >= 0xE0 && first <= 0xEF {
      sequenceLength, lead := 3, first % 16;
    } else if first >= 0xF0 && first <= 0xF4 {
      sequenceLength, lead := 4, first % 8;
    } else {
      return REPLACEMENT, 1;
    }
    point, length := ReadLong(text, index, sequenceLength, lead);
  }

  /** The part of a step for sequences of several bytes. */
  method ReadLong(text: seq<Byte>, index: nat, sequenceLength: nat, lead: nat) returns (point: Scalar, length: nat)
    requires index < |text| && sequenceLength == Announced(text[index]) > 1 && lead == LeadBits(text[index])
    ensures point == ReadUtf8(text, index).point && length == ReadUtf8(text, index).length
  {
    ghost var r := ReadUtf8(text, index);
    var validLength := CountAvailable(text, index, sequenceLength);
    if validLength != sequenceLength {
      return REPLACEMENT, validLength;
    }
    if InvalidRange(text[index], text[index + 1]) {
      return REPLACEMENT, sequenceLength;
    }
    var value := CombineBits(text, index, sequenceLength, lead);
    assert r == Read(value, sequenceLength, true);
    return value, sequenceLength;
  }

  method AppendUtf16(point: Scalar, output: seq<Unit>) returns (more: seq<Unit>)
    ensures more == output + Utf16(point)
  {
    if point <= 0xFFFF {
      return output + [point];
    }
    var value := point - 0x10000;
    more := output + [0xD800 + value / 1024];
    more := more + [0xDC00 + value % 1024];
  }

  method AppendUtf8(point: Scalar, output: seq<Byte>) returns (more: seq<Byte>)
    ensures more == output + Utf8(point)
  {
    if point <= 0x7F {
      more := output + [point];
    } else if point <= 0x7FF {
      more := output + [0xC0 + point / 64, 0x80 + point % 64];
    } else if point <= 0xFFFF {
      more := output + [0xE0 + point / 4096, 0x80 + point / 64 % 64, 0x80 + point % 64];
    } else {
      more := output + [0xF0 + point / 262144, 0x80 + point / 4096 % 64, 0x80 + point / 64 % 64, 0x80 + point % 64];
    }
  }

  /** One round: reads a value and appends its units. */
  method ConvertOne8(text: seq<Byte>, index: nat, output: seq<Unit>) returns (more: seq<Unit>, next: nat)
    requires index < |text|
    ensures index < next <= |text|
    ensures more + Encode16(Points8(text, next)) == output + Encode16(Points8(text, index))
  {
    var point, length := ReadOne(text, index);
    next := index + length;
    Encode16First(point, Points8(text, next));
    Sequences.Associative(output, Utf16(point), Encode16(Points8(text, next)));
    more := AppendUtf16(point, output);
  }

  method Utf8ToUtf16(text: seq<Byte>) returns (output: seq<Unit>)
    ensures output == Encode16(Points8(text, 0))
  {
    output := [];
    Sequences.EmptyLeft(Encode16(Points8(text, 0)));
    var index := 0;
    while index < |text|
      invariant index <= |text| && output + Encode16(Points8(text, index)) == Encode16(Points8(text, 0))
      decreases |text| - index
    {
      output, index := ConvertOne8(text, index, output);
    }
    assert Points8(text, |text|) == [];
    Sequences.EmptyRight(output);
  }

  // ---------------------------------------------------------------------------------------------
  // Reading UTF-16
  // ---------------------------------------------------------------------------------------------

  predicate IsPair(text: seq<Unit>, i: int) {
    0 <= i < |text| - 1 && IsHigh(text[i]) && IsLow(text[i + 1])
  }

  function PairValue(high: Unit, low: Unit): (p: Scalar)
    requires IsHigh(high) && IsLow(low)
    ensures 0x10000 <= p
  {
    0x10000 + (high as int - 0xD800) * 1024 + (low as int - 0xDC00)
  }

  /** One step of the reader: unpaired surrogates read as U+FFFD. */
  function ReadUtf16(text: seq<Unit>, i: nat): (r: Read)
    requires i < |text|
    ensures 0 < r.length <= 2 && i + r.length <= |text|
  {
    if IsPair(text, i) then Read(PairValue(text[i], text[i + 1]), 2, true)
    else if IsSurrogate(text[i]) then Read(REPLACEMENT, 1, false)
    else Read(text[i], 1, true)
  }

  function Points16(text: seq<Unit>, i: nat): seq<Scalar>
    requires i <= |text|
    decreases |text| - i
  {
    if i == |text| then []
    else
      var r := ReadUtf16(text, i);
      [r.point] + Points16(text, i + r.length)
  }

  /** One round: reads one or two units. */
  method ReadUnits(text: seq<Unit>, start: nat) returns (point: Scalar, index: nat)
    requires start < |text|
    ensures point == ReadUtf16(text, start).point && index == start + ReadUtf16(text, start).length
  {
    index := start;
    var first := text[index];
    if first >= 0xD800 && first <= 0xDBFF {
      if index + 1 < |text| && text[index + 1] >= 0xDC00 && text[index + 1] <= 0xDFFF {
        index := index + 1;
        point := PairValue(first, text[index]);
      } else {
        point := REPLACEMENT;
      }
    } else if first >= 0xDC00 && first <= 0xDFFF {
      point := REPLACEMENT;
    } else {
      point := first;
    }
    index := index + 1;
  }

  method ConvertOne16(text: seq<Unit>, index: nat, output: seq<Byte>) returns (more: seq<Byte>, next: nat)
    requires index < |text|
    ensures index < next <= |text|
    ensures more + Encode8(Points16(text, next)) == output + Encode8(Points16(text, index))
  {
    var point;
    point, next := ReadUnits(text, index);
    Encode8First(point, Points16(text, next));
    Sequences.Associative(output, Utf8(point), Encode8(Points16(text, next)));
    more := AppendUtf8(point, output);
  }

  method Utf16ToUtf8(text: seq<Unit>) returns (output: seq<Byte>)
    ensures output == Encode8(Points16(text, 0))
  {
    output := [];
    Sequences.EmptyLeft(Encode8(Points16(text, 0)));
    var index := 0;
    while index < |text|
      invariant index <= |text| && output + Encode8(Points16(text, index)) == Encode8(Points16(text, 0))
      decreases |text| - index
    {
      output, index := ConvertOne16(text, index, output);
    }
    assert Points16(text, |text|) == [];
    Sequences.EmptyRight(output);
  }

  // ---------------------------------------------------------------------------------------------
  // Well-formed output, lengths
  // ---------------------------------------------------------------------------------------------

  lemma {:induction false} LengthFirst8(p: Scalar, rest: seq<Scalar>)
    ensures |Encode8([p] + rest)| == Size8(p) + |Encode8(rest)|
  {
    Encode8First(p, rest);
  }

  lemma {:induction false} LengthFirst16(p: Scalar, rest: seq<Scalar>)
    ensures |Encode16([p] + rest)| == Size16(p) + |Encode16(rest)|
  {
    Encode16First(p, rest);
  }

  /** Every byte string converts to well-formed UTF-16 that is no longer. */
  lemma {:induction false} OutputNoLonger(text: seq<Byte>, i: nat)
    requires i <= |text|
    ensures WellFormed16(Encode16(Points8(text, i))) && |Encode16(Points8(text, i))| <= |text| - i
    decreases |text| - i
  {
    if i == |text| {
      assert Points8(text, i) == [];
    } else {
      var p, next := FirstPoint8(text, i);
      OutputNoLonger(text, next);
      LengthFirst16(p, Points8(text, next));
    }
  }

  lemma {:induction false} FirstPoint8(text: seq<Byte>, i: nat) returns (p: Scalar, next: nat)
    requires i < |text|
    ensures i < next <= |text| && Points8(text, i) == [p] + Points8(text, next) && Size16(p) <= next - i
  {
    p, next := ReadUtf8(text, i).point, i + ReadUtf8(text, i).length;
    AcceptsExactly(text, i);
  }

  /** Every unit string converts to well-formed UTF-8 of at most three bytes per unit. */
  lemma {:induction false} OutputAtMostTriple(text: seq<Unit>, i: nat)
    requires i <= |text|
    ensures WellFormed8(Encode8(Points16(text, i))) && |Encode8(Points16(text, i))| <= 3 * (|text| - i)
    decreases |text| - i
  {
    if i == |text| {
      assert Points16(text, i) == [];
    } else {
      var p, next := FirstPoint16(text, i);
      OutputAtMostTriple(text, next);
      LengthFirst8(p, Points16(text, next));
    }
  }

  lemma {:induction false} FirstPoint16(text: seq<Unit>, i: nat) returns (p: Scalar, next: nat)
    requires i < |text|
    ensures i < next <= |text| && Points16(text, i) == [p] + Points16(text, next) && Size8(p) <= 3 * (next - i)
  {
    p, next := ReadUtf16(text, i).point, i + ReadUtf16(text, i).length;
  }

  // ---------------------------------------------------------------------------------------------
  // Inverses
  // ---------------------------------------------------------------------------------------------

  /** `part` stands at position `i`. */
  ghost predicate StandsAt<T>(text: seq<T>, i: nat, part: seq<T>) {
    i + |part| <= |text| && forall k: nat {:trigger part[k]} :: k < |part| ==> text[i + k] == part[k]
  }

  lemma {:induction false} EncodedShort(text: seq<Byte>, i: nat, p: Scalar)
    requires StandsAt(text, i, Utf8(p)) && p <= 0x7FF
    ensures IsSequence(text, i, |Utf8(p)|) && ValueOf(text, i, |Utf8(p)|) == p
  {
    assert text[i + 0] == Utf8(p)[0];
    assert p > 0x7F ==> text[i + 1] == Utf8(p)[1];
  }

  lemma {:induction false} EncodedThree(text: seq<Byte>, i: nat, p: Scalar)
    requires StandsAt(text, i, Utf8(p)) && 0x7FF < p <= 0xFFFF
    ensures IsSequence(text, i, 3) && ValueOf(text, i, 3) == p
  {
    assert text[i + 0] == Utf8(p)[0] && text[i + 1] == Utf8(p)[1] && text[i + 2] == Utf8(p)[2];
    SixBits(p);
    ThreeRange(p / 4096, p / 64 % 64, p);
  }

  lemma {:induction false} ThreeRange(a: nat, b: nat, p: Scalar)
    requires 0x7FF < p <= 0xFFFF && p / 64 == a * 64 + b && b < 64
    ensures a <= 15 && (a == 0 ==> b >= 0x20) && (a == 13 ==> b <= 0x1F)
  {
    assert !IsSurrogate(p);
  }

  lemma {:induction false} EncodedFour(text: seq<Byte>, i: nat, p: Scalar)
    requires StandsAt(text, i, Utf8(p)) && 0xFFFF < p
    ensures IsSequence(text, i, 4) && ValueOf(text, i, 4) == p
  {
    assert text[i + 0] == Utf8(p)[0] && text[i + 1] == Utf8(p)[1] && text[i + 2] == Utf8(p)[2]
           && text[i + 3] == Utf8(p)[3];
    SixBits(p);
    FourRange(p / 262144, p / 4096 % 64, p);
  }

  lemma {:induction false} FourRange(a: nat, b: nat, p: Scalar)
    requires 0xFFFF < p && p / 4096 == a * 64 + b && b < 64
    ensures a <= 4 && (a == 0 ==> b >= 0x10) && (a == 4 ==> b <= 0xF)
  {
  }

  /** The encoding of a scalar value is a sequence of section 4 with that value. */
  lemma {:induction false} EncodedIsSequence(text: seq<Byte>, i: nat, p: Scalar)
    requires StandsAt(text, i, Utf8(p))
    ensures IsSequence(text, i, |Utf8(p)|) && ValueOf(text, i, |Utf8(p)|) == p
  {
    if p <= 0x7FF {
      EncodedShort(text, i, p);
    } else if p <= 0xFFFF {
      EncodedThree(text, i, p);
    } else {
      EncodedFour(text, i, p);
    }
  }

  lemma {:induction false} SequenceUnique(text: seq<Byte>, i: nat, n: nat, m: nat)
    requires IsSequence(text, i, n) && IsSequence(text, i, m)
    ensures n == m
  {
  }

  /** A position starts at most one sequence, so the reader takes exactly the encoding. */
  lemma {:induction false} ReadsEncoded8(text: seq<Byte>, i: nat, p: Scalar)
    requires StandsAt(text, i, Utf8(p))
    ensures ReadUtf8(text, i) == Read(p, |Utf8(p)|, true)
  {
    EncodedIsSequence(text, i, p);
    AcceptsExactly(text, i);
    var r := ReadUtf8(text, i);
    assert IsSequence(text, i, |Utf8(p)|) && r.ok;
    SequenceUnique(text, i, |Utf8(p)|, r.length);
  }

  lemma {:induction false} Middle<T>(a: seq<T>, b: seq<T>, c: seq<T>)
    ensures StandsAt(a + b + c, |a|, b)
  {
  }

  /** Reading one encoded value; `next` is everything before the rest. */
  lemma {:induction false} ReadsFirst8(before: seq<Byte>, p: Scalar, rest: seq<Scalar>) returns (next: seq<Byte>)
    ensures before + Encode8([p] + rest) == next + Encode8(rest)
    ensures Points8(before + Encode8([p] + rest), |before|) == [p] + Points8(next + Encode8(rest), |next|)
  {
    next := before + Utf8(p);
    Encode8First(p, rest);
    Sequences.Associative(before, Utf8(p), Encode8(rest));
    Middle(before, Utf8(p), Encode8(rest));
    ReadsStanding8(next + Encode8(rest), |before|, |next|, p);
  }

  lemma {:induction false} ReadsStanding8(text: seq<Byte>, i: nat, next: nat, p: Scalar)
    requires StandsAt(text, i, Utf8(p)) && next == i + |Utf8(p)|
    ensures Points8(text, i) == [p] + Points8(text, next)
  {
    ReadsEncoded8(text, i, p);
  }

  /** Reading well-formed UTF-8 gives back the scalar values. */
  lemma {:induction false} Reads8(before: seq<Byte>, points: seq<Scalar>)
    ensures Points8(before + Encode8(points), |before|) == points
    decreases |points|
  {
    if points == [] {
      Sequences.EmptyRight(before);
    } else {
      var p, rest := points[0], points[1..];
      assert points == [p] + rest;
      var next := ReadsFirst8(before, p, rest);
      Reads8(next, rest);
    }
  }

  lemma {:induction false} ReadsEncoded16(text: seq<Unit>, i: nat, p: Scalar)
    requires StandsAt(text, i, Utf16(p))
    ensures ReadUtf16(text, i) == Read(p, |Utf16(p)|, true)
  {
    assert text[i + 0] == text[i] == Utf16(p)[0];
    if p > 0xFFFF {
      assert text[i + 1] == Utf16(p)[1];
      assert IsPair(text, i) && PairValue(text[i], text[i + 1]) == p;
    } else {
      assert text[i] == p && !IsSurrogate(p);
    }
  }

  lemma {:induction false} ReadsFirst16(before: seq<Unit>, p: Scalar, rest: seq<Scalar>) returns (next: seq<Unit>)
    ensures before + Encode16([p] + rest) == next + Encode16(rest)
    ensures Points16(before + Encode16([p] + rest), |before|) == [p] + Points16(next + Encode16(rest), |next|)
  {
    next := before + Utf16(p);
    Encode16First(p, rest);
    Sequences.Associative(before, Utf16(p), Encode16(rest));
    Middle(before, Utf16(p), Encode16(rest));
    ReadsEncoded16(next + Encode16(rest), |before|, p);
  }

  /** Reading well-formed UTF-16 gives back the scalar values. */
  lemma {:induction false} Reads16(before: seq<Unit>, points: seq<Scalar>)
    ensures Points16(before + Encode16(points), |before|) == points
    decreases |points|
  {
    if points == [] {
      Sequences.EmptyRight(before);
    } else {
      var p, rest := points[0], points[1..];
      assert points == [p] + rest;
      var next := ReadsFirst16(before, p, rest);
      Reads16(next, rest);
    }
  }

  /** On well-formed text the two conversions undo each other. */
  lemma {:induction false} MutualInverses(points: seq<Scalar>)
    ensures Encode16(Points8(Encode8(points), 0)) == Encode16(points)
    ensures Encode8(Points16(Encode16(points), 0)) == Encode8(points)
  {
    Reads8([], points);
    Reads16([], points);
    Sequences.EmptyLeft(Encode8(points));
    Sequences.EmptyLeft(Encode16(points));
  }

  // ---------------------------------------------------------------------------------------------
  // What a round trip through UTF-8 does to arbitrary units
  // ---------------------------------------------------------------------------------------------

  /** A surrogate without its partner. */
  predicate Unpaired(text: seq<Unit>, i: int) {
    0 <= i < |text| && IsSurrogate(text[i]) && !IsPair(text, i) && !IsPair(text, i - 1)
  }

  /** Unit by unit: unpaired surrogates become U+FFFD. */
  function Replaced(text: seq<Unit>): (r: seq<Unit>)
    ensures |r| == |text|
  {
    seq(|text|, (i: nat) requires i < |text| => if Unpaired(text, i) then REPLACEMENT else text[i])
  }

  lemma {:induction false} ReplacedFrom(text: seq<Unit>, i: nat)
    requires i <= |text| && !IsPair(text, i - 1)
    ensures Encode16(Points16(text, i)) == Replaced(text)[i..]
    decreases |text| - i
  {
    if i < |text| {
      var r := ReadUtf16(text, i);
      var next := i + r.length;
      NotInsidePair(text, i);
      ReplacedFrom(text, next);
      Encode16First(r.point, Points16(text, next));
      assert Replaced(text)[i..] == Replaced(text)[i..next] + Replaced(text)[next..];
      StepReplaced(text, i);
    }
  }

  lemma {:induction false} NotInsidePair(text: seq<Unit>, i: nat)
    requires i < |text|
    ensures !IsPair(text, i + ReadUtf16(text, i).length - 1)
  {
  }

  lemma {:induction false} StepReplaced(text: seq<Unit>, i: nat)
    requires i < |text| && !IsPair(text, i - 1)
    ensures var r := ReadUtf16(text, i); Replaced(text)[i..i + r.length] == Utf16(r.point)
  {
  }

  /** To UTF-8 and back replaces exactly the unpaired surrogates and keeps everything else. */
  lemma {:induction false} RoundTripReplaces(text: seq<Unit>)
    ensures Encode16(Points8(Encode8(Points16(text, 0)), 0)) == Replaced(text)
  {
    Reads8([], Points16(text, 0));
    Sequences.EmptyLeft(Encode8(Points16(text, 0)));
    ReplacedFrom(text, 0);
  }
}
