/**
 The byte alphabet of byte-level BPE: every byte stands for a printable code point, written in UTF-8. The
 encoder and the decoder build the same table; it is a bijection.
 */
module ByteTable {
  import opened Binary
  import Sequences

  type Bytes = seq<Byte>

  datatype Option<T> = None | Some(value: T)

  // ---------------------------------------------------------------------------------------------
  // UTF-8 of one code point, and reading code points back
  // ---------------------------------------------------------------------------------------------

  /** UTF-8 of a code point; none above 0x10FFFF, where the code throws. */
  function Utf8FromCodePoint(point: nat): Option<Bytes> {
    if point <= 0x7F then Some([point])
    else if point <= 0x7FF then Some([0xC0 + point / 64, 0x80 + point % 64])
    else if point <= 0xFFFF then Some([0xE0 + point / 4096, 0x80 + point / 64 % 64, 0x80 + point % 64])
    else if point <= 0x10FFFF then
      Some([0xF0 + point / 262144, 0x80 + point / 4096 % 64, 0x80 + point / 64 % 64, 0x80 + point % 64])
    else None
  }

  /** The number of bytes that the reader takes to follow `first`. */
  function Trailing(first: Byte): nat {
    if first < 0x80 then 0 else if first < 0xE0 then 1 else if first < 0xF0 then 2 else 3
  }

  /** The bits of `first` that belong to the code point. */
  function LeadBits(first: Byte): nat {
    if first < 0x80 then first else if first < 0xE0 then first % 64 else if first < 0xF0 then first % 32 else first % 16
  }

  /** Adds the low six bits of up to `count` bytes. */
  function Accumulate(text: Bytes, i: nat, count: nat, point: nat): (nat, nat)
    requires i <= |text|
    ensures i <= Accumulate(text, i, count, point).1 <= |text|
    decreases count
  {
    if count == 0 || i == |text| then (point, i)
    else Accumulate(text, i + 1, count - 1, point * 64 + text[i] % 64)
  }

  /** The code points of a text; malformed text is read without checks. */
  function CodePoints(text: Bytes, i: nat): seq<nat>
    requires i <= |text|
    decreases |text| - i
  {
    if i == |text| then []
    else
      var next := Accumulate(text, i + 1, Trailing(text[i]), LeadBits(text[i]));
      [next.0] + CodePoints(text, next.1)
  }

  /** One code point and the position behind it. */
  method ReadPoint(text: Bytes, at: nat) returns (point: nat, i: nat)
    requires at < |text|
    ensures (point, i) == Accumulate(text, at + 1, Trailing(text[at]), LeadBits(text[at]))
  {
    var first := text[at];
    i := at + 1;
    if first < 0x80 {
      return first, i;
    }
    var trailing: nat := if first < 0xE0 then 1 else if first < 0xF0 then 2 else 3;
    point := LeadBits(first);
    var j: nat := 0;
    while j < trailing && i < |text|
      invariant j <= trailing && at < i <= |text|
      invariant Accumulate(text, i, trailing - j, point) == Accumulate(text, at + 1, trailing, LeadBits(first))
    {
      var low: nat := text[i] % 64;
      point := point * 64 + low;
      i := i + 1;
      j := j + 1;
    }
  }

  method ReadCodePoints(text: Bytes) returns (points: seq<nat>)
    ensures points == CodePoints(text, 0)
  {
    points := [];
    var i := 0;
    while i < |text|
      invariant i <= |text| && CodePoints(text, 0) == points + CodePoints(text, i)
    {
      var point, next := ReadPoint(text, i);
      Sequences.Associative(points, [point], CodePoints(text, next));
      points := points + [point];
      i := next;
    }
  }

  // ---------------------------------------------------------------------------------------------
  // The table
  // ---------------------------------------------------------------------------------------------

  /** Bytes that stand for themselves. */
  predicate Printable(b: int) {
    33 <= b <= 126 || 161 <= b <= 172 || 174 <= b <= 255
  }

  /** How many bytes below `b` do not stand for themselves. */
  function Others(b: int): nat
    requires 0 <= b <= 256
  {
    if b <= 33 then b else if b <= 127 then 33 else if b <= 161 then b - 94 else if b <= 173 then 67 else 68
  }

  /** The code point of a byte. */
  function Code(b: Byte): (point: nat)
    ensures point < 0x800
  {
    if Printable(b) then b else 256 + Others(b)
  }

  /** No two bytes share a code point. */
  lemma {:induction false} CodeInjective(a: Byte, b: Byte)
    ensures Code(a) == Code(b) ==> a == b
  {
  }

  /** The bytes below `b` that do not stand for themselves. */
  ghost function OthersBelow(b: int): set<int> {
    set x | 0 <= x < b && !Printable(x)
  }

  lemma {:induction false} OthersCount(b: int)
    requires 0 <= b <= 256
    ensures |OthersBelow(b)| == Others(b)
  {
    if b == 0 {
      assert OthersBelow(0) == {};
    } else {
      OthersCount(b - 1);
      assert OthersBelow(b) == OthersBelow(b - 1) + if Printable(b - 1) then {} else {b - 1};
    }
  }

  /** Printable bytes keep their value; the others are numbered from 256 on, in order. */
  lemma {:induction false} CodeCounts(b: Byte)
    ensures Code(b) == if Printable(b) then b else 256 + |OthersBelow(b)|
  {
    OthersCount(b);
  }

  ghost predicate Tabled(bytes: seq<int>, unicode: seq<int>) {
    |bytes| == |unicode| && forall i :: 0 <= i < |bytes| ==> 0 <= bytes[i] < 256 && unicode[i] == Code(bytes[i])
  }

  /** The two lists of the table: printable bytes in three ranges, then the others from 256 on. */
  method BuildTable() returns (bytes: seq<int>, unicode: seq<int>)
    ensures Tabled(bytes, unicode) && forall b: Byte :: b in bytes
  {
    bytes := [];
    bytes := PushRange(bytes, 33, 126);
    bytes := PushRange(bytes, 161, 172);
    bytes := PushRange(bytes, 174, 255);
    assert forall b :: b in bytes <==> Printable(b);
    assert forall i :: 0 <= i < |bytes| ==> bytes[i] in bytes;
    unicode := bytes;
    var extra := 0;
    for value := 0 to 256
      invariant Tabled(bytes, unicode) && extra == Others(value)
      invariant forall b :: b in bytes <==> Printable(b) || 0 <= b < value
    {
      if value !in bytes {
        bytes := bytes + [value];
        unicode := unicode + [256 + extra];
        extra := extra + 1;
      }
    }
  }

  method PushRange(bytes: seq<int>, from: int, upTo: int) returns (r: seq<int>)
    requires 0 <= from <= upTo + 1
    requires forall b :: b in bytes ==> b >= 0
    ensures forall b :: b in r <==> b in bytes || from <= b <= upTo
  {
    r := bytes;
    for value := from to upTo + 1
      invariant forall b :: b in r <==> b in bytes || from <= b < value
    {
      r := r + [value];
    }
  }

  /** The letters of a byte in the alphabet. */
  function Letters(b: Byte): (letters: Bytes)
    ensures 1 <= |letters| <= 2
  {
    Utf8FromCodePoint(Code(b)).value
  }

  method MakeByteEncoder() returns (encoder: map<Byte, Bytes>)
    ensures forall b: Byte :: b in encoder && encoder[b] == Letters(b)
  {
    var bytes, unicode := BuildTable();
    encoder := map[];
    for i := 0 to |bytes|
      invariant forall k :: 0 <= k < i ==> bytes[k] in encoder
      invariant forall b :: b in encoder ==> encoder[b] == Letters(b)
    {
      if bytes[i] !in encoder {
        encoder := encoder[bytes[i] := Utf8FromCodePoint(unicode[i]).value];
      }
    }
    forall b: Byte
      ensures b in encoder
    {
      assert b in bytes;
      var k :| 0 <= k < |bytes| && bytes[k] == b;
    }
  }

  method MakeByteDecoder() returns (decoder: map<nat, Byte>)
    ensures forall b: Byte :: Code(b) in decoder && decoder[Code(b)] == b
    ensures forall point :: point in decoder ==> Code(decoder[point]) == point
  {
    var bytes, unicode := BuildTable();
    decoder := map[];
    for i := 0 to |bytes|
      invariant forall k :: 0 <= k < i ==> unicode[k] in decoder
      invariant forall point :: point in decoder ==> Code(decoder[point]) == point
    {
      if unicode[i] !in decoder {
        decoder := decoder[unicode[i] := bytes[i]];
      }
    }
    forall b: Byte
      ensures Code(b) in decoder && decoder[Code(b)] == b
    {
      assert b in bytes;
      var k :| 0 <= k < |bytes| && bytes[k] == b;
      CodeInjective(decoder[Code(b)], b);
    }
  }

  // ---------------------------------------------------------------------------------------------
  // Texts
  // ---------------------------------------------------------------------------------------------

  /** A text in the alphabet. */
  function EncodeText(text: Bytes): Bytes {
    if text == [] then [] else EncodeText(text[..|text| - 1]) + Letters(text[|text| - 1])
  }

  lemma {:induction false} EncodeJoin(a: Bytes, b: Bytes)
    ensures EncodeText(a + b) == EncodeText(a) + EncodeText(b)
    decreases |b|
  {
    if b == [] {
      assert a + b == a;
    } else {
      var front, last := b[..|b| - 1], b[|b| - 1];
      EncodeJoin(a, front);
      assert (a + b)[..|a + b| - 1] == a + front;
    }
  }

  lemma {:induction false} ReadsTwo(text: Bytes, point: nat)
    requires 0x7F < point <= 0x7FF && text == Utf8FromCodePoint(point).value
    ensures Accumulate(text, 1, 1, LeadBits(text[0])) == (point, 2)
  {
    assert LeadBits(text[0]) == point / 64 && text[1] % 64 == point % 64;
    assert Accumulate(text, 2, 0, point) == (point, 2);
  }

  lemma {:induction false} ReadsThree(text: Bytes, point: nat)
    requires 0x7FF < point <= 0xFFFF && text == Utf8FromCodePoint(point).value
    ensures Accumulate(text, 1, 2, LeadBits(text[0])) == (point, 3)
  {
    SixBits(point);
    assert LeadBits(text[0]) == point / 4096 && text[1] % 64 == point / 64 % 64 && text[2] % 64 == point % 64;
    assert Accumulate(text, 3, 0, point) == (point, 3);
    assert Accumulate(text, 2, 1, point / 64) == (point, 3);
  }

  lemma {:induction false} ReadsFour(text: Bytes, point: nat)
    requires 0xFFFF < point <= 0x10FFFF && text == Utf8FromCodePoint(point).value
    ensures Accumulate(text, 1, 3, LeadBits(text[0])) == (point, 4)
  {
    SixBits(point);
    assert LeadBits(text[0]) == point / 262144 && text[1] % 64 == point / 4096 % 64;
    assert text[2] % 64 == point / 64 % 64 && text[3] % 64 == point % 64;
    assert Accumulate(text, 4, 0, point) == (point, 4);
    assert Accumulate(text, 3, 1, point / 64) == (point, 4);
    assert Accumulate(text, 2, 2, point / 4096) == (point, 4);
  }

  /** The reader reads the UTF-8 of any code point back. */
  lemma {:induction false} ReadsCodePoint(point: nat)
    requires point <= 0x10FFFF
    ensures var utf8 := Utf8FromCodePoint(point); utf8.Some? && CodePoints(utf8.value, 0) == [point]
  {
    var text := Utf8FromCodePoint(point).value;
    assert CodePoints(text, |text|) == [];
    if point <= 0x7F {
      assert Accumulate(text, 1, 0, point) == (point, 1);
    } else if point <= 0x7FF {
      ReadsTwo(text, point);
    } else if point <= 0xFFFF {
      ReadsThree(text, point);
    } else {
      ReadsFour(text, point);
    }
  }

  /** Reading one byte's letters gives its code point and ends behind them. */
  lemma {:induction false} ReadLetters(text: Bytes, i: nat, b: Byte)
    requires i + |Letters(b)| <= |text| && text[i..i + |Letters(b)|] == Letters(b)
    ensures CodePoints(text, i) == [Code(b)] + CodePoints(text, i + |Letters(b)|)
  {
    var p, letters := Code(b), Letters(b);
    assert text[i] == text[i..i + |letters|][0] == letters[0];
    if p <= 0x7F {
    } else {
      assert text[i + 1] == text[i..i + |letters|][1] == letters[1];
      assert letters[0] == 0xC0 + p / 64 && letters[1] == 0x80 + p % 64;
      assert LeadBits(text[i]) == p / 64 && text[i + 1] % 64 == p % 64;
      assert Accumulate(text, i + 1, 1, p / 64) == Accumulate(text, i + 2, 0, p);
    }
  }
}
