/** Reading audio beyond its ends by reflection, as the feature extractor pads its frames. */
module Reflection {
  import opened Arithmetic

  /** The position that reflection at both ends leads to: a triangle wave with period 2 (size - 1). */
  function Mirror(size: nat, index: int): (m: int)
    requires size > 1
  {
    var phase := index % (2 * size - 2);
    if phase < size then phase else 2 * size - 2 - phase
  }

  function Abs(x: int): nat {
    if x < 0 then -x else x
  }

  /** The two reflections of the loop do not change where an index leads. */
  lemma {:induction false} MirrorReflects(size: nat, index: int)
    requires size > 1
    ensures Mirror(size, -index) == Mirror(size, index) && Mirror(size, 2 * size - index - 2) == Mirror(size, index)
  {
    var period := 2 * size - 2;
    var q, r := index / period, index % period;
    assert index == period * q + r;
    if r == 0 {
      ModUnique(-index, period, -q, 0);
      ModUnique(period - index, period, 1 - q, 0);
    } else {
      ModUnique(-index, period, -q - 1, period - r);
      ModUnique(period - index, period, -q, period - r);
    }
  }

  lemma {:induction false} MirrorInside(size: nat, index: int)
    requires size > 1 && 0 <= index < size
    ensures Mirror(size, index) == index
  {
    var period := 2 * size - 2;
    if index == period {
      ModUnique(index, period, 1, 0);
    } else {
      ModUnique(index, period, 0, index);
    }
  }

  /** The loop ends for every index and reads the sample at its mirror position; too short audio has no mirror. */
  method ReflectedSample(audio: seq<real>, start: int) returns (sample: real)
    ensures |audio| > 1 ==> 0 <= Mirror(|audio|, start) < |audio| && sample == audio[Mirror(|audio|, start)]
    ensures |audio| == 1 ==> sample == audio[0]
    ensures |audio| == 0 ==> sample == 0.0
  {
    var size := |audio|;
    if size <= 1 {
      return if size == 1 then audio[0] else 0.0;
    }
    var index := start;
    while index < 0 || index >= size
      invariant Mirror(size, index) == Mirror(size, start)
      decreases Abs(index), index < 0
    {
      MirrorReflects(size, index);
      index := if index < 0 then -index else 2 * size - index - 2;
    }
    MirrorInside(size, index);
    sample := audio[index];
  }
}
