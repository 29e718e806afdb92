/**
 What the map from processed to original time is for: the times of copied speech. Two recorded points can share a
 processed time; the table keeps either, and then the question is whether they agree.
 */
module CopiedTimes {
  import opened Arithmetic
  import opened VadDetect
  import opened VadSegments
  import opened TimeMap

  // ---------------------------------------------------------------------------------------------
  // Rounding
  // ---------------------------------------------------------------------------------------------

  lemma {:induction false} RoundingShift(a: int, cs: int)
    ensures SamplesToCs(a + SAMPLES_PER_CS * cs) == SamplesToCs(a) + cs
  {
  }

  lemma {:induction false} RoundingStrict(a: int, b: int)
    requires a + SAMPLES_PER_CS <= b
    ensures SamplesToCs(a) < SamplesToCs(b)
  {
    RoundingShift(a, 1);
    RoundingIsMonotone(a + SAMPLES_PER_CS, b);
  }

  // ---------------------------------------------------------------------------------------------
  // Segments of which nothing is copied
  // ---------------------------------------------------------------------------------------------

  /** Segment `j` is the last one before `i` of which something is copied. */
  ghost predicate LastCopied(cuts: seq<Cut>, j: nat, i: nat)
    requires i <= |cuts|
  {
    j < i && cuts[j].length > 0 && forall k :: j < k < i ==> cuts[k].length <= 0
  }

  lemma {:induction false} FindLastCopied(cuts: seq<Cut>, i: nat) returns (found: bool, j: nat)
    requires i <= |cuts|
    ensures if found then LastCopied(cuts, j, i) else forall k :: 0 <= k < i ==> cuts[k].length <= 0
  {
    found, j := false, 0;
    if i > 0 {
      if cuts[i - 1].length > 0 {
        found, j := true, i - 1;
      } else {
        found, j := FindLastCopied(cuts, i - 1);
      }
    }
  }

  lemma {:induction false} SkippedAdd(segments: seq<Speech>, cuts: seq<Cut>, lists: seq<seq<Point>>, j: nat, i: nat)
    requires |segments| == |cuts| == |lists| && AreRecorded(segments, cuts, lists) && j <= i <= |cuts|
    requires forall k :: j <= k < i ==> cuts[k].length <= 0
    ensures Joined(lists, i) == Joined(lists, j) && OffsetAt(cuts, i) == OffsetAt(cuts, j)
    decreases i
  {
    if j < i {
      SkippedAdd(segments, cuts, lists, j, i - 1);
      assert IsRound(i - 1, |cuts|);
      assert Joined(lists, i) == Joined(lists, i - 1) + [];
    }
  }

  /** The segment behind the last copied one starts where segment `i` does. */
  ghost predicate Attached(segments: seq<Speech>, cuts: seq<Cut>, i: nat)
    requires i < |segments| == |cuts|
  {
    forall j: nat {:trigger LastCopied(cuts, j, i)} :: LastCopied(cuts, j, i) ==>
      segments[j + 1].start == segments[i].start
  }

  // ---------------------------------------------------------------------------------------------
  // The points around a copied segment
  // ---------------------------------------------------------------------------------------------

  /** The times at which the copy of a segment starts and ends, without its overlap. */
  function StartPoint(segments: seq<Speech>, cuts: seq<Cut>, i: nat): Point
    requires i < |segments| == |cuts|
  {
    Point(SamplesToCs(OffsetAt(cuts, i)), segments[i].start)
  }

  function EndPoint(segments: seq<Speech>, cuts: seq<Cut>, i: nat): Point
    requires i < |segments| == |cuts|
  {
    Point(SamplesToCs(OffsetAt(cuts, i) + cuts[i].original), segments[i].end)
  }

  /** A point does not disturb the line from `a` to `b`. */
  predicate Spares(p: Point, a: Point, b: Point) {
    p.processed < a.processed || p == a || p == b || b.processed < p.processed
  }

  ghost predicate AllSpare(points: seq<Point>, a: Point, b: Point) {
    forall p :: p in points ==> Spares(p, a, b)
  }

  /** Sorted segments with what is cut and recorded for them. */
  ghost predicate Recorded(segments: seq<Speech>, cuts: seq<Cut>, lists: seq<seq<Point>>, n: nat, end: int) {
    && Apart(segments, end) && 0 <= end && |segments| == |cuts| == |lists|
    && Inner(cuts, n) && AreRecorded(segments, cuts, lists)
  }

  lemma {:induction false} RecordedOf(segments: seq<Speech>, overlap: nat, n: nat, end: int)
    requires Apart(segments, end) && 0 <= end && n > 0
    ensures var cuts := Cuts(segments, overlap, n); Recorded(segments, cuts, Points(segments, cuts), n, end)
  {
    CutsInner(segments, overlap, n, end);
  }

  /** The four points of a copied segment that is not the last, and the two of the last one. */
  lemma {:induction false} OwnPoints(segments: seq<Speech>, cuts: seq<Cut>, lists: seq<seq<Point>>, i: nat, n: nat,
                                     end: int, p: Point)
    requires Recorded(segments, cuts, lists, n, end) && i < |segments| && cuts[i].length > 0 && p in lists[i]
    ensures var o := OffsetAt(cuts, i);
            || p == StartPoint(segments, cuts, i) || p == EndPoint(segments, cuts, i)
            || (i + 1 < |segments|
                && (p == Point(SamplesToCs(o + cuts[i].length), segments[i].end)
                    || p == Point(SamplesToCs(o + cuts[i].length + SILENCE), segments[i + 1].start)))
  {
    assert IsRound(i, |cuts|);
  }

  lemma {:induction false} OwnTimes(segments: seq<Speech>, cuts: seq<Cut>, lists: seq<seq<Point>>, i: nat, n: nat,
                                    end: int)
    requires Recorded(segments, cuts, lists, n, end) && i < |segments| && cuts[i].length > 0
    ensures var o, len := OffsetAt(cuts, i), cuts[i].length;
            && SamplesToCs(o) <= SamplesToCs(o + cuts[i].original) <= SamplesToCs(o + len)
            && SamplesToCs(o + len) < SamplesToCs(o + len + SILENCE)
            && OffsetAt(cuts, i + 1) == o + len + if i + 1 < |segments| then SILENCE else 0
  {
    assert IsRound(i, |cuts|) && 0 <= cuts[i].original <= cuts[i].length;
    RoundingIsMonotone(OffsetAt(cuts, i), OffsetAt(cuts, i) + cuts[i].original);
    RoundingIsMonotone(OffsetAt(cuts, i) + cuts[i].original, OffsetAt(cuts, i) + cuts[i].length);
    RoundingStrict(OffsetAt(cuts, i) + cuts[i].length, OffsetAt(cuts, i) + cuts[i].length + SILENCE);
  }

  lemma {:induction false} OwnSpare(segments: seq<Speech>, cuts: seq<Cut>, lists: seq<seq<Point>>, i: nat, n: nat,
                                    end: int, p: Point)
    requires Recorded(segments, cuts, lists, n, end) && i < |segments| && cuts[i].length > 0 && p in lists[i]
    ensures Spares(p, StartPoint(segments, cuts, i), EndPoint(segments, cuts, i))
  {
    OwnPoints(segments, cuts, lists, i, n, end, p);
    OwnTimes(segments, cuts, lists, i, n, end);
  }

  /** Before the copy: a point at its start time comes from the silence behind the last copied segment. */
  lemma {:induction false} EarlierSpare(segments: seq<Speech>, cuts: seq<Cut>, lists: seq<seq<Point>>, i: nat, n: nat,
                                        end: int, p: Point)
    requires Recorded(segments, cuts, lists, n, end) && i < |segments| && Attached(segments, cuts, i)
    requires p in Joined(lists, i)
    ensures p.processed < SamplesToCs(OffsetAt(cuts, i)) || p == StartPoint(segments, cuts, i)
  {
    var found, j := FindLastCopied(cuts, i);
    if !found {
      SkippedAdd(segments, cuts, lists, 0, i);
      assert false;
    }
    SkippedAdd(segments, cuts, lists, j + 1, i);
    OwnTimes(segments, cuts, lists, j, n, end);
    if p in lists[j] {
      OwnPoints(segments, cuts, lists, j, n, end, p);
    } else {
      RecordedInOrder(segments, cuts, lists, j, end, n);
      assert p in Joined(lists, j);
    }
  }

  lemma {:induction false} ListFrom(segments: seq<Speech>, cuts: seq<Cut>, lists: seq<seq<Point>>, i: nat, n: nat,
                                    end: int, p: Point)
    requires Recorded(segments, cuts, lists, n, end) && i < |segments| && p in lists[i]
    ensures SamplesToCs(OffsetAt(cuts, i)) <= p.processed
  {
    assert IsRound(i, |cuts|) && cuts[i].original <= cuts[i].length;
    PointsOfOrdered(segments, cuts[i], i, OffsetAt(cuts, i), end);
  }

  /** After the copy: the silence lies between. */
  lemma {:induction false} LaterSpare(segments: seq<Speech>, cuts: seq<Cut>, lists: seq<seq<Point>>, i: nat, m: nat,
                                      n: nat, end: int, p: Point)
    requires Recorded(segments, cuts, lists, n, end) && i < m <= |segments| && cuts[i].length > 0
    requires p in Joined(lists, m)
    ensures p in Joined(lists, i) || p in lists[i] || EndPoint(segments, cuts, i).processed < p.processed
    decreases m
  {
    if m > i + 1 {
      if p in lists[m - 1] {
        ListFrom(segments, cuts, lists, m - 1, n, end, p);
        OffsetGrows(cuts, i + 1, m - 1);
        RoundingIsMonotone(OffsetAt(cuts, i + 1), OffsetAt(cuts, m - 1));
        OwnTimes(segments, cuts, lists, i, n, end);
      } else {
        LaterSpare(segments, cuts, lists, i, m - 1, n, end, p);
      }
    }
  }

  lemma {:induction false} PointsSpare(segments: seq<Speech>, cuts: seq<Cut>, lists: seq<seq<Point>>, i: nat, n: nat,
                                       end: int)
    requires Recorded(segments, cuts, lists, n, end) && i < |segments| && cuts[i].length > 0
    requires Attached(segments, cuts, i)
    ensures AllSpare(Joined(lists, |segments|), StartPoint(segments, cuts, i), EndPoint(segments, cuts, i))
  {
    forall p | p in Joined(lists, |segments|)
      ensures Spares(p, StartPoint(segments, cuts, i), EndPoint(segments, cuts, i))
    {
      LaterSpare(segments, cuts, lists, i, |segments|, n, end, p);
      if p in lists[i] {
        OwnSpare(segments, cuts, lists, i, n, end, p);
      } else if p in Joined(lists, i) {
        EarlierSpare(segments, cuts, lists, i, n, end, p);
      }
    }
  }

  lemma {:induction false} JoinedHolds<T>(lists: seq<seq<T>>, i: nat, m: nat)
    requires i < m <= |lists|
    ensures Joined(lists, i + 1) <= Joined(lists, m)
    ensures forall p :: p in lists[i] ==> p in Joined(lists, m)
    decreases m
  {
    if i + 1 < m {
      JoinedHolds(lists, i, m - 1);
    }
  }

  lemma {:induction false} OwnInPoints(segments: seq<Speech>, cuts: seq<Cut>, lists: seq<seq<Point>>, i: nat, n: nat,
                                       end: int)
    requires Recorded(segments, cuts, lists, n, end) && i < |segments| && cuts[i].length > 0
    ensures StartPoint(segments, cuts, i) in Joined(lists, |segments|)
    ensures EndPoint(segments, cuts, i) in Joined(lists, |segments|)
  {
    assert IsRound(i, |cuts|);
    assert lists[i][0] == StartPoint(segments, cuts, i) && lists[i][1] == EndPoint(segments, cuts, i);
    JoinedHolds(lists, i, |segments|);
  }

  // ---------------------------------------------------------------------------------------------
  // From the table
  // ---------------------------------------------------------------------------------------------

  /** From `a` on, a time that is `x` later maps `x` later, or up to `more` behind that. */
  predicate Follows(a: Point, time: int, mapped: int, more: int) {
    a.original + (time - a.processed) <= mapped <= a.original + (time - a.processed) + more
  }

  lemma {:induction false} InterpolatedFollows(a: Point, b: Point, time: int)
    requires a.processed <= time <= b.processed && a.processed < b.processed
    requires b.processed - a.processed <= b.original - a.original
    ensures Follows(a, time, Interpolated(a, b, time), b.original - a.original - (b.processed - a.processed))
  {
    var x, d, o := time - a.processed, b.processed - a.processed, b.original - a.original;
    var more := o - d;
    ProductMonotone(x, d, more);
    assert x * o == d * x + x * more;
    var q := x * more / d;
    DivideMonotone(x * more, d * more, d);
    QuotientOf(d, more);
    assert x * more == d * q + x * more % d;
    ModUnique(x * o, d, x + q, x * more % d);
  }

  lemma {:induction false} EntryAt(points: seq<Point>, table: seq<Point>, a: Point, b: Point, p: Point) returns (k: nat)
    requires Increasing(table) && Represents(table, points) && AllSpare(points, a, b) && p in points
    requires p == a || p == b
    requires a.processed <= b.processed
    ensures k < |table| && table[k].processed == p.processed && (table[k] == a || table[k] == b)
  {
    var i :| 0 <= i < |points| && points[i] == p;
    assert HasTime(table, points[i].processed);
    k :| 0 <= k < |table| && table[k].processed == p.processed;
    assert table[k] in points;
  }

  lemma {:induction false} NothingBetween(points: seq<Point>, table: seq<Point>, a: Point, b: Point, k: nat, m: nat)
    requires Increasing(table) && Represents(table, points) && AllSpare(points, a, b)
    requires k < |table| && m < |table| && table[k].processed == a.processed < b.processed == table[m].processed
    ensures m == k + 1 && table[k] == a && table[m] == b
  {
    assert table[k] in points && table[m] in points && Spares(table[k], a, b) && Spares(table[m], a, b);
    assert k < m;
    assert table[k + 1] in points && Spares(table[k + 1], a, b);
  }

  lemma {:induction false} TableFollows(points: seq<Point>, table: seq<Point>, a: Point, b: Point, time: int)
    requires Increasing(table) && Represents(table, points) && AllSpare(points, a, b) && a in points && b in points
    requires a.processed <= time <= b.processed && b.processed - a.processed <= b.original - a.original
    ensures Follows(a, time, Mapped(table, time), b.original - a.original - (b.processed - a.processed))
  {
    var k := EntryAt(points, table, a, b, a);
    var m := EntryAt(points, table, a, b, b);
    if a.processed < b.processed {
      NothingBetween(points, table, a, b, k, m);
      MappedBetween(table, time, m);
      InterpolatedFollows(a, b, time);
    } else {
      MappedExact(table, k);
    }
  }

  // ---------------------------------------------------------------------------------------------
  // The times of copied speech
  // ---------------------------------------------------------------------------------------------

  /** By how many centiseconds, rounded up, the segment reaches behind the last sample. */
  function LateBy(segments: seq<Speech>, n: nat, i: nat): int
    requires i < |segments|
  {
    if CsToSamples(segments[i].end) < n then 0
    else (CsToSamples(segments[i].end) - (n - 1) + SAMPLES_PER_CS - 1) / SAMPLES_PER_CS
  }

  /** The copy is as long as the segment, less what lies behind the last sample. */
  lemma {:induction false} CopyLength(segments: seq<Speech>, overlap: nat, n: nat, end: int, i: nat)
    requires Apart(segments, end) && n > 0 && i < |segments| && CutOf(segments, overlap, n, i).length > 0
    ensures var cuts := Cuts(segments, overlap, n);
            var a, b := StartPoint(segments, cuts, i), EndPoint(segments, cuts, i);
            0 <= b.original - a.original - (b.processed - a.processed) <= LateBy(segments, n, i)
  {
    var cuts := Cuts(segments, overlap, n);
    var o, cut, cs := OffsetAt(cuts, i), cuts[i], segments[i].end - segments[i].start;
    assert segments[i].start <= segments[i].end;
    assert cut == CutOf(segments, overlap, n, i) && cut.from == CsToSamples(segments[i].start);
    RoundingShift(o, cs);
    if CsToSamples(segments[i].end) < n {
      assert cut.original == SAMPLES_PER_CS * cs;
    } else {
      RoundingIsMonotone(o + cut.original, o + SAMPLES_PER_CS * cs);
    }
  }

  /** While the copy of segment `i` lasts, time goes on from the segment's start. */
  ghost predicate MapsCopy(segments: seq<Speech>, cuts: seq<Cut>, n: nat, i: nat, table: seq<Point>)
    requires i < |segments| == |cuts|
  {
    var a, b := StartPoint(segments, cuts, i), EndPoint(segments, cuts, i);
    && Increasing(table)
    && forall time :: a.processed <= time <= b.processed ==>
         Follows(a, time, Mapped(table, time), LateBy(segments, n, i))
  }

  lemma {:induction false} CopiedTimesMap(segments: seq<Speech>, overlap: nat, n: nat, end: int, i: nat,
                                          table: seq<Point>)
    requires Apart(segments, end) && 0 <= end && n > 0 && i < |segments|
    requires CutOf(segments, overlap, n, i).length > 0 && Attached(segments, Cuts(segments, overlap, n), i)
    requires IsTable(Joined(Points(segments, Cuts(segments, overlap, n)), |segments|), table)
    ensures MapsCopy(segments, Cuts(segments, overlap, n), n, i, table)
  {
    var cuts := Cuts(segments, overlap, n);
    var lists := Points(segments, cuts);
    var points, a, b := Joined(lists, |segments|), StartPoint(segments, cuts, i), EndPoint(segments, cuts, i);
    RecordedOf(segments, overlap, n, end);
    var high := PointsInOrder(segments, overlap, n, end);
    TableIncreasing(points, table);
    PointsSpare(segments, cuts, lists, i, n, end);
    OwnInPoints(segments, cuts, lists, i, n, end);
    CopyLength(segments, overlap, n, end, i);
    forall time | a.processed <= time <= b.processed
      ensures Follows(a, time, Mapped(table, time), LateBy(segments, n, i))
    {
      TableFollows(points, table, a, b, time);
    }
  }

  // ---------------------------------------------------------------------------------------------
  // Exactly when
  // ---------------------------------------------------------------------------------------------

  /** The first of equal processed times is kept. */
  lemma {:induction false} UniqueKeepsFirst(s: seq<Point>, k: nat)
    requires ByProcessed(s) && k < |s| && (k > 0 ==> s[k - 1].processed < s[k].processed)
    ensures s[k] in Unique(s)
  {
    if |s| >= 2 && k < |s| - 1 {
      UniqueKeepsFirst(s[..|s| - 1], k);
    }
  }

  lemma {:induction false} PointOf(lists: seq<seq<Point>>, j: nat, m: nat, k: nat)
    requires j < m <= |lists| && k < |lists[j]|
    ensures |Joined(lists, j)| + k < |Joined(lists, m)| && Joined(lists, m)[|Joined(lists, j)| + k] == lists[j][k]
  {
    JoinedHolds(lists, j, m);
    var own := Joined(lists, j + 1);
    assert own[|Joined(lists, j)| + k] == lists[j][k];
    assert Joined(lists, m)[|Joined(lists, j)| + k] == own[|Joined(lists, j)| + k];
  }

  /** A stable sort keeps the end of the silence before segment `i`, with the start of the segment behind it. */
  lemma {:induction false} SilenceEndKept(segments: seq<Speech>, cuts: seq<Cut>, lists: seq<seq<Point>>, j: nat, i: nat,
                                          n: nat, end: int)
    requires Recorded(segments, cuts, lists, n, end) && i < |segments| && LastCopied(cuts, j, i)
    requires Ordered(Joined(lists, |segments|))
    ensures Point(SamplesToCs(OffsetAt(cuts, i)), segments[j + 1].start) in Unique(Joined(lists, |segments|))
  {
    SkippedAdd(segments, cuts, lists, j + 1, i);
    OwnTimes(segments, cuts, lists, j, n, end);
    LastOfList(segments, cuts, lists, j, n, end);
    PointOf(lists, j, |segments|, 2);
    PointOf(lists, j, |segments|, 3);
    UniqueKeepsFirst(Joined(lists, |segments|), |Joined(lists, j)| + 3);
  }

  lemma {:induction false} LastOfList(segments: seq<Speech>, cuts: seq<Cut>, lists: seq<seq<Point>>, j: nat, n: nat,
                                      end: int)
    requires Recorded(segments, cuts, lists, n, end) && j + 1 < |segments| && cuts[j].length > 0
    ensures |lists[j]| == 4 && lists[j][2].processed == SamplesToCs(OffsetAt(cuts, j) + cuts[j].length)
    ensures lists[j][3] == Point(SamplesToCs(OffsetAt(cuts, j) + cuts[j].length + SILENCE), segments[j + 1].start)
  {
    assert IsRound(j, |cuts|);
  }

  lemma {:induction false} StableTable(points: seq<Point>)
    requires Ordered(points)
    ensures IsTable(points, Unique(points))
  {
  }

  /** A segment that is not attached: the sort can keep the other point. */
  lemma {:induction false} DetachedMapsEarly(segments: seq<Speech>, overlap: nat, n: nat, end: int, i: nat)
    requires Apart(segments, end) && 0 <= end && n > 0 && i < |segments|
    requires CutOf(segments, overlap, n, i).length > 0 && !Attached(segments, Cuts(segments, overlap, n), i)
    ensures var cuts := Cuts(segments, overlap, n);
            var table := Unique(Joined(Points(segments, cuts), |segments|));
            IsTable(Joined(Points(segments, cuts), |segments|), table) && !MapsCopy(segments, cuts, n, i, table)
  {
    var cuts := Cuts(segments, overlap, n);
    var lists := Points(segments, cuts);
    var points, a := Joined(lists, |segments|), StartPoint(segments, cuts, i);
    var table := Unique(points);
    RecordedOf(segments, overlap, n, end);
    var high := PointsInOrder(segments, overlap, n, end);
    StableTable(points);
    TableIncreasing(points, table);
    OwnTimes(segments, cuts, lists, i, n, end);
    var q := OtherPoint(segments, cuts, lists, i, n, end);
    MapsEarly(table, a, q, LateBy(segments, n, i));
    assert !Follows(a, a.processed, Mapped(table, a.processed), LateBy(segments, n, i));
  }

  lemma {:induction false} OtherPoint(segments: seq<Speech>, cuts: seq<Cut>, lists: seq<seq<Point>>, i: nat, n: nat,
                                      end: int) returns (q: Point)
    requires Recorded(segments, cuts, lists, n, end) && i < |segments| && !Attached(segments, cuts, i)
    requires Ordered(Joined(lists, |segments|))
    ensures q in Unique(Joined(lists, |segments|))
    ensures q.processed == SamplesToCs(OffsetAt(cuts, i)) && q.original < segments[i].start
  {
    var j: nat :| LastCopied(cuts, j, i) && segments[j + 1].start != segments[i].start;
    SilenceEndKept(segments, cuts, lists, j, i, n, end);
    q := Point(SamplesToCs(OffsetAt(cuts, i)), segments[j + 1].start);
    assert segments[j + 1].start <= segments[j + 1].end <= segments[i].start;
  }

  lemma {:induction false} MapsEarly(table: seq<Point>, a: Point, q: Point, more: int)
    requires Increasing(table) && q in table && q.processed == a.processed && q.original < a.original
    ensures !Follows(a, a.processed, Mapped(table, a.processed), more)
  {
    var k :| 0 <= k < |table| && table[k] == q;
    MappedExact(table, k);
  }

  /** Every table maps the times of a copied segment rightly exactly if the segment is attached. */
  lemma {:induction false} CopiedTimesMapExactlyIf(segments: seq<Speech>, overlap: nat, n: nat, end: int, i: nat)
    requires Apart(segments, end) && 0 <= end && n > 0 && i < |segments|
    requires CutOf(segments, overlap, n, i).length > 0
    ensures var cuts := Cuts(segments, overlap, n);
            (forall table {:trigger MapsCopy(segments, cuts, n, i, table)} ::
               IsTable(Joined(Points(segments, cuts), |segments|), table) ==> MapsCopy(segments, cuts, n, i, table))
            <==> Attached(segments, cuts, i)
  {
    var cuts := Cuts(segments, overlap, n);
    if Attached(segments, cuts, i) {
      forall table | IsTable(Joined(Points(segments, cuts), |segments|), table)
        ensures MapsCopy(segments, cuts, n, i, table)
      {
        CopiedTimesMap(segments, overlap, n, end, i, table);
      }
    } else {
      DetachedMapsEarly(segments, overlap, n, end, i);
    }
  }

  /** With an overlap, or without empty segments, every copied segment is attached. */
  lemma {:induction false} AttachedUnlessEmpty(segments: seq<Speech>, overlap: nat, n: nat, end: int, i: nat)
    requires Apart(segments, end) && i < |segments| && CutOf(segments, overlap, n, i).length > 0
    requires overlap > 0 || forall k :: 0 <= k < |segments| ==> segments[k].start < segments[k].end
    ensures Attached(segments, Cuts(segments, overlap, n), i)
  {
    forall k: nat | k < i
      ensures Cuts(segments, overlap, n)[k].length > 0
    {
      NotSkipped(segments, overlap, n, end, k, i);
    }
    AttachedIfAllCopied(segments, Cuts(segments, overlap, n), i);
  }

  lemma {:induction false} AttachedIfAllCopied(segments: seq<Speech>, cuts: seq<Cut>, i: nat)
    requires i < |segments| == |cuts| && forall k: nat :: k < i ==> cuts[k].length > 0
    ensures Attached(segments, cuts, i)
  {
    forall j: nat | LastCopied(cuts, j, i)
      ensures j + 1 == i
    {
      var next := cuts[j + 1];
    }
  }

  lemma {:induction false} NotSkipped(segments: seq<Speech>, overlap: nat, n: nat, end: int, k: nat, i: nat)
    requires Apart(segments, end) && k < i < |segments| && CutOf(segments, overlap, n, i).length > 0
    requires overlap > 0 || segments[k].start < segments[k].end
    ensures Cuts(segments, overlap, n)[k].length > 0
  {
    assert segments[k].start <= segments[k].end <= segments[i].start;
  }

  /** Without an overlap, an empty segment between two others detaches the second one. */
  lemma {:induction false} DetachedExample(segments: seq<Speech>, n: nat)
    requires segments == [Speech(0, 10), Speech(20, 20), Speech(30, 40)] && n == 10000
    ensures Apart(segments, 40) && CutOf(segments, 0, n, 2).length > 0 && !Attached(segments, Cuts(segments, 0, n), 2)
  {
    assert LastCopied(Cuts(segments, 0, n), 0, 2);
  }

  // ---------------------------------------------------------------------------------------------
  // Sample by sample
  // ---------------------------------------------------------------------------------------------

  lemma {:induction false} RoundedSum(a: int, x: int)
    ensures SamplesToCs(a) + SamplesToCs(x) - 1 <= SamplesToCs(a + x) <= SamplesToCs(a) + SamplesToCs(x) + 1
  {
  }

  lemma {:induction false} SampleInCopy(segments: seq<Speech>, overlap: nat, n: nat, end: int, i: nat, x: nat)
    requires Apart(segments, end) && n > 0 && i < |segments| && CutOf(segments, overlap, n, i).length > 0
    requires CsToSamples(segments[i].start) + x <= Min(CsToSamples(segments[i].end), n - 1)
    ensures var cuts := Cuts(segments, overlap, n);
            StartPoint(segments, cuts, i).processed <= SamplesToCs(OffsetAt(cuts, i) + x)
                                                    <= EndPoint(segments, cuts, i).processed
  {
    var cuts := Cuts(segments, overlap, n);
    assert cuts[i] == CutOf(segments, overlap, n, i) && x <= cuts[i].original;
    RoundingIsMonotone(OffsetAt(cuts, i), OffsetAt(cuts, i) + x);
    RoundingIsMonotone(OffsetAt(cuts, i) + x, OffsetAt(cuts, i) + cuts[i].original);
  }

  lemma {:induction false} CopyFollows(segments: seq<Speech>, cuts: seq<Cut>, n: nat, i: nat, table: seq<Point>,
                                       time: int) returns (a: Point, mapped: int, more: int)
    requires i < |segments| == |cuts| && MapsCopy(segments, cuts, n, i, table)
    requires StartPoint(segments, cuts, i).processed <= time <= EndPoint(segments, cuts, i).processed
    ensures a == StartPoint(segments, cuts, i) && mapped == Mapped(table, time) && more == LateBy(segments, n, i)
    ensures Follows(a, time, mapped, more)
  {
    a, mapped, more := StartPoint(segments, cuts, i), Mapped(table, time), LateBy(segments, n, i);
  }

  /** `mapped` is `own`, up to one centisecond, or up to `more` later. */
  predicate Near(own: int, mapped: int, more: int) {
    own - 1 <= mapped <= own + 1 + more
  }

  /** Sample `x` of the copy of segment `i`, which is written at time `time`, keeps its time. */
  lemma {:induction false} SampleKeepsItsTime(segments: seq<Speech>, overlap: nat, n: nat, end: int, i: nat,
                                              cuts: seq<Cut>, table: seq<Point>, x: nat, time: int)
    requires Apart(segments, end) && n > 0 && i < |segments| && cuts == Cuts(segments, overlap, n)
    requires CutOf(segments, overlap, n, i).length > 0 && MapsCopy(segments, cuts, n, i, table)
    requires CsToSamples(segments[i].start) + x <= Min(CsToSamples(segments[i].end), n - 1)
    requires time == SamplesToCs(OffsetAt(cuts, i) + x)
    ensures Near(SamplesToCs(CsToSamples(segments[i].start) + x), Mapped(table, time), LateBy(segments, n, i))
  {
    SampleInCopy(segments, overlap, n, end, i, x);
    var a, mapped, more := CopyFollows(segments, cuts, n, i, table, time);
    FollowsRounded(a, OffsetAt(cuts, i), x, time, mapped, more);
  }

  lemma {:induction false} FollowsRounded(a: Point, o: int, x: int, time: int, mapped: int, more: int)
    requires a.processed == SamplesToCs(o) && time == SamplesToCs(o + x) && Follows(a, time, mapped, more)
    ensures Near(SamplesToCs(CsToSamples(a.original) + x), mapped, more)
  {
    RoundedSum(o, x);
    RoundingShift(x, a.original);
    assert CsToSamples(a.original) + x == x + SAMPLES_PER_CS * a.original;
  }
}
