/**
 Building the printed linear histogram of one key (`build_linear_histogram` in
 src/types_format.cpp:391-415), whose bounds are narrowed to int on the way.
 */
module LinearHistograms {
  import opened Prelude
  import opened Arithmetic
  import opened Codec
  import opened Layout
  import opened LinearBuckets
  import opened Histograms

  // What a linear histogram should show.

  // The counts of the buckets from first on, and the labels of those up to max.
  predicate LinearRun(counts: seq<nat>, labels: seq<Primitive>, values: seq<nat>, first: nat,
                      min: int, max: int, step: int)
  {
    && first + |counts| <= |values|
    && |labels| <= |counts|
    && forall i :: first <= i < first + |counts| ==> RunAt(counts, labels, values, first, min, max, step, i)
  }

  predicate RunAt(counts: seq<nat>, labels: seq<Primitive>, values: seq<nat>, first: nat,
                  min: int, max: int, step: int, i: int)
    requires first <= i < first + |counts| <= |values|
  {
    && counts[i - first] == values[i]
    && if i < first + |labels| then LabelNumber(labels[i - first]) == LinearEdge(i, min, step) <= max
       else LinearEdge(i, min, step) > max
  }

  // h shows the buckets first, first + 1, ... of values at their linear edges; the buckets past
  // max, which come last, have no label.
  predicate ShowsLinear(h: Histogram, values: seq<nat>, first: nat, min: int, max: int, step: int) {
    && LinearRun(h.counts, h.labels, values, first, min, max, step)
    && (if first == 0 then h.lower.None?
        else h.lower.Some? && LabelNumber(h.lower.value) == LinearEdge(first - 1, min, step))
  }

  predicate ShowsLinearExtentFrom(h: Histogram, values: seq<nat>, first: int, min: int, max: int, step: int) {
    && Extent(values, first, if first == -1 then -1 else first + |h.counts| - 1)
    && if first == -1 then h == Histogram(None, [], []) else ShowsLinear(h, values, first, min, max, step)
  }

  ghost predicate ShowsLinearExtent(h: Histogram, values: seq<nat>, min: int, max: int, step: int) {
    exists first :: ShowsLinearExtentFrom(h, values, first, min, max, step)
  }

  // What it shows.

  // The number that labels bucket i, computed in ints.
  function IntEdge(i: int, min: int, step: int): int {
    Narrow(LinearEdge(i, Narrow(min), Narrow(step)))
  }

  // The labels of n buckets from first on.
  function IntLabels(first: nat, n: nat, min: int, max: int, step: int): seq<Primitive> {
    if n == 0 then []
    else
      var edge := IntEdge(first + n - 1, min, step);
      IntLabels(first, n - 1, min, max, step) + if edge <= Narrow(max) then [LinearLabel(edge, Narrow(step))] else []
  }

  predicate PrintedFrom(h: Histogram, values: seq<nat>, first: int, min: int, max: int, step: int) {
    && Extent(values, first, if first == -1 then -1 else first + |h.counts| - 1)
    && if first == -1 then h == Histogram(None, [], [])
       else
         && h.counts == values[first..first + |h.counts|]
         && h.labels == IntLabels(first, |h.counts|, min, max, step)
         && h.lower == if first == 0 then None else Some(LinearLabel(IntEdge(first - 1, min, step), Narrow(step)))
  }

  ghost predicate Printed(h: Histogram, values: seq<nat>, min: int, max: int, step: int) {
    exists first :: PrintedFrom(h, values, first, min, max, step)
  }

  // Products and sums of ints are taken to wrap.
  method BuildLinearHistogram(values: seq<nat>, min: int, max: int, step: int) returns (h: Histogram)
    ensures Printed(h, values, min, max, step)
  {
    hide LinearLabel, Narrow, LinearEdge;
    h := Histogram(None, [], []);
    var lo, hi := Indices(values);
    if lo == -1 {
      assert PrintedFrom(h, values, -1, min, max, step);
      return;
    }
    var intMin, intMax, intStep := Narrow(min), Narrow(max), Narrow(step);
    var lower := None;
    if lo != 0 {
      lower := Some(LinearLabel(Narrow(LinearEdge(lo - 1, intMin, intStep)), intStep));
    }
    var labels, counts := [], [];
    for i := lo to hi + 1
      invariant counts == values[lo..i] && labels == IntLabels(lo, i - lo, min, max, step)
    {
      var edge := Narrow(LinearEdge(i, intMin, intStep));
      if edge <= intMax {
        labels := labels + [LinearLabel(edge, intStep)];
      }
      assert values[lo..i + 1] == values[lo..i] + [values[i]];
      counts := counts + [values[i]];
    }
    h := Histogram(lower, labels, counts);
    assert PrintedFrom(h, values, lo, min, max, step);
  }

  lemma ExtendRun(counts: seq<nat>, labels: seq<Primitive>, more: seq<Primitive>, values: seq<nat>, first: nat,
                  min: int, max: int, step: int)
    requires step >= 1 && LinearRun(counts, labels, values, first, min, max, step)
    requires first + |counts| < |values|
    requires if LinearEdge(first + |counts|, min, step) <= max
             then |more| == |labels| + 1 && more[..|labels|] == labels
                  && LabelNumber(more[|labels|]) == LinearEdge(first + |counts|, min, step)
             else more == labels
    ensures LinearRun(counts + [values[first + |counts|]], more, values, first, min, max, step)
  {
    var n := |counts|;
    if LinearEdge(first + n, min, step) <= max {
      LabelledRun(counts, labels, values, first, min, max, step);
    }
    var longer := counts + [values[first + n]];
    forall i | first <= i < first + |longer| ensures RunAt(longer, more, values, first, min, max, step, i) {
      if i < first + n {
        assert RunAt(counts, labels, values, first, min, max, step, i);
        if i < first + |labels| {
          assert more[i - first] == labels[i - first];
        }
      }
    }
  }

  // Edges increase, so when the next bucket has a label all buckets so far have one.
  lemma LabelledRun(counts: seq<nat>, labels: seq<Primitive>, values: seq<nat>, first: nat,
                    min: int, max: int, step: int)
    requires step >= 1 && LinearRun(counts, labels, values, first, min, max, step)
    requires LinearEdge(first + |counts|, min, step) <= max
    ensures |labels| == |counts|
  {
    hide LinearEdge, LabelNumber;
    if |labels| < |counts| {
      assert RunAt(counts, labels, values, first, min, max, step, first + |labels|);
      EdgesOrdered(first + |labels|, first + |counts|, min, step);
    }
  }

  const LINEAR_BUCKETS: nat := 1002

  // How many samples land in bucket i.
  function CountInLinear(samples: seq<int>, i: nat, min: int, max: int, step: int): nat {
    if samples == [] then 0
    else (if InLinearBucket(samples[0], i, min, max, step) then 1 else 0)
         + CountInLinear(samples[1..], i, min, max, step)
  }

  // Vector entries past the last bucket stay zero.
  function LinearTally(samples: seq<int>, min: int, max: int, step: int): (values: seq<nat>)
    requires ValidBounds(min, max, step)
    ensures |values| == LINEAR_BUCKETS == 1002
  {
    seq(LINEAR_BUCKETS, i requires 0 <= i < LINEAR_BUCKETS =>
      if i > LastLinearBucket(min, max, step) then 0 else CountInLinear(samples, i, min, max, step))
  }

  // The analyser accepts at most 1000 steps between min and max.
  lemma {:induction false} LinearTallyTotal(samples: seq<int>, min: int, max: int, step: int)
    requires AllInt64(samples) && ValidBounds(min, max, step) && (max - min) / step <= 1000
    ensures Sum(LinearTally(samples, min, max, step)) == |samples|
  {
    hide InLinearBucket, LinearBucket;
    var values := LinearTally(samples, min, max, step);
    if samples == [] {
      SumZeroIff(values);
    } else {
      var rest := LinearTally(samples[1..], min, max, step);
      LinearTallyTotal(samples[1..], min, max, step);
      var b, last := LinearBucket(samples[0], min, max, step), LastLinearBucket(min, max, step);
      QuotientOrdered(min, max, min, step);
      LinearBucketExact(samples[0], 0, min, max, step);
      forall i | 0 <= i < LINEAR_BUCKETS ensures values[i] == rest[i] + UnitAt(LINEAR_BUCKETS, b)[i] {
        if i <= last {
          LinearBucketExact(samples[0], i, min, max, step);
        }
      }
      SumPointwise(values, rest, UnitAt(LINEAR_BUCKETS, b));
      SumUnit(LINEAR_BUCKETS, b);
    }
  }

  lemma {:induction false} CountLinearAtMost(samples: seq<int>, i: nat, min: int, max: int, step: int)
    ensures CountInLinear(samples, i, min, max, step) <= |samples|
  {
    hide InLinearBucket;
    if samples != [] {
      CountLinearAtMost(samples[1..], i, min, max, step);
    }
  }


  // Narrowing.

  lemma NarrowShift(x: int, q: int)
    ensures Narrow(x - q * INT_RANGE) == Narrow(x)
  {
    var m := x % INT_RANGE;
    var k := x / INT_RANGE - q;
    DivModOf(INT_RANGE, k, m);
    assert x - q * INT_RANGE == k * INT_RANGE + m;
  }

  lemma NarrowParts(x: int) returns (q: int)
    ensures Narrow(x) == x - q * INT_RANGE
  {
    q := if x % INT_RANGE < INT_RANGE / 2 then x / INT_RANGE else x / INT_RANGE + 1;
  }

  // Computing in ints is computing exactly and narrowing at the end.
  lemma IntEdgeNarrows(i: int, min: int, step: int)
    ensures IntEdge(i, min, step) == Narrow(LinearEdge(i, min, step))
  {
    var a := NarrowParts(min);
    var b := NarrowParts(step);
    hide Narrow;
    assert LinearEdge(i, Narrow(min), Narrow(step)) == LinearEdge(i, min, step) - (a + i * b) * INT_RANGE;
    NarrowShift(LinearEdge(i, min, step), a + i * b);
  }

  lemma NarrowExact(x: int)
    ensures Narrow(x) == x <==> -(INT_RANGE / 2) <= x < INT_RANGE / 2
    ensures INT_RANGE / 2 <= x < INT_RANGE ==> Narrow(x) == x - INT_RANGE
  {
  }

  // The upper edge of the last bucket, at most max + step.
  function LastEdge(min: int, max: int, step: int): int
    requires ValidBounds(min, max, step)
  {
    LinearEdge(LastLinearBucket(min, max, step), min, step)
  }

  lemma LastEdgeAbove(min: int, max: int, step: int)
    requires ValidBounds(min, max, step)
    ensures LastLinearBucket(min, max, step) >= 1
    ensures max < LastEdge(min, max, step) <= max + step
    ensures LastEdge(min, max, step) - step <= max && LastEdge(min, max, step) >= step
  {
    EdgeOfQuotient(max, min, step);
    var q := (max - min) / step;
    assert (1 + q) * step == q * step + step;
    MulLeq(step, 0, q);
  }

  // Below 2^31 nothing is lost.
  lemma EdgesInRange(i: nat, min: int, max: int, step: int)
    requires ValidBounds(min, max, step) && i <= LastLinearBucket(min, max, step)
    requires LastEdge(min, max, step) < INT_RANGE / 2
    ensures IntEdge(i, min, step) == LinearEdge(i, min, step)
    ensures Narrow(max) == max
  {
    LastEdgeAbove(min, max, step);
    EdgesOrdered(i, LastLinearBucket(min, max, step), min, step);
    EdgesOrdered(0, i, min, step);
    ZeroEdge(min, step);
    IntEdgeNarrows(i, min, step);
    NarrowExact(LinearEdge(i, min, step));
    NarrowExact(max);
  }

  // Counts appear only in buckets that samples land in.
  predicate NothingPast(values: seq<nat>, last: int) {
    forall i :: 0 <= i < |values| && i > last ==> values[i] == 0
  }

  lemma {:induction false} LabelsRun(
      values: seq<nat>, first: nat, n: nat, min: int, max: int, step: int)
    requires ValidBounds(min, max, step) && LastEdge(min, max, step) < INT_RANGE / 2
    requires first + n <= |values| && first + n <= LastLinearBucket(min, max, step) + 1
    ensures LinearRun(values[first..first + n], IntLabels(first, n, min, max, step), values, first, min, max, step)
  {
    hide LinearEdge, LabelNumber, Narrow, LinearLabel, LastLinearBucket;
    if n > 0 {
      var i := first + n - 1;
      LabelsRun(values, first, n - 1, min, max, step);
      EdgesInRange(i, min, max, step);
      LinearLabelDenotes(LinearEdge(i, min, step), Narrow(step));
      assert values[first..first + n] == values[first..i] + [values[i]];
      ExtendRun(values[first..i], IntLabels(first, n - 1, min, max, step), IntLabels(first, n, min, max, step),
                values, first, min, max, step);
    }
  }

  lemma VisibleNotZero(count: nat)
    ensures Visible(count) ==> count > 0
  {
  }

  // With its last edge below 2^31, a histogram shows its buckets at the edges of the given bounds.
  lemma PrintsRight(h: Histogram, values: seq<nat>, first: int, min: int, max: int, step: int)
    requires ValidBounds(min, max, step) && LastEdge(min, max, step) < INT_RANGE / 2
    requires NothingPast(values, LastLinearBucket(min, max, step))
    requires PrintedFrom(h, values, first, min, max, step)
    ensures ShowsLinearExtentFrom(h, values, first, min, max, step)
  {
    hide LinearEdge, LabelNumber, Narrow, LinearLabel, LastLinearBucket, IntLabels;
    if first != -1 {
      LastEdgeAbove(min, max, step);
      VisibleNotZero(values[first + |h.counts| - 1]);
      LabelsRun(values, first, |h.counts|, min, max, step);
      if first != 0 {
        EdgesInRange(first - 1, min, max, step);
        LinearLabelDenotes(LinearEdge(first - 1, min, step), Narrow(step));
      }
    }
  }

  // One sample, in bucket b.
  lemma UnitExtent(b: nat, first: int, last: int)
    requires b < LINEAR_BUCKETS && Extent(UnitAt(LINEAR_BUCKETS, b), first, last)
    ensures first == last == b
  {
    var values := UnitAt(LINEAR_BUCKETS, b);
    assert Visible(values[b]);
  }

  lemma UnitPrinted(b: nat, min: int, max: int, step: int) returns (h: Histogram)
    requires b < LINEAR_BUCKETS
    ensures PrintedFrom(h, UnitAt(LINEAR_BUCKETS, b), b, min, max, step)
  {
    var values := UnitAt(LINEAR_BUCKETS, b);
    h := Histogram(if b == 0 then None else Some(LinearLabel(IntEdge(b - 1, min, step), Narrow(step))),
                   IntLabels(b, 1, min, max, step), values[b..b + 1]);
    assert Visible(values[b]);
  }

  // From 2^31 on, a single sample in the last bucket or the one before it shows a wrong edge.
  lemma WrongEdge(min: int, max: int, step: int) returns (b: nat)
    requires ValidBounds(min, max, step) && step <= max - min && LastEdge(min, max, step) >= INT_RANGE / 2
    ensures 1 <= b <= LastLinearBucket(min, max, step)
    ensures IntEdge(b - 1, min, step) != LinearEdge(b - 1, min, step)
         || (IntEdge(b, min, step) <= Narrow(max) && LinearEdge(b, min, step) > max)
         || (IntEdge(b, min, step) > Narrow(max) && LinearEdge(b, min, step) <= max)
  {
    hide LinearEdge, LastLinearBucket, LastEdge, Narrow;
    var last := LastLinearBucket(min, max, step);
    var edge := LastEdge(min, max, step);
    LastEdgeAbove(min, max, step);
    TwoBuckets(min, max, step);
    LastTwoEdges(min, max, step);
    IntEdgeNarrows(last - 1, min, step);
    IntEdgeNarrows(last, min, step);
    hide IntEdge;
    if edge - step >= INT_RANGE / 2 {
      b := last;
      NarrowExact(edge - step);
    } else if max < INT_RANGE / 2 {
      b := last;
      NarrowedEdgeLow(edge, max, step);
    } else {
      b := last - 1;
      NarrowedMaxLow(edge - step, max, step);
    }
  }

  lemma LastTwoEdges(min: int, max: int, step: int)
    requires ValidBounds(min, max, step)
    ensures LinearEdge(LastLinearBucket(min, max, step), min, step) == LastEdge(min, max, step)
    ensures LinearEdge(LastLinearBucket(min, max, step) - 1, min, step) == LastEdge(min, max, step) - step
  {
  }

  lemma NarrowedEdgeLow(edge: int, max: int, step: int)
    requires max < INT_RANGE / 2 <= edge <= max + step && step <= max
    ensures Narrow(edge) <= Narrow(max)
  {
    NarrowExact(edge);
    NarrowExact(max);
  }

  lemma NarrowedMaxLow(prev: int, max: int, step: int)
    requires 0 <= prev < INT_RANGE / 2 <= max < prev + step && step <= prev
    ensures Narrow(prev) > Narrow(max)
  {
    NarrowExact(prev);
    NarrowExact(max);
  }

  lemma TwoBuckets(min: int, max: int, step: int)
    requires ValidBounds(min, max, step) && step <= max - min
    ensures LastLinearBucket(min, max, step) >= 2
    ensures LastEdge(min, max, step) >= min + 2 * step
  {
    var q := (max - min) / step;
    EdgeOfQuotient(max, min, step);
    if q <= 0 {
      MulLeq(step, 1 + q, 1);
    }
    EdgesOrdered(2, 1 + q, min, step);
  }

  // What a histogram of one sample should show, and what it shows.

  lemma UnitShows(b: nat, h: Histogram, min: int, max: int, step: int)
    requires 1 <= b < LINEAR_BUCKETS && ShowsLinearExtent(h, UnitAt(LINEAR_BUCKETS, b), min, max, step)
    ensures h.lower.Some? && LabelNumber(h.lower.value) == LinearEdge(b - 1, min, step)
    ensures h.labels != [] <==> LinearEdge(b, min, step) <= max
  {
    hide LinearEdge, LabelNumber;
    var values := UnitAt(LINEAR_BUCKETS, b);
    var g :| ShowsLinearExtentFrom(h, values, g, min, max, step);
    UnitExtent(b, g, if g == -1 then -1 else g + |h.counts| - 1);
    assert RunAt(h.counts, h.labels, values, b, min, max, step, b);
  }

  lemma UnitPrints(b: nat, h: Histogram, min: int, max: int, step: int)
    requires 1 <= b < LINEAR_BUCKETS && Printed(h, UnitAt(LINEAR_BUCKETS, b), min, max, step)
    ensures h.lower.Some? && LabelNumber(h.lower.value) == IntEdge(b - 1, min, step)
    ensures h.labels != [] <==> IntEdge(b, min, step) <= Narrow(max)
  {
    hide LinearEdge, LabelNumber, Narrow, LinearLabel;
    var values := UnitAt(LINEAR_BUCKETS, b);
    var f :| PrintedFrom(h, values, f, min, max, step);
    UnitExtent(b, f, if f == -1 then -1 else f + |h.counts| - 1);
    assert |h.counts| == 1;
    LinearLabelDenotes(IntEdge(b - 1, min, step), Narrow(step));
    assert IntLabels(b, 0, min, max, step) == [];
  }

  lemma WrongEdgeShown(b: nat, h: Histogram, min: int, max: int, step: int)
    requires 1 <= b < LINEAR_BUCKETS && Printed(h, UnitAt(LINEAR_BUCKETS, b), min, max, step)
    requires IntEdge(b - 1, min, step) != LinearEdge(b - 1, min, step)
          || (IntEdge(b, min, step) <= Narrow(max) && LinearEdge(b, min, step) > max)
          || (IntEdge(b, min, step) > Narrow(max) && LinearEdge(b, min, step) <= max)
    ensures !ShowsLinearExtent(h, UnitAt(LINEAR_BUCKETS, b), min, max, step)
  {
    hide LinearEdge, LabelNumber, Narrow, IntEdge, Printed, ShowsLinearExtent;
    UnitPrints(b, h, min, max, step);
    if ShowsLinearExtent(h, UnitAt(LINEAR_BUCKETS, b), min, max, step) {
      UnitShows(b, h, min, max, step);
    }
  }

  // Every histogram of these bounds is printed at their edges.
  ghost predicate AlwaysRight(min: int, max: int, step: int)
    requires ValidBounds(min, max, step)
  {
    forall values, h ::
      (|values| == LINEAR_BUCKETS && NothingPast(values, LastLinearBucket(min, max, step))
       && Printed(h, values, min, max, step))
      ==> ShowsLinearExtent(h, values, min, max, step)
  }

  // The bounds that the analyser accepts; it counts the buckets in an int.
  predicate Accepted(min: int, max: int, step: int) {
    ValidBounds(min, max, step) && step <= max - min && Narrow((max - min) / step) <= 1000
  }

  // Accepted bounds fit the vector exactly when that count does not wrap.
  lemma AcceptedFitsIff(min: int, max: int, step: int)
    requires Accepted(min, max, step)
    ensures LastLinearBucket(min, max, step) < LINEAR_BUCKETS <==> (max - min) / step < INT_RANGE / 2
  {
    QuotientOrdered(max, max, min, step);
    NarrowExact((max - min) / step);
  }

  // Main result: the printed edges are those of the accepted bounds exactly when the last one is
  // below 2^31.
  lemma EdgesRightIff(min: int, max: int, step: int)
    requires Accepted(min, max, step) && LastLinearBucket(min, max, step) < LINEAR_BUCKETS
    ensures AlwaysRight(min, max, step) <==> LastEdge(min, max, step) < INT_RANGE / 2
  {
    hide LinearEdge, LastLinearBucket, Narrow, PrintedFrom, ShowsLinearExtentFrom;
    if LastEdge(min, max, step) < INT_RANGE / 2 {
      forall values, h |
        |values| == LINEAR_BUCKETS && NothingPast(values, LastLinearBucket(min, max, step))
        && Printed(h, values, min, max, step)
        ensures ShowsLinearExtent(h, values, min, max, step)
      {
        var first :| PrintedFrom(h, values, first, min, max, step);
        PrintsRight(h, values, first, min, max, step);
      }
    } else {
      var b := WrongEdge(min, max, step);
      var h := UnitPrinted(b, min, max, step);
      assert Printed(h, UnitAt(LINEAR_BUCKETS, b), min, max, step);
      WrongEdgeShown(b, h, min, max, step);
    }
  }

  // lhist(v, 0, 10000000000, 1000000000): a sample in [1000000000, 2000000000) is shown without an
  // upper edge, because the bound is read as 1410065408.
  lemma NarrowedBounds(h: Histogram)
    requires Printed(h, UnitAt(LINEAR_BUCKETS, 2), 0, 10_000_000_000, 1_000_000_000)
    ensures Accepted(0, 10_000_000_000, 1_000_000_000) && Narrow(10_000_000_000) == 1_410_065_408
    ensures h == Histogram(Some(Int(1_000_000_000)), [], [1])
    ensures LinearEdge(2, 0, 1_000_000_000) < 10_000_000_000
  {
    var values := UnitAt(LINEAR_BUCKETS, 2);
    var f :| PrintedFrom(h, values, f, 0, 10_000_000_000, 1_000_000_000);
    UnitExtent(2, f, if f == -1 then -1 else f + |h.counts| - 1);
    assert |h.counts| == 1;
    assert IntLabels(2, 0, 0, 10_000_000_000, 1_000_000_000) == [];
  }

  // With fewer than 2^31 samples of a key, the printed linear histogram counts each sample exactly
  // once, and below the bound on the last edge in the printed interval that contains it.
  lemma PrintedLinearHistogram(samples: seq<int>, min: int, max: int, step: int, h: Histogram, first: int)
    requires AllInt64(samples) && ValidBounds(min, max, step) && (max - min) / step <= 1000
    requires |samples| < INT_RANGE / 2
    requires PrintedFrom(h, LinearTally(samples, min, max, step), first, min, max, step)
    ensures Sum(h.counts) == |samples|
    ensures forall j :: 0 <= j < |h.counts| ==>
              first + j <= LastLinearBucket(min, max, step)
              && h.counts[j] == CountInLinear(samples, first + j, min, max, step)
    ensures LastEdge(min, max, step) < INT_RANGE / 2 ==>
              ShowsLinearExtentFrom(h, LinearTally(samples, min, max, step), first, min, max, step)
  {
    hide InLinearBucket, LinearEdge, LabelNumber, LastLinearBucket, IntLabels, Narrow, LinearLabel;
    var values := LinearTally(samples, min, max, step);
    LinearTallyTotal(samples, min, max, step);
    forall i | 0 <= i < |values| ensures values[i] < INT_RANGE / 2 {
      CountLinearAtMost(samples, i, min, max, step);
    }
    ShownTotal(h.counts, values, first);
    if first != -1 {
      VisibleNotZero(values[first + |h.counts| - 1]);
    }
    if LastEdge(min, max, step) < INT_RANGE / 2 {
      PrintsRight(h, values, first, min, max, step);
    }
  }
}
