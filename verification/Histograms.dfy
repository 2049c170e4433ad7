/**
 Building the printed histogram of one key from its dense vector of bucket counts
 (`indices` and `build_histogram` in src/types_format.cpp), and what it preserves.
 */
module Histograms {
  import opened Prelude
  import opened Arithmetic
  import opened Codec
  import opened Layout
  import opened LogBuckets
  import opened LinearBuckets
  import opened Numerals

  // `labels` are upper edges, `lower` is the lower edge of the first bucket.  A bucket beyond
  // the labels has no upper edge.
  datatype Histogram = Histogram(lower: Option<Primitive>, labels: seq<Primitive>, counts: seq<nat>)

  // `indices` copies each 64-bit count into an int before comparing it with zero.
  predicate Visible(count: nat) {
    Narrow(count) > 0
  }

  predicate NothingVisible(values: seq<nat>, from: int, to: int) {
    forall i :: 0 <= i < |values| && from <= i < to ==> !Visible(values[i])
  }

  // First and last visible index, or -1 and -1.
  predicate Extent(values: seq<nat>, first: int, last: int) {
    if first == -1 then last == -1 && NothingVisible(values, 0, |values|)
    else
      && 0 <= first <= last < |values|
      && Visible(values[first]) && Visible(values[last])
      && NothingVisible(values, 0, first) && NothingVisible(values, last + 1, |values|)
  }

  method Indices(values: seq<nat>) returns (first: int, last: int)
    ensures Extent(values, first, last)
  {
    first, last := -1, -1;
    for i := 0 to |values|
      invariant first == -1 ==> last == -1 && NothingVisible(values, 0, i)
      invariant first != -1 ==> 0 <= first <= last < i && Visible(values[first]) && Visible(values[last])
      invariant first != -1 ==> NothingVisible(values, 0, first) && NothingVisible(values, last + 1, i)
    {
      var v := Narrow(values[i]);
      if v > 0 {
        if first == -1 {
          first := i;
        }
        last := i;
      }
    }
  }

  // The primitive that denotes edge i of a logarithmic histogram.
  function EdgePrimitive(i: nat, k: nat): Primitive
    requires k <= 5 && i <= LastBucket(k)
  {
    Pow2Positive(k);
    if i <= 2 * Pow2(k) then Int(i) else HistIndexLabel(i, k)
  }

  lemma EdgePrimitiveDenotes(i: nat, k: nat)
    requires k <= 5 && i <= LastBucket(k)
    ensures LabelNumber(EdgePrimitive(i, k)) == UpperEdge(i, k)
  {
    hide Shl, LabelValue, SignedValue, HistIndexLabel, LogEdge;
    if i > 2 * Pow2(k) {
      Pow2Positive(k);
      LabelDenotesEdge(i, k);
      LabelIsSymbolic(i, k);
    }
  }

  lemma LabelIsSymbolic(i: nat, k: nat)
    requires k <= 5 && Pow2(k) <= i <= LastBucket(k)
    ensures HistIndexLabel(i, k).Symbolic?
    ensures SignedValue(HistIndexLabel(i, k).symbol) == LabelValue(HistIndexLabel(i, k).symbol)
  {
    hide Shl, Shr, LowBits, Numeral, LabelValue, SignedValue;
    PowerBounds(i, k);
    var power := Shr(i, k) - 1;
    var decade := power / 10;
    var mantissa := Shl(Pow2(k) + LowBits(i, k), power - 10 * decade);
    NoSign(Numeral(mantissa, 10), if decade == 0 then "" else [SUFFIXES[decade - 1]]);
  }

  // Counts appear only in buckets that samples land in.
  predicate Reachable(values: seq<nat>, last: nat) {
    forall i :: 0 <= i < |values| && i > last ==> values[i] == 0
  }

  // h shows the buckets first, first + 1, ... of values, each at its own edges.
  predicate ShowsLog(h: Histogram, values: seq<nat>, first: nat, div: nat, k: nat)
    requires div >= 1
  {
    && first + |h.counts| <= |values|
    && |h.labels| == |h.counts| > 0
    && (forall j :: 0 <= j < |h.counts| ==>
          h.counts[j] == values[first + j] / div && LabelNumber(h.labels[j]) == UpperEdge(first + j, k))
    && (if first == 0 then h.lower.None?
        else h.lower.Some? && LabelNumber(h.lower.value) == UpperEdge(first - 1, k))
  }

  // h shows exactly the visible extent of values, which begins at first; -1 is an empty histogram.
  predicate ShowsExtentFrom(h: Histogram, values: seq<nat>, first: int, div: nat, k: nat)
    requires div >= 1
  {
    && Extent(values, first, if first == -1 then -1 else first + |h.counts| - 1)
    && if first == -1 then h == Histogram(None, [], []) else ShowsLog(h, values, first, div, k)
  }

  ghost predicate ShowsExtent(h: Histogram, values: seq<nat>, div: nat, k: nat)
    requires div >= 1
  {
    exists first :: ShowsExtentFrom(h, values, first, div, k)
  }

  method BuildHistogram(values: seq<nat>, div: nat, k: nat) returns (h: Histogram)
    requires div >= 1 && k <= 5 && |values| == BUCKETS && Reachable(values, LastBucket(k))
    ensures ShowsExtent(h, values, div, k)
  {
    hide Shl, LabelValue, HistIndexLabel, LogEdge, LastBucket;
    h := Histogram(None, [], []);
    var min, max := Indices(values);
    if min == -1 {
      assert ShowsExtentFrom(h, values, -1, div, k);
      return;
    }
    assert max <= LastBucket(k);
    var lower := None;
    if min != 0 {
      EdgePrimitiveDenotes(min - 1, k);
      lower := Some(EdgePrimitive(min - 1, k));
    }
    var labels, counts := [], [];
    for i := min to max + 1
      invariant |labels| == |counts| == i - min
      invariant forall j :: 0 <= j < |counts| ==>
                  counts[j] == values[min + j] / div && LabelNumber(labels[j]) == UpperEdge(min + j, k)
    {
      EdgePrimitiveDenotes(i, k);
      labels := labels + [EdgePrimitive(i, k)];
      counts := counts + [values[i] / div];
    }
    h := Histogram(lower, labels, counts);
    assert ShowsExtentFrom(h, values, min, div, k);
  }

  // Conservation.

  function Sum(s: seq<nat>): nat {
    if s == [] then 0 else s[0] + Sum(s[1..])
  }

  lemma {:induction false} SumConcat(s: seq<nat>, t: seq<nat>)
    ensures Sum(s + t) == Sum(s) + Sum(t)
  {
    if s == [] {
      assert s + t == t;
    } else {
      assert (s + t)[1..] == s[1..] + t;
      SumConcat(s[1..], t);
    }
  }

  predicate AllZero(s: seq<nat>) {
    forall i :: 0 <= i < |s| ==> s[i] == 0
  }

  lemma {:induction false} SumZeroIff(s: seq<nat>)
    ensures Sum(s) == 0 <==> AllZero(s)
  {
    if s != [] {
      SumZeroIff(s[1..]);
      if Sum(s) == 0 {
        forall i | 0 <= i < |s| ensures s[i] == 0 {
          if i > 0 {
            assert s[i] == s[1..][i - 1];
          }
        }
      } else if s[0] == 0 {
        var i :| 0 <= i < |s[1..]| && s[1..][i] != 0;
        assert s[i + 1] != 0;
      }
    }
  }

  // Every non-zero count has a visible count at or before it and one at or after it.
  predicate Bracketed(values: seq<nat>) {
    forall i :: 0 <= i < |values| && values[i] > 0 ==>
      (exists a :: 0 <= a <= i && Visible(values[a])) && (exists b :: i <= b < |values| && Visible(values[b]))
  }

  // The trimmed counts keep the total exactly when the counts are bracketed.
  lemma ConservationExact(values: seq<nat>, first: int, last: int)
    requires Extent(values, first, last)
    ensures Sum(if first == -1 then [] else values[first..last + 1]) == Sum(values) <==> Bracketed(values)
  {
    hide Visible;
    if first == -1 {
      SumZeroIff(values);
    } else {
      var before, kept, after := values[..first], values[first..last + 1], values[last + 1..];
      assert values == before + (kept + after);
      SumConcat(before, kept + after);
      SumConcat(kept, after);
      SumZeroIff(before);
      SumZeroIff(after);
      BracketedIffZeroOutside(values, first, last);
    }
  }

  lemma BracketedIffZeroOutside(values: seq<nat>, first: nat, last: nat)
    requires Extent(values, first, last)
    ensures Bracketed(values) <==>
            AllZero(values[..first]) && AllZero(values[last + 1..])
  {
    hide Visible;
    if !Bracketed(values) {
      var i :| 0 <= i < |values| && values[i] > 0 &&
               !((exists a :: 0 <= a <= i && Visible(values[a])) && (exists b :: i <= b < |values| && Visible(values[b])));
      if i < first {
        assert values[..first][i] > 0;
      } else if i > last {
        assert values[last + 1..][i - last - 1] > 0;
      }
    }
  }

  // Counts below 2^31 are visible as soon as they are not zero, so nothing is lost.
  lemma SmallCountsBracketed(values: seq<nat>)
    requires forall i :: 0 <= i < |values| ==> values[i] < INT_RANGE / 2
    ensures Bracketed(values)
  {
    forall i | 0 <= i < |values| && values[i] > 0
      ensures (exists a :: 0 <= a <= i && Visible(values[a])) && (exists b :: i <= b < |values| && Visible(values[b]))
    {
      assert Visible(values[i]);
    }
  }

  // A histogram whose only samples are 2^31 of one bucket prints as empty.
  lemma LargeCountLost()
    ensures !Visible(INT_RANGE / 2)
    ensures Extent([INT_RANGE / 2], -1, -1) && Sum([INT_RANGE / 2]) > 0
    ensures !Bracketed([INT_RANGE / 2])
  {
    var values := [INT_RANGE / 2];
    assert values[0] > 0;
  }

  // With small counts, what is shown of a vector has its total.
  lemma ShownTotal(counts: seq<nat>, values: seq<nat>, first: int)
    requires forall i :: 0 <= i < |values| ==> values[i] < INT_RANGE / 2
    requires Extent(values, first, if first == -1 then -1 else first + |counts| - 1)
    requires first == -1 ==> counts == []
    requires first != -1 ==> forall j :: 0 <= j < |counts| ==> counts[j] == values[first + j]
    ensures Sum(counts) == Sum(values)
  {
    hide Visible, NothingVisible, Bracketed, Sum;
    SmallCountsBracketed(values);
    if first == -1 {
      ConservationExact(values, -1, -1);
    } else {
      ConservationExact(values, first, first + |counts| - 1);
      assert counts == values[first..first + |counts|];
    }
  }

  // From samples to the printed histogram.

  // How many samples land in bucket i.
  function CountIn(samples: seq<int>, i: nat, k: nat): nat {
    if samples == [] then 0
    else (if InBucket(samples[0], i, k) then 1 else 0) + CountIn(samples[1..], i, k)
  }

  function Tally(samples: seq<int>, k: nat): (values: seq<nat>)
    ensures |values| == BUCKETS == 2080
  {
    seq(BUCKETS, i requires 0 <= i < BUCKETS => CountIn(samples, i, k))
  }

  predicate AllInt64(samples: seq<int>) {
    forall i :: 0 <= i < |samples| ==> INT64_MIN <= samples[i] <= INT64_MAX
  }

  // Every 64-bit sample has a bucket.
  lemma BucketExists(v: int, k: nat) returns (b: nat)
    requires INT64_MIN <= v <= INT64_MAX && k <= 5
    ensures InBucket(v, b, k) && b <= LastBucket(k)
  {
    hide Shl, LogEdge;
    if v < 0 {
      b := 0;
    } else {
      LastEdge(k);
      FirstEdge(k);
      b := SearchBucket(v, LastBucket(k), k);
    }
  }

  lemma FirstEdge(k: nat)
    ensures UpperEdge(0, k) == 0
  {
  }

  lemma {:induction false} SearchBucket(v: int, i: nat, k: nat) returns (b: nat)
    requires UpperEdge(0, k) <= v < UpperEdge(i, k)
    ensures InBucket(v, b, k) && b <= i
    decreases i
  {
    hide UpperEdge;
    if UpperEdge(i - 1, k) <= v {
      b := i;
    } else {
      b := SearchBucket(v, i - 1, k);
    }
  }

  function UnitAt(n: nat, b: nat): seq<nat> {
    seq(n, i => if i == b then 1 else 0)
  }

  lemma {:induction false} SumUnit(n: nat, b: nat)
    requires b < n
    ensures Sum(UnitAt(n, b)) == 1
  {
    var u := UnitAt(n, b);
    assert u == u[..b] + ([1] + u[b + 1..]);
    SumConcat(u[..b], [1] + u[b + 1..]);
    SumZeroIff(u[..b]);
    assert ([1] + u[b + 1..])[1..] == u[b + 1..];
    SumZeroIff(u[b + 1..]);
  }

  lemma {:induction false} SumPointwise(s: seq<nat>, t: seq<nat>, u: seq<nat>)
    requires |s| == |t| == |u| && forall i :: 0 <= i < |s| ==> s[i] == t[i] + u[i]
    ensures Sum(s) == Sum(t) + Sum(u)
  {
    if s != [] {
      SumPointwise(s[1..], t[1..], u[1..]);
    }
  }

  // The buckets together count every sample once.
  lemma {:induction false} TallyTotal(samples: seq<int>, k: nat)
    requires AllInt64(samples) && k <= 5
    ensures Sum(Tally(samples, k)) == |samples|
    ensures Reachable(Tally(samples, k), LastBucket(k))
  {
    hide InBucket, LastBucket;
    var values := Tally(samples, k);
    if samples == [] {
      SumZeroIff(values);
    } else {
      var rest := Tally(samples[1..], k);
      TallyTotal(samples[1..], k);
      var b := BucketExists(samples[0], k);
      BucketRange(k);
      forall i | 0 <= i < BUCKETS ensures values[i] == rest[i] + UnitAt(BUCKETS, b)[i] {
        if InBucket(samples[0], i, k) {
          BucketUnique(samples[0], i, b, k);
        }
      }
      SumPointwise(values, rest, UnitAt(BUCKETS, b));
      SumUnit(BUCKETS, b);
    }
  }

  lemma {:induction false} CountAtMost(samples: seq<int>, i: nat, k: nat)
    ensures CountIn(samples, i, k) <= |samples|
  {
    hide InBucket;
    if samples != [] {
      CountAtMost(samples[1..], i, k);
    }
  }

  // Main result: with fewer than 2^31 samples of a key, the printed histogram counts each sample
  // exactly once, in the interval between the printed edges that contains it.
  lemma PrintedHistogram(samples: seq<int>, k: nat, h: Histogram, first: int)
    requires AllInt64(samples) && |samples| < INT_RANGE / 2 && k <= 5
    requires ShowsExtentFrom(h, Tally(samples, k), first, 1, k)
    ensures Sum(h.counts) == |samples|
    ensures forall j :: 0 <= j < |h.counts| ==> h.counts[j] == CountIn(samples, first + j, k)
  {
    hide InBucket, UpperEdge, LastBucket, LabelNumber, Visible;
    var values := Tally(samples, k);
    TallyTotal(samples, k);
    forall i | 0 <= i < |values| ensures values[i] < INT_RANGE / 2 {
      CountAtMost(samples, i, k);
    }
    ShownTotal(h.counts, values, first);
  }
}
