/**
 Log-linear buckets: the bucket number that the generated program computes for a sample, the
 bucket edges that the printer derives from bucket numbers, and the text of an edge.
 */
module LogBuckets {
  import opened Arithmetic
  import opened Numerals
  import opened Codec

  const INT64_MIN: int := -0x8000_0000_0000_0000
  const INT64_MAX: int := 0x7FFF_FFFF_FFFF_FFFF
  // Buckets allocated for every key.
  const BUCKETS: nat := 65 * 32

  // The value of `hist_index_label`: interval `index & (2^k - 1)` of the power of two `index >> k`.
  function LogEdge(index: nat, k: nat): nat
    requires index >= Pow2(k)
  {
    PowerPositive(index, k);
    Shl(Pow2(k) + LowBits(index, k), Shr(index, k) - 1)
  }

  lemma PowerPositive(index: nat, k: nat)
    requires index >= Pow2(k)
    ensures Shr(index, k) >= 1
  {
    ShrSplits(index, k);
    if Shr(index, k) == 0 {
      ShlZero(k);
    }
  }

  lemma {:induction false} ShlZero(k: nat)
    ensures Shl(0, k) == 0
  {
    if k > 0 {
      ShlZero(k - 1);
    }
  }

  // The upper edge of bucket i as the printer chooses it.
  function UpperEdge(i: nat, k: nat): nat {
    if i <= 2 * Pow2(k) then i
    else
      LogEdge(i, k)
  }

  // Samples that bucket i counts: below zero for bucket 0, then half-open intervals.
  predicate InBucket(v: int, i: nat, k: nat) {
    if i == 0 then v < 0 else UpperEdge(i - 1, k) <= v < UpperEdge(i, k)
  }

  // The largest bucket of a 64-bit sample.
  function LastBucket(k: nat): nat
    requires k <= 5
  {
    Shl(64 - k, k)
  }

  // Edges in terms of quotient and remainder.

  lemma LogEdgeAt(q: nat, r: nat, k: nat)
    requires q >= 1 && r < Pow2(k)
    ensures Shl(q, k) + r >= Pow2(k)
    ensures LogEdge(Shl(q, k) + r, k) == Shl(Pow2(k) + r, q - 1)
  {
    hide Shl, Shr, LowBits;
    ShlLeq(1, q, k);
    ShrOf(q, r, k);
  }

  // The next edge is one interval width further, also across a power of two.
  lemma LogEdgeStep(j: nat, k: nat)
    requires j >= Pow2(k)
    ensures Shr(j, k) >= 1
    ensures LogEdge(j + 1, k) == LogEdge(j, k) + Pow2(Shr(j, k) - 1)
  {
    hide Shl, Shr, LowBits;
    PowerPositive(j, k);
    ShrSplits(j, k);
    var q, r := Shr(j, k), LowBits(j, k);
    ShlAdd(Pow2(k) + r, 1, q - 1);
    if r + 1 < Pow2(k) {
      LogEdgeAt(q, r + 1, k);
    } else {
      ShlAdd(q, 1, k);
      assert j + 1 == Shl(q + 1, k) + 0;
      Pow2Positive(k);
      LogEdgeAt(q + 1, 0, k);
      ShlDouble(Pow2(k), q - 1);
    }
  }

  // The direct form and the computed form agree where both are defined.
  lemma EdgesAgree(j: nat, k: nat)
    requires Pow2(k) <= j <= 2 * Pow2(k)
    ensures LogEdge(j, k) == j
  {
    Pow2Positive(k);
    if j == 2 * Pow2(k) {
      ShlDouble(1, k);
      LogEdgeAt(2, 0, k);
    } else {
      LogEdgeAt(1, j - Pow2(k), k);
    }
  }

  lemma EdgesOf(j: nat, k: nat)
    requires j >= Pow2(k)
    ensures UpperEdge(j, k) == LogEdge(j, k) && UpperEdge(j + 1, k) == LogEdge(j + 1, k)
  {
    hide Shl, Shr, LowBits;
    if j <= 2 * Pow2(k) {
      EdgesAgree(j, k);
    }
    if j + 1 <= 2 * Pow2(k) {
      EdgesAgree(j + 1, k);
    }
  }

  // Every power of two from 2^k on is divided into 2^k intervals of the same width.
  lemma EdgeForm(q: nat, r: nat, k: nat)
    requires r <= Pow2(k)
    ensures UpperEdge(Shl(q + 1, k) + r, k) == Shl(Pow2(k) + r, q)
  {
    hide Shl, Shr, LowBits, UpperEdge, LogEdge;
    ShlLeq(1, q + 1, k);
    if r < Pow2(k) {
      LogEdgeAt(q + 1, r, k);
      EdgesOf(Shl(q + 1, k) + r, k);
    } else {
      Pow2Positive(k);
      LogEdgeAt(q + 2, 0, k);
      ShlAdd(q + 1, 1, k);
      EdgesOf(Shl(q + 2, k), k);
      ShlAdd(Pow2(k), Pow2(k), q);
      ShlDouble(Pow2(k), q);
    }
  }

  // Consecutive edges are strictly increasing, and from 2^k on a bucket is at most 2^-k as wide
  // as its lower edge is high.
  lemma EdgeStep(j: nat, k: nat)
    ensures UpperEdge(j, k) < UpperEdge(j + 1, k)
    ensures j >= Pow2(k) ==> Shl(UpperEdge(j + 1, k) - UpperEdge(j, k), k) <= UpperEdge(j, k)
  {
    hide Shl, Shr, LowBits;
    if j >= Pow2(k) {
      LogEdgeStep(j, k);
      EdgesOf(j, k);
      var p := Shr(j, k) - 1;
      Pow2Positive(p);
      ShlTwice(1, p, k);
      ShlTwice(1, k, p);
      ShlLeq(Pow2(k), Pow2(k) + LowBits(j, k), p);
    } else {
      assert j + 1 <= 2 * Pow2(k);
    }
  }

  lemma {:induction false} EdgesIncrease(i: nat, j: nat, k: nat)
    requires i < j
    ensures UpperEdge(i, k) < UpperEdge(j, k)
    decreases j
  {
    EdgeStep(j - 1, k);
    if i < j - 1 {
      EdgesIncrease(i, j - 1, k);
    }
  }

  // No sample is in two buckets.
  lemma BucketUnique(v: int, i: nat, j: nat, k: nat)
    requires InBucket(v, i, k) && InBucket(v, j, k)
    ensures i == j
  {
    if i < j {
      BucketsApart(v, i, j, k);
    } else if j < i {
      BucketsApart(v, j, i, k);
    }
  }

  // A 64-bit pattern as the generated code reads it.
  function AsInt64(u: nat): int
    requires u <= 2 * INT64_MAX + 1
  {
    if u <= INT64_MAX then u else u - 2 * INT64_MAX - 2
  }

  // An unsigned sample is counted in its interval exactly when it is below 2^63; otherwise it is
  // counted as negative.
  lemma UnsignedSampleIff(u: nat, b: nat, k: nat)
    requires u <= 2 * INT64_MAX + 1 && InBucket(AsInt64(u), b, k)
    ensures InBucket(u, b, k) <==> u <= INT64_MAX
    ensures u > INT64_MAX ==> b == 0
  {
    hide UpperEdge;
  }

  lemma BucketsApart(v: int, i: nat, j: nat, k: nat)
    requires i < j && InBucket(v, i, k)
    ensures !InBucket(v, j, k)
  {
    if 0 < i && i < j - 1 {
      EdgesIncrease(i, j - 1, k);
    }
  }

  // The number of the highest set bit by bisection, as the generated code finds it.

  predicate HighestBit(n: nat, p: nat) {
    Pow2(p) <= n < Pow2(p + 1)
  }

  method FindHighestBit(n: nat) returns (l: nat)
    requires 1 <= n <= INT64_MAX
    ensures HighestBit(n, l) && l <= 62
  {
    hide Shr, LowBits;
    Pow2Values();
    var m, i := n, 6;
    l := 0;
    assert Shl(m, 0) == m && Shl(m + 1, 0) == m + 1;
    while i > 0
      invariant 0 <= i <= 6
      invariant 1 <= m < Pow2(Pow2(i))
      invariant Shl(m, l) <= n < Shl(m + 1, l)
    {
      i := i - 1;
      var width := Pow2(i);
      Pow2Positive(i);
      if m >= Pow2(width) {
        ShiftStep(n, m, l, width);
        m := Shr(m, width);
        l := l + width;
      }
    }
    assert m == 1;
    HighestBitFound(n, l);
  }

  lemma HighestBitFound(n: nat, l: nat)
    requires n <= INT64_MAX && Shl(1, l) <= n < Shl(2, l)
    ensures HighestBit(n, l) && l <= 62
  {
    ShlDouble(1, l);
    if l > 62 {
      Pow2Leq(63, l);
      Pow2Values();
    }
  }

  // Shifting right by `width` keeps m the leading bits of n and halves the bits left to search.
  lemma ShiftStep(n: nat, m: nat, l: nat, width: nat)
    requires width >= 1 && Pow2(width) <= m < Pow2(2 * width)
    requires Shl(m, l) <= n < Shl(m + 1, l)
    ensures 1 <= Shr(m, width) < Pow2(width)
    ensures Shl(Shr(m, width), l + width) <= n < Shl(Shr(m, width) + 1, l + width)
  {
    hide Shl, Shr, LowBits;
    var q := Shr(m, width);
    PowerPositive(m, width);
    ShrSplits(m, width);
    ShlTwice(1, width, width);
    if q >= Pow2(width) {
      ShlLeq(Pow2(width), q, width);
    }
    ShlTwice(q, width, l);
    ShlLeq(Shl(q, width), m, l);
    ShlAdd(q, 1, width);
    ShlTwice(q + 1, width, l);
    ShlLeq(m + 1, Shl(q + 1, width), l);
  }

  // The bucket of a sample, as the generated code computes it.
  method Log2Bucket(n: int, k: nat) returns (b: nat)
    requires INT64_MIN <= n <= INT64_MAX && k <= 5
    ensures InBucket(n, b, k)
    ensures b <= LastBucket(k)
  {
    hide Shl, Shr, LowBits;
    BucketRange(k);
    if n < 0 {
      return 0;
    }
    Pow2Positive(k);
    var mask := Pow2(k) - 1;
    if n <= mask {
      return n + 1;
    }
    var l := FindHighestBit(n);
    HighestBitAtLeast(n, l, k);
    l := l - k;
    var d := Shr(n, l);
    SplitByShift(n, l);
    LargeSample(n, l, d, k);
    b := Shl(l + 1, k) + LowBits(d, k) + 1;
  }

  lemma BucketRange(k: nat)
    requires k <= 5
    ensures 2 * Pow2(k) <= LastBucket(k) < BUCKETS
  {
    if k == 0 {
    } else if k == 1 {
      assert Shl(63, 1) == 126;
    } else if k == 2 {
      assert Shl(62, 2) == 248 && Shl(1, 2) == 4;
    } else if k == 3 {
      assert Shl(61, 3) == 488 && Shl(1, 3) == 8;
    } else if k == 4 {
      assert Shl(60, 4) == 960 && Shl(1, 4) == 16;
    } else {
      assert Shl(59, 5) == 1888 && Shl(1, 5) == 32;
    }
  }

  lemma HighestBitAtLeast(n: nat, l: nat, k: nat)
    requires HighestBit(n, l) && n >= Pow2(k)
    ensures l >= k
  {
    hide Shl, Shr, LowBits;
    if l < k {
      Pow2Leq(l + 1, k);
    }
  }

  // The split of a sample at bit l.
  predicate SplitAt(n: nat, l: nat, d: nat) {
    Shl(d, l) <= n < Shl(d, l) + Pow2(l)
  }

  // A sample with highest bit l + k lies in the bucket named by l and the k bits that follow.
  lemma LargeSample(n: nat, l: nat, d: nat, k: nat)
    requires HighestBit(n, l + k) && l + k <= 62 && k <= 5 && SplitAt(n, l, d)
    ensures InBucket(n, Shl(l + 1, k) + LowBits(d, k) + 1, k)
    ensures Shl(l + 1, k) + LowBits(d, k) + 1 <= LastBucket(k)
  {
    hide Shl, Shr, LowBits;
    LeadingBits(n, d, l, k);
    BelowHighestBit(d, k);
    BucketOfParts(n, l, LowBits(d, k), k);
    ShlLess(l + 1, 64 - k, k);
  }

  lemma SplitByShift(n: nat, l: nat)
    ensures SplitAt(n, l, Shr(n, l))
  {
    hide Shl, Shr, LowBits;
    ShrSplits(n, l);
  }

  lemma BucketOfParts(n: nat, l: nat, x: nat, k: nat)
    requires x < Pow2(k) && SplitAt(n, l, Pow2(k) + x)
    ensures InBucket(n, Shl(l + 1, k) + x + 1, k)
  {
    hide Shl, Shr, LowBits;
    LogEdgeAt(l + 1, x, k);
    ShrOf(l + 1, x, k);
    LogEdgeStep(Shl(l + 1, k) + x, k);
    InBucketAbove(n, Shl(l + 1, k) + x, k);
  }

  lemma InBucketAbove(n: nat, j: nat, k: nat)
    requires j >= Pow2(k) && LogEdge(j, k) <= n < LogEdge(j + 1, k)
    ensures InBucket(n, j + 1, k)
  {
    hide Shl, Shr, LowBits;
    EdgesOf(j, k);
  }

  // The leading bits of n have their highest bit at k.
  lemma LeadingBits(n: nat, d: nat, l: nat, k: nat)
    requires HighestBit(n, l + k) && SplitAt(n, l, d)
    ensures HighestBit(d, k)
  {
    hide Shl, Shr, LowBits;
    if d < Pow2(k) {
      ShlTwice(1, k, l);
      ShlLess(d, Pow2(k), l);
    } else if d >= Pow2(k + 1) {
      ShlTwice(1, k + 1, l);
      ShlLeq(Pow2(k + 1), d, l);
    }
  }

  lemma BelowHighestBit(d: nat, k: nat)
    requires HighestBit(d, k)
    ensures LowBits(d, k) == d - Pow2(k) < Pow2(k)
  {
    hide Shr, LowBits;
    ShrOf(1, d - Pow2(k), k);
  }

  // Edges of the buckets that samples land in fit 64 bits.
  lemma EdgeFits(i: nat, k: nat)
    requires k <= 5 && i <= LastBucket(k)
    ensures UpperEdge(i, k) <= INT64_MAX + 1
  {
    hide Shl, Shr, LowBits;
    LastEdge(k);
    if i < LastBucket(k) {
      EdgesIncrease(i, LastBucket(k), k);
    }
  }

  lemma LastEdge(k: nat)
    requires k <= 5
    ensures UpperEdge(LastBucket(k), k) == INT64_MAX + 1
  {
    hide Shl, Shr, LowBits;
    Pow2Positive(k);
    LogEdgeAt(64 - k, 0, k);
    EdgesOf(LastBucket(k), k);
    ShlTwice(1, k, 63 - k);
    Pow2Values();
  }

  // The text of an edge.

  const SUFFIXES: string := "KMGTPE"

  // `hist_index_label`: the edge scaled down by the largest power of 2^10 in its interval width.
  function HistIndexLabel(index: nat, k: nat): Primitive
    requires k <= 5 && Pow2(k) <= index <= LastBucket(k)
  {
    PowerBounds(index, k);
    var power := Shr(index, k) - 1;
    var decade := power / 10;
    var mantissa := Shl(Pow2(k) + LowBits(index, k), power - 10 * decade);
    var suffix := if decade == 0 then "" else [SUFFIXES[decade - 1]];
    Symbolic(Numeral(mantissa, 10) + suffix, LogEdge(index, k))
  }

  lemma PowerBounds(index: nat, k: nat)
    requires k <= 5 && Pow2(k) <= index <= LastBucket(k)
    ensures 1 <= Shr(index, k) <= 64
  {
    hide Shl, Shr, LowBits;
    PowerPositive(index, k);
    ShrSplits(index, k);
    if Shr(index, k) >= 65 {
      ShlLess(64 - k, Shr(index, k), k);
      Pow2Positive(k);
    }
  }

  function SuffixPower(c: char): int {
    if c == 'K' then 10 else if c == 'M' then 20 else if c == 'G' then 30
    else if c == 'T' then 40 else if c == 'P' then 50 else if c == 'E' then 60 else -1
  }

  // The number a reader sees in a label: digits, then an optional binary unit.
  function LabelValue(s: string): int {
    if s == [] || SuffixPower(s[|s| - 1]) < 0 then NumeralValue(s, 10)
    else
      var m := NumeralValue(s[..|s| - 1], 10);
      if m < 0 then -1 else Shl(m, SuffixPower(s[|s| - 1]))
  }

  lemma LabelDenotesEdge(index: nat, k: nat)
    requires k <= 5 && Pow2(k) <= index <= LastBucket(k)
    ensures LabelValue(HistIndexLabel(index, k).symbol) == HistIndexLabel(index, k).numeric == LogEdge(index, k)
  {
    hide Shl, Shr, LowBits, Numeral, LabelValue;
    PowerBounds(index, k);
    var power := Shr(index, k) - 1;
    var m := Pow2(k) + LowBits(index, k);
    ScaledLabel(m, power - 10 * (power / 10), power / 10);
  }

  lemma ScaledLabel(m: nat, rest: nat, decade: nat)
    requires decade <= 6
    ensures LabelValue(Numeral(Shl(m, rest), 10) + if decade == 0 then "" else [SUFFIXES[decade - 1]])
            == Shl(m, rest + 10 * decade)
  {
    hide Shl, Numeral, NumeralValue, LabelValue;
    var text := Numeral(Shl(m, rest), 10);
    NumeralDenotes(Shl(m, rest), 10);
    if decade == 0 {
      PlainLabel(text);
    } else {
      SuffixedLabel(text, decade);
      ShlTwice(m, rest, 10 * decade);
    }
  }

  lemma PlainLabel(text: string)
    requires text != [] && AllDecimal(text)
    ensures LabelValue(text + "") == NumeralValue(text, 10)
  {
    assert text + "" == text;
    PlainDigits(text);
  }

  lemma SuffixedLabel(text: string, decade: nat)
    requires 1 <= decade <= 6 && NumeralValue(text, 10) >= 0
    ensures LabelValue(text + [SUFFIXES[decade - 1]]) == Shl(NumeralValue(text, 10), 10 * decade)
  {
    var s := text + [SUFFIXES[decade - 1]];
    assert s[..|s| - 1] == text;
    assert SuffixPower(SUFFIXES[decade - 1]) == 10 * decade;
  }

  lemma PlainDigits(s: string)
    requires s != [] && AllDecimal(s)
    ensures SuffixPower(s[|s| - 1]) == -1
  {
    assert IsDecimalDigit(s[|s| - 1]);
  }
}
