/**
 Linear buckets: the bucket number that the generated program computes, and the labels that the
 printer derives from bucket numbers.
 */
module LinearBuckets {
  import opened Arithmetic
  import opened Numerals
  import opened Codec
  import opened LogBuckets

  // Bounds as the semantic analyser accepts them.
  predicate ValidBounds(min: int, max: int, step: int) {
    0 <= min <= max && step >= 1
  }

  function LinearBucket(v: int, min: int, max: int, step: int): int
    requires ValidBounds(min, max, step)
  {
    if v < min then 0
    else if v > max then 1 + (max - min) / step
    else 1 + (v - min) / step
  }

  function LastLinearBucket(min: int, max: int, step: int): int
    requires ValidBounds(min, max, step)
  {
    1 + (max - min) / step
  }

  // The number that labels bucket i; the printer omits it beyond max.
  function LinearEdge(i: int, min: int, step: int): int {
    min + i * step
  }

  // Samples that bucket i shows: below min for bucket 0, then half-open intervals, and no upper
  // bound for a bucket without label.
  predicate InLinearBucket(v: int, i: int, min: int, max: int, step: int) {
    (i > 0 ==> LinearEdge(i - 1, min, step) <= v) &&
    (LinearEdge(i, min, step) <= max ==> v < LinearEdge(i, min, step))
  }

  lemma EdgeOfQuotient(v: int, min: int, step: int)
    requires step >= 1 && v >= min
    ensures (v - min) / step >= 0
    ensures LinearEdge((v - min) / step, min, step) <= v < LinearEdge(1 + (v - min) / step, min, step)
  {
    var q := (v - min) / step;
    assert v - min == q * step + (v - min) % step;
    assert (1 + q) * step == q * step + step;
    if q < 0 {
      MulLeq(step, q, -1);
    }
  }

  lemma EdgesOrdered(i: int, j: int, min: int, step: int)
    requires i <= j && step >= 1
    ensures LinearEdge(i, min, step) <= LinearEdge(j, min, step)
  {
    MulLeq(step, i, j);
  }

  // Every sample belongs to the bucket computed for it, and to no other.
  lemma LinearBucketExact(v: int, i: int, min: int, max: int, step: int)
    requires INT64_MIN <= v <= INT64_MAX
    requires ValidBounds(min, max, step) && 0 <= i <= LastLinearBucket(min, max, step)
    ensures 0 <= LinearBucket(v, min, max, step) <= LastLinearBucket(min, max, step)
    ensures InLinearBucket(v, i, min, max, step) <==> i == LinearBucket(v, min, max, step)
  {
    hide LinearEdge;
    EdgeOfQuotient(max, min, step);
    var last := LastLinearBucket(min, max, step);
    var b := LinearBucket(v, min, max, step);
    if i < last {
      EdgesOrdered(i, last - 1, min, step);
    }
    EdgesOrdered(0, i, min, step);
    ZeroEdge(min, step);
    if v < min {
      if i > 0 {
        EdgesOrdered(0, i - 1, min, step);
      }
    } else if v <= max {
      EdgeOfQuotient(v, min, step);
      QuotientOrdered(v, max, min, step);
      if i < b {
        EdgesOrdered(i, b - 1, min, step);
      } else if i > b {
        EdgesOrdered(b, i - 1, min, step);
      }
    }
  }

  // An unsigned sample is counted in its interval exactly when it is below 2^63; otherwise it is
  // counted as negative, below all bounds.
  lemma UnsignedLinearIff(u: nat, min: int, max: int, step: int)
    requires u <= 2 * INT64_MAX + 1 && ValidBounds(min, max, step) && max <= INT64_MAX
    ensures var b := LinearBucket(AsInt64(u), min, max, step);
      && (InLinearBucket(u, b, min, max, step) <==> u <= INT64_MAX)
      && (u > INT64_MAX ==> b == 0)
  {
    ZeroEdge(min, step);
    if u <= INT64_MAX {
      QuotientOrdered(max, max, min, step);
      LinearBucketExact(u, 0, min, max, step);
      LinearBucketExact(u, LinearBucket(u, min, max, step), min, max, step);
    }
    hide LinearEdge;
  }

  lemma ZeroEdge(min: int, step: int)
    ensures LinearEdge(0, min, step) == min
  {
  }

  lemma QuotientOrdered(v: int, max: int, min: int, step: int)
    requires step >= 1 && min <= v <= max
    ensures 0 <= (v - min) / step <= (max - min) / step
  {
    hide LinearEdge;
    EdgeOfQuotient(v, min, step);
    EdgeOfQuotient(max, min, step);
    if (v - min) / step > (max - min) / step {
      EdgesOrdered(1 + (max - min) / step, (v - min) / step, min, step);
    }
  }

  const KILO: int := 1024
  const MEGA: int := 1024 * 1024

  const UINT64_RANGE: nat := 0x1_0000_0000_0000_0000

  function Decimal(n: int): string {
    if n < 0 then "-" + Numeral(-n, 10) else Numeral(n, 10)
  }

  // `lhist_index_label`: binary units when the step is a multiple of 1024.
  function LinearLabel(number: int, step: int): Primitive {
    if step % KILO != 0 then Int(number)
    else Symbolic(
           if number == 0 then Decimal(number)
           else if number % MEGA == 0 then Decimal(number / MEGA) + "M"
           else if number % KILO == 0 then Decimal(number / KILO) + "K"
           else Decimal(number),
           number % UINT64_RANGE)
  }

  // The number a reader sees in a label of either kind of histogram.
  function LabelNumber(p: Primitive): int {
    match p
    case Int(i) => i
    case Symbolic(symbol, _) => SignedValue(symbol)
    case _ => -1
  }

  function SignedValue(symbol: string): int {
    if "-" <= symbol then -LabelValue(symbol[1..]) else LabelValue(symbol)
  }

  // A label that begins with a digit has no sign.
  lemma NoSign(text: string, suffix: string)
    requires text != [] && AllDecimal(text)
    ensures SignedValue(text + suffix) == LabelValue(text + suffix)
  {
    assert IsDecimalDigit(text[0]);
    assert (text + suffix)[0] == text[0];
  }

  // A scaled number with its suffix.
  lemma DecimalWithSuffix(n: int, suffix: string)
    requires suffix == "" || suffix == "K" || suffix == "M"
    ensures var scale := if suffix == "" then 1 else if suffix == "K" then KILO else MEGA;
      SignedValue(Decimal(n) + suffix) == n * scale
  {
    hide Numeral, NumeralValue, LabelValue, Shl, SignedValue;
    var m: nat := if n < 0 then -n else n;
    var text := Numeral(m, 10);
    NumeralDenotes(m, 10);
    Shl10(m);
    NoSign(text, suffix);
    if suffix == "" {
      PlainLabel(text);
    } else {
      SuffixedLabel(text, if suffix == "K" then 1 else 2);
    }
    if n < 0 {
      Negated(text + suffix);
      assert Decimal(n) + suffix == "-" + (text + suffix);
    }
  }

  lemma Negated(text: string)
    ensures SignedValue("-" + text) == -LabelValue(text)
  {
    assert ("-" + text)[1..] == text;
  }

  lemma Shl2(n: nat)
    ensures Shl(n, 2) == 4 * n
  {
    assert Shl(n, 1) == 2 * n;
  }

  lemma Shl10(n: nat)
    ensures Shl(n, 10) == KILO * n && Shl(n, 20) == MEGA * n
  {
    hide Shl;
    Shl8(n);
    ShlTwice(n, 8, 2);
    Shl2(Shl(n, 8));
    ShlTwice(n, 10, 8);
    Shl8(KILO * n);
    ShlTwice(n, 18, 2);
    Shl2(Shl(n, 18));
  }

  lemma LinearLabelDenotes(number: int, step: int)
    ensures LabelNumber(LinearLabel(number, step)) == number
    ensures match LinearLabel(number, step)
            case Int(i) => i == number && step % 1024 != 0
            case Symbolic(_, numeric) => step % 1024 == 0 && numeric == number % 0x1_0000_0000_0000_0000
            case _ => false
  {
    hide Decimal, SignedValue;
    if step % KILO == 0 {
      if number != 0 && number % MEGA == 0 {
        DecimalWithSuffix(number / MEGA, "M");
      } else if number != 0 && number % KILO == 0 {
        DecimalWithSuffix(number / KILO, "K");
      } else {
        DecimalWithSuffix(number, "");
        assert Decimal(number) + "" == Decimal(number);
      }
    }
  }
}
