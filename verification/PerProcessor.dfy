/**
 What is printed for an aggregate of which every processor holds a part: the number of all samples,
 their sum, their least or greatest, their average (src/types_format.cpp:145-275 with
 src/util/stats.h:11-71).
 */
module PerProcessor {
  import opened Prelude
  import opened Arithmetic
  import opened Bytes
  import opened SizedTypes
  import opened Aggregates
  import opened Codec

  const TWO64: nat := 0x1_0000_0000_0000_0000

  // One n-byte word after the other.
  function WordBytes(n: nat, ws: seq<nat>): (buf: seq<byte>)
    ensures |buf| == |ws| * n
  {
    if ws == [] then []
    else
      assert |ws| * n == n + (|ws| - 1) * n;
      ToLE(n, ws[0]) + WordBytes(n, ws[1..])
  }

  predicate AllBelow(ws: seq<nat>, limit: nat) {
    forall i :: 0 <= i < |ws| ==> ws[i] < limit
  }

  // The words of a buffer are added up, in the width of a word.
  lemma {:induction false} ReduceIsSum(n: nat, ws: seq<nat>)
    requires n > 0 && AllBelow(ws, Range(n))
    ensures Reduce(WordBytes(n, ws), n) == Sum(ws) % Range(n)
  {
    hide Range, FromLE, ToLE;
    if ws != [] {
      var first, rest := ToLE(n, ws[0]), WordBytes(n, ws[1..]);
      ReduceIsSum(n, ws[1..]);
      assert (first + rest)[..n] == first && (first + rest)[n..] == rest;
      ReadBack(n, ws[0]);
      SumCons(ws);
      ModOnce(ws[0], Sum(ws[1..]), Range(n));
    } else {
      DivModOf(Range(n), 0, 0);
    }
  }

  lemma SumCons(ws: seq<int>)
    requires ws != []
    ensures Sum(ws) == ws[0] + Sum(ws[1..])
  {
    assert ws == [ws[0]] + ws[1..];
    SumAppends([ws[0]], ws[1..]);
    assert Sum([ws[0]]) == Sum([ws[0]][..0]) + ws[0];
  }

  lemma ModOnce(a: int, b: int, m: int)
    requires m > 0
    ensures (a + b % m) % m == (a + b) % m
  {
    assert a + b == (a + b % m) + (b / m) * m;
    ModShifted(a + b % m, b / m, m);
  }

  // The processors' words stand for numbers that add up to the given one.
  ghost predicate AddUp(ws: seq<nat>, parts: seq<int>, n: nat) {
    |ws| == |parts| && forall p :: 0 <= p < |ws| ==> ws[p] == parts[p] % Range(n)
  }

  lemma {:induction false} SumOfParts(ws: seq<nat>, parts: seq<int>, n: nat)
    requires AddUp(ws, parts, n)
    ensures Sum(ws) % Range(n) == Sum(parts) % Range(n) && AllBelow(ws, Range(n))
  {
    hide Range;
    if ws != [] {
      var k := |ws| - 1;
      SumOfParts(ws[..k], parts[..k], n);
      var a, b := Sum(ws[..k]), Sum(parts[..k]);
      ModOnce(ws[k], a, Range(n));
      ModOnce(ws[k], b, Range(n));
      ModOnce(b, parts[k], Range(n));
      assert ws[k] + a == Sum(ws) && b + ws[k] == ws[k] + b;
      forall i | 0 <= i < |ws| ensures ws[i] < Range(n) {
        ModBelow(parts[i], n);
      }
    }
  }

  lemma ModBelow(x: int, n: nat)
    ensures 0 <= x % Range(n) < Range(n)
  {
  }

  // What is printed is the number divided, without its fraction.
  predicate Shows(r: Result<Primitive, FormatError>, number: int, signed: bool, div: nat)
    requires div > 0
  {
    r.Ok? && if signed then r.value.Int? && IsTruncated(r.value.i, number, div)
             else r.value.UInt? && IsTruncated(r.value.n, number, div)
  }

  lemma DivideWideShows(i: int, signed: bool, div: nat)
    requires (signed || i >= 0) && div > 0
    ensures Shows(DivideWide(i, signed, div), i, signed, div)
  {
    TruncateIsTruncated(i, div);
    hide IsTruncated;
    assert i >= 0 ==> Truncate(i, div) == i / div;
  }

  // Numbers of samples.
  function Sizes(samples: seq<seq<int>>): (r: seq<int>)
    ensures |r| == |samples|
  {
    seq(|samples|, p requires 0 <= p < |samples| => |samples[p]|)
  }

  function Sums(samples: seq<seq<int>>): (r: seq<int>)
    ensures |r| == |samples|
  {
    seq(|samples|, p requires 0 <= p < |samples| => Sum(samples[p]))
  }

  lemma {:induction false} AllAddUp(samples: seq<seq<int>>)
    ensures Sum(Sizes(samples)) == |All(samples)| && Sum(Sums(samples)) == Sum(All(samples))
  {
    if samples != [] {
      var k := |samples| - 1;
      AllAddUp(samples[..k]);
      assert Sizes(samples)[..k] == Sizes(samples[..k]) && Sums(samples)[..k] == Sums(samples[..k]);
      SumAppends(All(samples[..k]), samples[k]);
    }
  }

  // A count shows the number of all samples on all processors, modulo 2^64.
  lemma CountOfAll(t: SizedType, ws: seq<nat>, samples: seq<seq<int>>, div: nat, env: Env)
    requires t.Scalar? && t.kind == CountTy && div > 0
    requires AddUp(ws, Sizes(samples), 8)
    ensures Shows(Format(t, WordBytes(8, ws), div, env), |All(samples)| % TWO64, false, div)
  {
    hide Range, Shows, AddUp;
    SumOfParts(ws, Sizes(samples), 8);
    ReduceIsSum(8, ws);
    AllAddUp(samples);
    EightBytes();
    DivideWideShows(|All(samples)| % TWO64, false, div);
  }

  // A sum shows the sum of all samples on all processors, if it fits into 64 bits of its sign.
  lemma SumOfAll(t: SizedType, ws: seq<nat>, samples: seq<seq<int>>, div: nat, env: Env)
    requires t.Scalar? && t.kind == SumTy && div > 0
    requires AddUp(ws, Sums(samples), 8)
    requires if t.signed then -(TWO64 / 2) <= Sum(All(samples)) < TWO64 / 2 else 0 <= Sum(All(samples)) < TWO64
    ensures Shows(Format(t, WordBytes(8, ws), div, env), Sum(All(samples)), t.signed, div)
  {
    hide Range, Shows, AddUp;
    SumOfParts(ws, Sums(samples), 8);
    ReduceIsSum(8, ws);
    AllAddUp(samples);
    EightBytes();
    var total := Sum(All(samples));
    ReadBackMod(total, t.signed);
    DivideWideShows(total, t.signed, div);
  }

  // Integers.

  predicate InWidth(i: int, n: nat, signed: bool)
    requires IsNumberSize(n)
  {
    if signed then -(CountOfValues(n) / 2) <= i < CountOfValues(n) / 2 else 0 <= i < CountOfValues(n)
  }

  predicate IsPlainInteger(t: SizedType) {
    IsInteger(t) && t.name == "" && t.bits in {8, 16, 32, 64}
  }

  // An integer shows the sum of its parts, if both the sum and the divisor fit into its width.
  lemma IntegerOfAll(t: SizedType, ws: seq<nat>, parts: seq<int>, div: nat, env: Env)
    requires IsPlainInteger(t) && AddUp(ws, parts, t.bits / 8) && InWidth(Sum(parts), t.bits / 8, t.signed)
    requires div > 0 && (t.signed ==> InWidth(div, t.bits / 8, true))
    ensures Shows(Format(t, WordBytes(t.bits / 8, ws), div, env), Sum(parts), t.signed, div)
  {
    hide Range, Shows, AddUp, Reduce, Format, WordBytes;
    var n := t.bits / 8;
    SumOfParts(ws, parts, n);
    ReduceIsSum(n, ws);
    IntegerFormatted(t, WordBytes(n, ws), div, env);
    CountIsRange(n);
    if t.signed {
      SignedBack(n, Sum(parts));
      SignedBack(n, div);
      QuotientShows(Sum(parts), div);
    } else {
      DivModOf(Range(n), 0, Sum(parts));
      DivideWideShows(Sum(parts), false, div);
    }
  }

  lemma IntegerFormatted(t: SizedType, buf: seq<byte>, div: nat, env: Env)
    requires IsPlainInteger(t)
    ensures var n, v := t.bits / 8, Reduce(buf, t.bits / 8);
      Format(t, buf, div, env) == if t.signed then DivideSigned(n, ToSigned(n, v), div) else DivideUnsigned(v, div)
  {
    hide Range, Reduce, DivideSigned, DivideUnsigned;
  }

  lemma QuotientShows(i: int, div: nat)
    requires div > 0
    ensures Shows(Ok(Int(Truncate(i, div))), i, true, div)
  {
    TruncateIsTruncated(i, div);
  }

  lemma SignedBack(n: nat, i: int)
    requires IsNumberSize(n) && InWidth(i, n, true)
    ensures ToSigned(n, i % Range(n)) == i
  {
    CountIsRange(n);
    hide Range;
    if i < 0 {
      DivModOf(Range(n), -1, i + Range(n));
    } else {
      DivModOf(Range(n), 0, i);
    }
  }

  // The divisor of a signed integer is cut to the integer's width, so every multiple of the number of
  // its values divides by zero.
  lemma ZeroDivisorIff(t: SizedType, buf: seq<byte>, div: nat, env: Env)
    requires IsPlainInteger(t)
    ensures Format(t, buf, div, env) == Err(DivideByZero)
            <==> if t.signed then div % CountOfValues(t.bits / 8) == 0 else div == 0
  {
    hide Range, Reduce;
    CountIsRange(t.bits / 8);
  }

  // Extremes and averages.

  // A minimum or maximum shows the least or greatest of all samples, and 0 if there are none.
  lemma ExtremeOfAllShown(t: SizedType, cells: seq<Cell>, samples: seq<seq<int>>, div: nat, env: Env) returns (v: int)
    requires t.Scalar? && t.kind in {MinTy, MaxTy} && div > 0
    requires HoldBest(cells, samples, t.kind == MaxTy, t.signed)
    ensures if All(samples) == [] then v == 0
            else v in All(samples) && forall s :: s in All(samples) ==> if t.kind == MaxTy then s <= v else v <= s
    ensures Shows(Format(t, CellBytes(cells), div, env), v, t.signed, div)
  {
    hide Shows, HoldBest, Format, CellBytes, Extreme;
    v := Extreme(cells, t.kind == MaxTy, t.signed);
    ExtremeOfAll(cells, samples, t.kind == MaxTy, t.signed);
    ExtremeFormatted(t, cells, div, env);
    DivideWideShows(v, t.signed, div);
  }

  lemma ExtremeFormatted(t: SizedType, cells: seq<Cell>, div: nat, env: Env)
    requires t.Scalar? && t.kind in {MinTy, MaxTy}
    ensures var v := Extreme(cells, t.kind == MaxTy, t.signed);
      (t.signed || v >= 0) && Format(t, CellBytes(cells), div, env) == DivideWide(v, t.signed, div)
  {
    hide Cells, Extreme, CellBytes, DivideWide;
    CellsRoundTrip(cells);
    ExtremeNotNegative(cells, t.kind == MaxTy);
  }

  // An average shows that of all samples, and statistics show their number, average and sum; only
  // the average is divided.
  lemma StatsOfAllShown(t: SizedType, cells: seq<Cell>, samples: seq<seq<int>>, div: nat, env: Env)
      returns (average: int, shown: Primitive)
    requires t.Scalar? && t.kind in {AvgTy, StatsTy} && div > 0
    requires HoldSums(cells, samples) && 2 * |All(samples)| < TWO64
    requires if t.signed then -(TWO64 / 2) <= Sum(All(samples)) < TWO64 / 2 else 0 <= Sum(All(samples)) < TWO64
    ensures if All(samples) == [] then average == 0 else IsTruncated(average, Sum(All(samples)), |All(samples)|)
    ensures Shows(Ok(shown), average, t.signed, div)
    ensures t.kind == AvgTy ==> Format(t, CellBytes(cells), div, env) == Ok(shown)
    ensures t.kind == StatsTy ==>
      var number, sum := |All(samples)|, Sum(All(samples));
      Format(t, CellBytes(cells), div, env)
      == Ok(RecordOf(["count", "average", "total"],
                     [if t.signed then Int(number) else UInt(number), shown,
                      if t.signed then Int(sum) else UInt(sum)]))
  {
    hide Shows, HoldSums, Cells, IsTruncated, Range, Truncate;
    var all := All(samples);
    EightBytes();
    StatsOfAll(cells, samples, t.signed);
    CellsRoundTrip(cells);
    average := StatsOf(cells, t.signed).avg;
    if all != [] {
      TruncateIsTruncated(Sum(all), |all|);
    }
    AverageSign(cells, t.signed);
    DivideWideShows(average, t.signed, div);
    shown := DivideWide(average, t.signed, div).value;
  }

  lemma AverageSign(cells: seq<Cell>, signed: bool)
    ensures signed || StatsOf(cells, signed).avg >= 0
  {
  }
}
