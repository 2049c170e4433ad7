/**
 Combining the processors' cells of a minimum, maximum, average or statistics entry
 (src/util/stats.h:21-71).  A cell is a 64-bit value followed by a flag or a number of samples.
 */
module Aggregates {
  import opened Arithmetic
  import opened Bytes

  type Word = w: nat | w < Range(8) witness 0

  datatype Cell = Cell(val: Word, count: Word)

  function Cells(buf: seq<byte>): (cells: seq<Cell>)
    ensures |cells| == |buf| / 16
  {
    if |buf| < 16 then [] else [Cell(FromLE(buf[..8]), FromLE(buf[8..16]))] + Cells(buf[16..])
  }

  // A word as a signed or an unsigned number.
  function Read(w: Word, signed: bool): int {
    if signed then ToSigned(8, w) else w
  }

  predicate IsSet(c: Cell) {
    c.count != 0
  }

  predicate AnySet(cells: seq<Cell>) {
    exists i :: 0 <= i < |cells| && IsSet(cells[i])
  }

  predicate AtLeast(isMax: bool, a: int, b: int) {
    if isMax then b <= a else a <= b
  }

  // The greatest or least value that has been set, or 0 if none has.
  function Extreme(cells: seq<Cell>, isMax: bool, signed: bool): int {
    if cells == [] then 0
    else
      var n := |cells| - 1;
      var before, val := Extreme(cells[..n], isMax, signed), Read(cells[n].val, signed);
      if !IsSet(cells[n]) || (AnySet(cells[..n]) && AtLeast(isMax, before, val)) then before else val
  }

  lemma {:induction false} CellAt(buf: seq<byte>, i: nat)
    requires i < |Cells(buf)|
    ensures 0 <= 16 * i <= 16 * i + 16 <= |buf|
    ensures Cells(buf)[i] == Cell(FromLE(buf[16 * i..16 * i + 8]), FromLE(buf[16 * i + 8..16 * i + 16]))
  {
    hide FromLE, Range;
    if i > 0 {
      CellAt(buf[16..], i - 1);
      var j := 16 * (i - 1);
      SliceAfter(buf, j, j + 8);
      SliceAfter(buf, j + 8, j + 16);
    }
  }

  lemma SliceAfter(buf: seq<byte>, lo: nat, hi: nat)
    requires lo <= hi && hi + 16 <= |buf|
    ensures buf[16..][lo..hi] == buf[16 + lo..16 + hi]
  {
  }

  // The bytes of the cells, one after the other.
  function CellBytes(cells: seq<Cell>): (buf: seq<byte>)
    ensures |buf| == 16 * |cells|
  {
    if cells == [] then [] else ToLE(8, cells[0].val) + ToLE(8, cells[0].count) + CellBytes(cells[1..])
  }

  lemma {:induction false} CellsRoundTrip(cells: seq<Cell>)
    ensures Cells(CellBytes(cells)) == cells
  {
    if cells != [] {
      hide ToLE, FromLE, Range;
      var c, buf := cells[0], CellBytes(cells);
      ReadBack(8, c.val);
      ReadBack(8, c.count);
      assert buf[..8] == ToLE(8, c.val) && buf[8..16] == ToLE(8, c.count) && buf[16..] == CellBytes(cells[1..]);
      CellsRoundTrip(cells[1..]);
    }
  }

  // min_max_value
  method MinMaxValue(buf: seq<byte>, isMax: bool, signed: bool) returns (v: int)
    ensures v == Extreme(Cells(buf), isMax, signed)
  {
    hide Cells, FromLE;
    v := 0;
    var isSet := false;
    ghost var cells := Cells(buf);
    for i := 0 to |buf| / 8 / 2
      invariant |buf| / 8 / 2 == |cells|
      invariant isSet <==> AnySet(cells[..i])
      invariant v == Extreme(cells[..i], isMax, signed)
    {
      CellAt(buf, i);
      AnySetNext(cells, i);
      assert cells[..i + 1][..i] == cells[..i];
      var val, flag := Read(FromLE(buf[16 * i..16 * i + 8]), signed), FromLE(buf[16 * i + 8..16 * i + 16]);
      if flag != 0 {
        if !isSet {
          v, isSet := val, true;
        } else if isMax && val > v {
          v := val;
        } else if !isMax && val < v {
          v := val;
        }
      }
    }
    assert cells[..|cells|] == cells;
  }

  lemma AnySetNext(cells: seq<Cell>, i: nat)
    requires i < |cells|
    ensures AnySet(cells[..i + 1]) <==> AnySet(cells[..i]) || IsSet(cells[i])
  {
    var now := cells[..i + 1];
    assert now[i] == cells[i] && forall j :: 0 <= j < i ==> now[j] == cells[..i][j];
    if j :| 0 <= j < i && IsSet(cells[..i][j]) {
      assert IsSet(now[j]);
    }
  }

  // A value that is set, and none that is set is better.
  ghost predicate IsExtreme(cells: seq<Cell>, isMax: bool, signed: bool, v: int) {
    && (exists i :: 0 <= i < |cells| && IsSet(cells[i]) && Read(cells[i].val, signed) == v)
    && (forall i :: 0 <= i < |cells| && IsSet(cells[i]) ==> AtLeast(isMax, v, Read(cells[i].val, signed)))
  }

  lemma {:induction false} ExtremeIsBest(cells: seq<Cell>, isMax: bool, signed: bool)
    ensures if AnySet(cells) then IsExtreme(cells, isMax, signed, Extreme(cells, isMax, signed))
            else Extreme(cells, isMax, signed) == 0
  {
    if cells != [] {
      hide Read;
      var n := |cells| - 1;
      var was, c, v := cells[..n], cells[n], Extreme(cells, isMax, signed);
      ExtremeIsBest(was, isMax, signed);
      assert cells[..n + 1] == cells;
      AnySetNext(cells, n);
      if AnySet(was) {
        var i :| 0 <= i < n && IsSet(was[i]) && Read(was[i].val, signed) == Extreme(was, isMax, signed);
        assert cells[i] == was[i];
      }
      forall i | 0 <= i < |cells| && IsSet(cells[i]) ensures AtLeast(isMax, v, Read(cells[i].val, signed)) {
        if i < n {
          assert cells[i] == was[i] && AnySet(was);
        }
      }
    }
  }

  // Totals and averages.

  function Total(cells: seq<Cell>): Word {
    if cells == [] then 0 else (Total(cells[..|cells| - 1]) + cells[|cells| - 1].val) % Range(8)
  }

  function Count(cells: seq<Cell>): Word {
    if cells == [] then 0 else (Count(cells[..|cells| - 1]) + cells[|cells| - 1].count) % Range(8)
  }

  datatype Stats = Stats(total: int, count: int, avg: int)

  function StatsOf(cells: seq<Cell>, signed: bool): Stats {
    var total, count := Read(Total(cells), signed), Read(Count(cells), signed);
    Stats(total, count, if count > 0 then Truncate(total, count) else 0)
  }

  // stats_value; sums are taken to wrap.
  method StatsValue(buf: seq<byte>, signed: bool) returns (r: Stats)
    ensures r == StatsOf(Cells(buf), signed)
  {
    hide Cells, FromLE;
    var total: Word, count: Word := 0, 0;
    ghost var cells := Cells(buf);
    for i := 0 to |buf| / 8 / 2
      invariant |buf| / 8 / 2 == |cells|
      invariant total == Total(cells[..i]) && count == Count(cells[..i])
    {
      CellAt(buf, i);
      assert cells[..i + 1][..i] == cells[..i];
      var val, cpuCount := FromLE(buf[16 * i..16 * i + 8]), FromLE(buf[16 * i + 8..16 * i + 16]);
      count := (count + cpuCount) % Range(8);
      total := (total + val) % Range(8);
    }
    assert cells[..|cells|] == cells;
    var avg := 0;
    if Read(count, signed) > 0 {
      avg := Truncate(Read(total, signed), Read(count, signed));
    }
    r := Stats(Read(total, signed), Read(count, signed), avg);
  }

  // What the cells stand for: the samples of each processor.

  function All(samples: seq<seq<int>>): seq<int> {
    if samples == [] then [] else All(samples[..|samples| - 1]) + samples[|samples| - 1]
  }

  function Sum(s: seq<int>): int {
    if s == [] then 0 else Sum(s[..|s| - 1]) + s[|s| - 1]
  }

  lemma {:induction false} SumAppends(s: seq<int>, t: seq<int>)
    ensures Sum(s + t) == Sum(s) + Sum(t)
  {
    if t == [] {
      assert s + t == s;
    } else {
      var n := |t| - 1;
      assert (s + t)[..|s + t| - 1] == s + t[..n];
      SumAppends(s, t[..n]);
    }
  }

  ghost predicate Best(samples: seq<int>, isMax: bool, v: int) {
    v in samples && forall s :: s in samples ==> AtLeast(isMax, v, s)
  }

  // Each processor keeps the best of its samples, once it has one.
  ghost predicate HoldBest(cells: seq<Cell>, samples: seq<seq<int>>, isMax: bool, signed: bool) {
    && |cells| == |samples|
    && forall p :: 0 <= p < |cells| ==>
         if samples[p] == [] then !IsSet(cells[p])
         else IsSet(cells[p]) && Best(samples[p], isMax, Read(cells[p].val, signed))
  }

  lemma {:induction false} InAll(samples: seq<seq<int>>, s: int)
    ensures s in All(samples) <==> exists p :: 0 <= p < |samples| && s in samples[p]
  {
    if samples != [] {
      var n := |samples| - 1;
      InAll(samples[..n], s);
      if p :| 0 <= p < |samples| && s in samples[p] {
        if p < n {
          assert s in samples[..n][p];
        }
      }
      if p :| 0 <= p < n && s in samples[..n][p] {
        assert s in samples[p];
      }
    }
  }

  // The combined value is the best of all samples on all processors.
  lemma ExtremeOfAll(cells: seq<Cell>, samples: seq<seq<int>>, isMax: bool, signed: bool)
    requires HoldBest(cells, samples, isMax, signed)
    ensures if All(samples) == [] then Extreme(cells, isMax, signed) == 0
            else Best(All(samples), isMax, Extreme(cells, isMax, signed))
  {
    hide Read;
    ExtremeIsBest(cells, isMax, signed);
    var v, all := Extreme(cells, isMax, signed), All(samples);
    if all != [] {
      InAll(samples, all[0]);
      var q :| 0 <= q < |samples| && all[0] in samples[q];
      assert IsSet(cells[q]);
    }
    if AnySet(cells) {
      var p :| 0 <= p < |cells| && IsSet(cells[p]) && Read(cells[p].val, signed) == v;
      InAll(samples, v);
      forall s | s in all ensures AtLeast(isMax, v, s) {
        InAll(samples, s);
        var q :| 0 <= q < |samples| && s in samples[q];
        assert IsSet(cells[q]) && AtLeast(isMax, Read(cells[q].val, signed), s);
      }
    }
  }

  // Each processor keeps the sum and the number of its samples, in 64 bits.
  ghost predicate HoldSums(cells: seq<Cell>, samples: seq<seq<int>>) {
    && |cells| == |samples|
    && forall p :: 0 <= p < |cells| ==>
         cells[p].val == Sum(samples[p]) % Range(8) && cells[p].count == |samples[p]| % Range(8)
  }

  lemma ModSum(a: int, b: int)
    ensures (a % Range(8) + b % Range(8)) % Range(8) == (a + b) % Range(8)
  {
    hide Range;
    var m := Range(8);
    var x, y := a % m + b % m, a / m + b / m;
    assert a + b == x + y * m;
    ModShifted(x, y, m);
  }

  lemma ModShifted(x: int, q: int, m: int)
    requires m > 0
    ensures (x + q * m) % m == x % m
  {
    assert x + q * m == (x / m + q) * m + x % m;
    DivModOf(m, x / m + q, x % m);
  }

  lemma {:induction false} TotalOfAll(cells: seq<Cell>, samples: seq<seq<int>>)
    requires HoldSums(cells, samples)
    ensures Total(cells) == Sum(All(samples)) % Range(8) && Count(cells) == |All(samples)| % Range(8)
  {
    hide Range;
    if cells != [] {
      var n := |cells| - 1;
      TotalOfAll(cells[..n], samples[..n]);
      SumAppends(All(samples[..n]), samples[n]);
      ModSum(Sum(All(samples[..n])), Sum(samples[n]));
      ModSum(|All(samples[..n])|, |samples[n]|);
    }
  }

  // With numbers in range, the statistics are those of all samples on all processors.
  lemma StatsOfAll(cells: seq<Cell>, samples: seq<seq<int>>, signed: bool)
    requires HoldSums(cells, samples) && 2 * |All(samples)| < Range(8)
    requires if signed then SignedFits(8, Sum(All(samples))) else 0 <= Sum(All(samples)) < Range(8)
    ensures var all, r := All(samples), StatsOf(cells, signed);
      && r.total == Sum(all) && r.count == |all|
      && r.avg == if all == [] then 0 else Truncate(Sum(all), |all|)
  {
    hide Range, Truncate;
    TotalOfAll(cells, samples);
    var sum := Sum(All(samples));
    ReadBackMod(sum, signed);
    ReadBackMod(|All(samples)|, signed);
  }

  lemma ReadBackMod(i: int, signed: bool)
    requires if signed then SignedFits(8, i) else 0 <= i < Range(8)
    ensures Read(i % Range(8), signed) == i
  {
    hide Range;
    var m := Range(8);
    if i < 0 {
      DivModOf(m, -1, i + m);
    } else {
      DivModOf(m, 0, i);
    }
  }
}
