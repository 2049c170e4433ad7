/**
 From recorded values to a printed time series.  Each processor keeps one cell per bucket of a ring
 of n buckets (src/ast/passes/codegen_llvm.cpp:1077-1312); the cells of a bucket are reduced over
 the processors (src/util/tseries.cpp:15-77) before the series is laid out.
 */
module TimeSeriesRing {
  import opened Prelude
  import opened TimeSeries
  import B = Bytes

  datatype Agg = NoAgg | Avg | Max | Min | Sum

  // One processor's cell of a bucket; epoch 0 means never used.
  datatype Cell = Cell(val: int, meta: int, epoch: nat)

  // A call of tseries(): its time and its value.
  datatype Event = Event(now: nat, val: int)

  const UNUSED := Cell(0, 0, 0)

  // The 64-bit number congruent to x.
  function Norm(signed: bool, x: int): int {
    if signed then (x + TWO64 / 2) % TWO64 - TWO64 / 2 else x % TWO64
  }

  lemma ModShift(x: int, q: int, m: nat)
    requires m > 0
    ensures (x - q * m) % m == x % m
  {
    var y := x - q * m;
    assert x == m * (x / m) + x % m;
    assert y == m * (x / m - q) + x % m;
    assert y == m * (y / m) + y % m;
    QuotientUnique(m, x / m - q, x % m, y / m, y % m);
  }

  lemma QuotientUnique(m: nat, a: int, r: int, b: int, s: int)
    requires 0 <= r < m && 0 <= s < m && m * a + r == m * b + s
    ensures r == s
  {
    var d := a - b;
    assert m * d == m * a - m * b == s - r;
    assert m * -d == -(m * d);
    if d >= 1 {
      AtLeast(m, d);
    } else if d <= -1 {
      AtLeast(m, -d);
    }
  }

  lemma AtLeast(m: nat, d: nat)
    requires d >= 1
    ensures m * d >= m
  {
    assert m * d == m * (d - 1) + m;
  }

  lemma NormShift(signed: bool, x: int, q: int)
    ensures Norm(signed, x - q * TWO64) == Norm(signed, x)
  {
    if signed {
      ModShift(x + TWO64 / 2, q, TWO64);
    } else {
      ModShift(x, q, TWO64);
    }
  }

  // A number of 64 bits stays what it is, and the others are shifted into that range by a multiple of 2^64.
  lemma NormExact(signed: bool, x: int) returns (q: int)
    ensures Norm(signed, x) == x - q * TWO64
    ensures if signed then -0x8000_0000_0000_0000 <= Norm(signed, x) < 0x8000_0000_0000_0000
            else 0 <= Norm(signed, x) < 0x1_0000_0000_0000_0000
  {
    q := (if signed then x + TWO64 / 2 else x) / TWO64;
  }

  // Wrapping in between does not change a sum.
  lemma NormAdd(signed: bool, a: int, b: int)
    ensures Norm(signed, Norm(signed, a) + b) == Norm(signed, a + b)
  {
    var q := (if signed then a + TWO64 / 2 else a) / TWO64;
    assert Norm(signed, a) == a - q * TWO64;
    hide Norm;
    NormShift(signed, a + b, q);
  }

  // Division that truncates toward zero.
  function TruncDiv(a: int, b: int): int
    requires b > 0
  {
    if a >= 0 then a / b else -(-a / b)
  }

  lemma TruncDivIsTruncated(a: int, b: int)
    requires b > 0
    ensures B.IsTruncated(TruncDiv(a, b), a, b)
  {
    if a < 0 {
      assert -a == (-a / b) * b + (-a % b);
      assert TruncDiv(a, b) * b == -((-a / b) * b);
    } else {
      assert a == (a / b) * b + a % b;
    }
  }

  // What one call stores, given the cell of its bucket.  An aggregate starts anew in a new epoch.
  function Store(agg: Agg, signed: bool, cell: Cell, now: nat, val: int, epoch: nat): Cell {
    var c := if agg != NoAgg && cell.epoch != epoch then UNUSED else cell;
    match agg
    case Avg => Cell(Norm(signed, c.val + val), c.meta + 1, epoch)
    case Sum => Cell(Norm(signed, c.val + val), c.meta, epoch)
    case Max => Cell(if c.meta != 1 || val >= c.val then val else c.val, 1, epoch)
    case Min => Cell(if c.meta != 1 || c.val >= val then val else c.val, 1, epoch)
    case NoAgg => Cell(val, now, epoch)
  }

  // Two cells of the same epoch.
  function Combine(agg: Agg, signed: bool, a: Cell, b: Cell): Cell {
    match agg
    case NoAgg => if b.meta > a.meta then a.(val := b.val, meta := b.meta) else a
    case Avg => a.(val := Norm(signed, a.val + b.val), meta := a.meta + b.meta)
    case Max => a.(val := if a.val < b.val then b.val else a.val)
    case Min => a.(val := if b.val < a.val then b.val else a.val)
    case Sum => a.(val := Norm(signed, a.val + b.val))
  }

  // All cells of one epoch, combined from the first processor to the last.
  function FoldAt(agg: Agg, signed: bool, cells: seq<Cell>, e: nat): Option<Cell> {
    if cells == [] then None
    else
      var n := |cells| - 1;
      var before := FoldAt(agg, signed, cells[..n], e);
      if cells[n].epoch != e then before
      else if before == None then Some(cells[n])
      else Some(Combine(agg, signed, before.value, cells[n]))
  }

  lemma FoldAtNext(agg: Agg, signed: bool, cells: seq<Cell>, i: nat, e: nat)
    requires i < |cells|
    ensures var before := FoldAt(agg, signed, cells[..i], e);
      FoldAt(agg, signed, cells[..i + 1], e)
      == if cells[i].epoch != e then before
         else if before == None then Some(cells[i])
         else Some(Combine(agg, signed, before.value, cells[i]))
  {
    assert cells[..i + 1][..i] == cells[..i];
  }

  lemma {:induction false} FoldAtEpoch(agg: Agg, signed: bool, cells: seq<Cell>, e: nat)
    ensures var f := FoldAt(agg, signed, cells, e);
      (f.Some? <==> exists i :: 0 <= i < |cells| && cells[i].epoch == e) && (f.Some? ==> f.value.epoch == e)
  {
    if cells != [] {
      var n := |cells| - 1;
      FoldAtEpoch(agg, signed, cells[..n], e);
      if i :| 0 <= i < |cells| && cells[i].epoch == e {
        assert i < n ==> cells[..n][i].epoch == e;
      }
      if i :| 0 <= i < n && cells[..n][i].epoch == e {
        assert cells[i].epoch == e;
      }
    }
  }

  // The epoch of the bucket is the latest one of its cells.
  ghost predicate IsLatestCell(cells: seq<Cell>, latest: nat) {
    && (forall i :: 0 <= i < |cells| ==> cells[i].epoch <= latest)
    && (latest == 0 || exists i :: 0 <= i < |cells| && cells[i].epoch == latest)
  }

  // The reduced value: the combined cells of an epoch.
  function Finish(agg: Agg, c: Cell): int
    requires agg == Avg ==> c.meta > 0
  {
    if agg == Avg then TruncDiv(c.val, c.meta) else c.val
  }

  method Reduce(agg: Agg, signed: bool, cells: seq<Cell>) returns (latest: nat, val: int)
    requires agg == Avg ==> forall i :: 0 <= i < |cells| && cells[i].epoch != 0 ==> cells[i].meta > 0
    ensures IsLatestCell(cells, latest)
    ensures latest == 0 ==> val == 0
    ensures latest != 0 ==>
      var f := FoldAt(agg, signed, cells, latest);
      f.Some? && (agg == Avg ==> f.value.meta > 0) && val == Finish(agg, f.value)
  {
    var byEpoch: map<nat, Cell> := map[];
    latest := 0;
    for i := 0 to |cells|
      invariant IsLatestCell(cells[..i], latest)
      invariant forall e :: e != 0 ==>
        (e in byEpoch <==> FoldAt(agg, signed, cells[..i], e).Some?)
      invariant forall e :: e in byEpoch ==>
        && e != 0 && FoldAt(agg, signed, cells[..i], e) == Some(byEpoch[e])
        && (agg == Avg ==> byEpoch[e].meta > 0)
    {
      hide FoldAt, Combine;
      var v := cells[i];
      ghost var was, before := byEpoch, latest;
      if v.epoch != 0 {
        if latest < v.epoch {
          latest := v.epoch;
        }
        if v.epoch !in byEpoch {
          byEpoch := byEpoch[v.epoch := v];
        } else {
          CombineCounts(agg, signed, byEpoch[v.epoch], v);
          byEpoch := byEpoch[v.epoch := Combine(agg, signed, byEpoch[v.epoch], v)];
        }
      }
      LatestNext(cells, i, before);
      forall e ensures FoldAt(agg, signed, cells[..i + 1], e) ==
        if cells[i].epoch != e then FoldAt(agg, signed, cells[..i], e)
        else if FoldAt(agg, signed, cells[..i], e) == None then Some(cells[i])
        else Some(Combine(agg, signed, FoldAt(agg, signed, cells[..i], e).value, cells[i]))
      {
        FoldAtNext(agg, signed, cells, i, e);
      }
    }
    assert cells[..|cells|] == cells;
    if latest == 0 {
      return 0, 0;
    }
    FoldAtEpoch(agg, signed, cells, latest);
    var c := byEpoch[latest];
    if agg == Avg {
      c := c.(val := TruncDiv(c.val, c.meta));
    }
    val := c.val;
  }

  lemma CombineCounts(agg: Agg, signed: bool, a: Cell, b: Cell)
    requires agg == Avg ==> a.meta > 0 && b.meta > 0
    ensures agg == Avg ==> Combine(agg, signed, a, b).meta > 0
  {
  }

  lemma LatestNext(cells: seq<Cell>, i: nat, latest: nat)
    requires i < |cells| && IsLatestCell(cells[..i], latest)
    ensures IsLatestCell(cells[..i + 1], if latest < cells[i].epoch then cells[i].epoch else latest)
  {
    if latest != 0 && cells[i].epoch <= latest {
      var j :| 0 <= j < i && cells[..i][j].epoch == latest;
      assert cells[..i + 1][j].epoch == latest;
    } else {
      assert cells[..i + 1][i] == cells[i];
    }
  }

  // What the calls recorded.

  function Epoch(interval: nat, ev: Event): nat
    requires interval > 0
  {
    ev.now / interval
  }

  function Bucket(interval: nat, n: nat, ev: Event): nat
    requires interval > 0 && n > 0
  {
    Epoch(interval, ev) % n
  }

  // The calls of one processor in epoch e, in order; `interval` is the length of an epoch.
  function At(interval: nat, evs: seq<Event>, e: nat): seq<Event>
    requires interval > 0
  {
    if evs == [] then []
    else
      var n := |evs| - 1;
      At(interval, evs[..n], e) + if Epoch(interval, evs[n]) == e then [evs[n]] else []
  }

  // Epoch e is the time from e * interval on, up to the next epoch.
  function Between(evs: seq<Event>, from: nat, to: nat): seq<Event> {
    if evs == [] then []
    else
      var n := |evs| - 1;
      Between(evs[..n], from, to) + if from <= evs[n].now < to then [evs[n]] else []
  }

  lemma {:induction false} AtIsBetween(interval: nat, evs: seq<Event>, e: nat)
    requires interval > 0
    ensures At(interval, evs, e) == Between(evs, e * interval, (e + 1) * interval)
  {
    if evs != [] {
      var n := |evs| - 1;
      AtIsBetween(interval, evs[..n], e);
      EpochSpans(interval, evs[n], e);
    }
  }

  lemma EpochSpans(interval: nat, ev: Event, e: nat)
    requires interval > 0
    ensures Epoch(interval, ev) == e <==> e * interval <= ev.now < (e + 1) * interval
  {
    var q, r := ev.now / interval, ev.now % interval;
    assert ev.now == q * interval + r;
    if e < q {
      MultipleBelow(e + 1, q, interval);
    } else if q < e {
      MultipleBelow(q + 1, e, interval);
      assert (q + 1) * interval == q * interval + interval;
    }
  }

  lemma MultipleBelow(a: nat, b: nat, d: nat)
    requires a <= b
    ensures a * d <= b * d
  {
  }

  function Total(evs: seq<Event>): int {
    if evs == [] then 0 else Total(evs[..|evs| - 1]) + evs[|evs| - 1].val
  }

  // The value and the count, flag or time that stand for the calls of one epoch.
  ghost predicate Summarizes(agg: Agg, signed: bool, evs: seq<Event>, c: Cell) {
    && evs != []
    && (agg == Sum ==> c.val == Norm(signed, Total(evs)) && c.meta == 0)
    && (agg == Avg ==> c.val == Norm(signed, Total(evs)) && c.meta == |evs|)
    && (agg == Max ==> c.meta == 1 && IsMax(evs, c.val))
    && (agg == Min ==> c.meta == 1 && IsMin(evs, c.val))
    && (agg == NoAgg ==> IsNewest(evs, c.val, c.meta))
  }

  ghost predicate IsMax(evs: seq<Event>, val: int) {
    (exists i :: 0 <= i < |evs| && evs[i].val == val) && forall i :: 0 <= i < |evs| ==> evs[i].val <= val
  }

  ghost predicate IsMin(evs: seq<Event>, val: int) {
    (exists i :: 0 <= i < |evs| && evs[i].val == val) && forall i :: 0 <= i < |evs| ==> val <= evs[i].val
  }

  // A value recorded at time t, and none was recorded later.
  ghost predicate IsNewest(evs: seq<Event>, val: int, t: int) {
    && (exists i :: 0 <= i < |evs| && evs[i].val == val && evs[i].now == t)
    && forall i :: 0 <= i < |evs| ==> evs[i].now <= t
  }

  // What the calls of an epoch before this one leave in the cell.
  ghost predicate Before(agg: Agg, signed: bool, evs: seq<Event>, cell: Cell, epoch: nat) {
    if cell.epoch == epoch then (evs == [] && cell.val == cell.meta == 0) || Summarizes(agg, signed, evs, cell)
    else evs == []
  }

  // One more call of the same epoch, or the first call of a newer one.
  lemma StoreSummarizes(agg: Agg, signed: bool, evs: seq<Event>, cell: Cell, ev: Event, epoch: nat)
    requires epoch > 0
    requires Before(agg, signed, evs, cell, epoch)
    requires forall i :: 0 <= i < |evs| ==> evs[i].now <= ev.now
    ensures Summarizes(agg, signed, evs + [ev], Store(agg, signed, cell, ev.now, ev.val, epoch))
  {
    hide Norm, Total, Summarizes, Store;
    match agg
    case Sum => StoreTotal(agg, signed, evs, cell, ev, epoch);
    case Avg => StoreTotal(agg, signed, evs, cell, ev, epoch);
    case Max => StoreMax(signed, evs, cell, ev, epoch);
    case Min => StoreMin(signed, evs, cell, ev, epoch);
    case NoAgg => StoreNewest(signed, evs, cell, ev, epoch);
  }

  lemma StoreTotal(agg: Agg, signed: bool, evs: seq<Event>, cell: Cell, ev: Event, epoch: nat)
    requires agg == Sum || agg == Avg
    requires Before(agg, signed, evs, cell, epoch)
    ensures Summarizes(agg, signed, evs + [ev], Store(agg, signed, cell, ev.now, ev.val, epoch))
  {
    TotalNext(evs, ev);
    NormAdd(signed, Total(evs), ev.val);
    NormZero(signed);
    assert evs == [] ==> Total(evs) == 0;
    hide Norm, Total;
  }

  lemma TotalNext(evs: seq<Event>, ev: Event)
    ensures Total(evs + [ev]) == Total(evs) + ev.val
  {
    assert (evs + [ev])[..|evs|] == evs;
  }

  lemma NormZero(signed: bool)
    ensures Norm(signed, 0) == 0
  {
  }

  lemma StoreMax(signed: bool, evs: seq<Event>, cell: Cell, ev: Event, epoch: nat)
    requires Before(Max, signed, evs, cell, epoch)
    ensures Summarizes(Max, signed, evs + [ev], Store(Max, signed, cell, ev.now, ev.val, epoch))
  {
    hide Norm, Total;
    var more := evs + [ev];
    assert more[|evs|] == ev;
    if cell.epoch == epoch && evs != [] {
      var i :| 0 <= i < |evs| && evs[i].val == cell.val;
      assert more[i].val == cell.val;
    }
  }

  lemma StoreMin(signed: bool, evs: seq<Event>, cell: Cell, ev: Event, epoch: nat)
    requires Before(Min, signed, evs, cell, epoch)
    ensures Summarizes(Min, signed, evs + [ev], Store(Min, signed, cell, ev.now, ev.val, epoch))
  {
    hide Norm, Total;
    var more := evs + [ev];
    assert more[|evs|] == ev;
    if cell.epoch == epoch && evs != [] {
      var i :| 0 <= i < |evs| && evs[i].val == cell.val;
      assert more[i].val == cell.val;
    }
  }

  lemma StoreNewest(signed: bool, evs: seq<Event>, cell: Cell, ev: Event, epoch: nat)
    requires forall i :: 0 <= i < |evs| ==> evs[i].now <= ev.now
    ensures Summarizes(NoAgg, signed, evs + [ev], Store(NoAgg, signed, cell, ev.now, ev.val, epoch))
  {
    hide Norm, Total;
    assert (evs + [ev])[|evs|] == ev;
  }

  // The cell of a processor after its calls: the last epoch that fell into the bucket.
  ghost predicate Holds(agg: Agg, signed: bool, interval: nat, n: nat, evs: seq<Event>, b: nat, c: Cell)
    requires interval > 0 && n > 0
  {
    if NoneIn(interval, n, evs, b) then c == UNUSED
    else
      && c.epoch > 0 && c.epoch % n == b
      && Summarizes(agg, signed, At(interval, evs, c.epoch), c)
      && forall i :: 0 <= i < |evs| && Bucket(interval, n, evs[i]) == b ==> Epoch(interval, evs[i]) <= c.epoch
  }

  ghost predicate NoneIn(interval: nat, n: nat, evs: seq<Event>, b: nat)
    requires interval > 0 && n > 0
  {
    forall i :: 0 <= i < |evs| ==> Bucket(interval, n, evs[i]) != b
  }

  // The clock of a processor does not run backwards, and has left epoch 0.
  ghost predicate Clocked(interval: nat, evs: seq<Event>)
    requires interval > 0
  {
    && (forall i, j :: 0 <= i < j < |evs| ==> evs[i].now <= evs[j].now)
    && (forall i :: 0 <= i < |evs| ==> Epoch(interval, evs[i]) > 0)
  }

  lemma {:induction false} AtMember(interval: nat, evs: seq<Event>, e: nat)
    requires interval > 0
    ensures forall i :: 0 <= i < |At(interval, evs, e)| ==>
      At(interval, evs, e)[i] in evs && Epoch(interval, At(interval, evs, e)[i]) == e
    ensures forall i :: 0 <= i < |evs| && Epoch(interval, evs[i]) == e ==> evs[i] in At(interval, evs, e)
  {
    if evs != [] {
      AtMember(interval, evs[..|evs| - 1], e);
    }
  }

  lemma AtNext(interval: nat, evs: seq<Event>, ev: Event, e: nat)
    requires interval > 0
    ensures At(interval, evs + [ev], e) == At(interval, evs, e) + if Epoch(interval, ev) == e then [ev] else []
  {
    assert (evs + [ev])[..|evs|] == evs;
  }

  // The cell that a call finds: created by the call, or describing the earlier calls.
  ghost predicate Found(agg: Agg, signed: bool, interval: nat, n: nat, evs: seq<Event>, c: Cell, ev: Event)
    requires interval > 0 && n > 0
  {
    var b := Bucket(interval, n, ev);
    || Holds(agg, signed, interval, n, evs, b, c)
    || (NoneIn(interval, n, evs, b) && c == Cell(0, 0, Epoch(interval, ev)))
  }

  lemma ClockedLast(interval: nat, evs: seq<Event>, ev: Event)
    requires interval > 0 && Clocked(interval, evs + [ev])
    ensures Epoch(interval, ev) > 0
    ensures forall i :: 0 <= i < |evs| ==> evs[i].now <= ev.now && Epoch(interval, evs[i]) <= Epoch(interval, ev)
  {
    var more := evs + [ev];
    assert more[|evs|] == ev;
    forall i | 0 <= i < |evs| ensures evs[i].now <= ev.now && Epoch(interval, evs[i]) <= Epoch(interval, ev) {
      assert more[i] == evs[i];
      DivMonotonic(evs[i].now, ev.now, interval);
    }
  }

  lemma DivMonotonic(a: nat, b: nat, d: nat)
    requires a <= b && d > 0
    ensures a / d <= b / d
  {
    if a / d > b / d {
      assert b == d * (b / d) + b % d;
      assert a == d * (a / d) + a % d;
      AtLeast(d, a / d - b / d);
    }
  }

  // The earlier calls of the same epoch are those that the cell describes.
  lemma FoundSummarizes(agg: Agg, signed: bool, interval: nat, n: nat, evs: seq<Event>, c: Cell, ev: Event)
    requires interval > 0 && n > 0 && Clocked(interval, evs + [ev])
    requires Found(agg, signed, interval, n, evs, c, ev)
    ensures var e := Epoch(interval, ev);
      var s := At(interval, evs, e);
      if c.epoch == e then (s == [] && c.val == c.meta == 0) || Summarizes(agg, signed, s, c) else s == []
  {
    hide Summarizes, Clocked, At;
    var e := Epoch(interval, ev);
    var s := At(interval, evs, e);
    ClockedLast(interval, evs, ev);
    AtMember(interval, evs, e);
    hide Epoch;
    if s != [] {
      var j :| 0 <= j < |evs| && evs[j] == s[0];
      assert Bucket(interval, n, evs[j]) == Bucket(interval, n, ev);
      assert !NoneIn(interval, n, evs, Bucket(interval, n, ev));
      assert e <= c.epoch;
      if c.epoch != e {
        LatestOccurs(agg, signed, interval, n, evs, Bucket(interval, n, ev), c);
      }
    }
  }

  lemma LatestOccurs(agg: Agg, signed: bool, interval: nat, n: nat, evs: seq<Event>, b: nat, c: Cell)
    requires interval > 0 && n > 0 && Holds(agg, signed, interval, n, evs, b, c) && !NoneIn(interval, n, evs, b)
    ensures exists i :: 0 <= i < |evs| && Epoch(interval, evs[i]) == c.epoch
  {
    hide At, Epoch;
    AtMember(interval, evs, c.epoch);
    var first := At(interval, evs, c.epoch)[0];
    assert first in evs;
  }

  // The cell of the bucket that a call falls into.
  lemma StoredHolds(agg: Agg, signed: bool, interval: nat, n: nat, evs: seq<Event>, c: Cell, ev: Event)
    requires interval > 0 && n > 0 && Clocked(interval, evs + [ev])
    requires Found(agg, signed, interval, n, evs, c, ev)
    ensures Holds(agg, signed, interval, n, evs + [ev], Bucket(interval, n, ev),
                  Store(agg, signed, c, ev.now, ev.val, Epoch(interval, ev)))
  {
    hide Summarizes, Clocked, At, Found, Holds, Store;
    var e, more, b := Epoch(interval, ev), evs + [ev], Bucket(interval, n, ev);
    FoundSummarizes(agg, signed, interval, n, evs, c, ev);
    ClockedLast(interval, evs, ev);
    AtMember(interval, evs, e);
    AtNext(interval, evs, ev, e);
    hide Epoch;
    var s := At(interval, evs, e);
    forall i | 0 <= i < |s| ensures s[i].now <= ev.now {
      var j :| 0 <= j < |evs| && evs[j] == s[i];
    }
    StoreSummarizes(agg, signed, s, c, ev, e);
    StoreEpoch(agg, signed, c, ev.now, ev.val, e);
    LatestIsNew(agg, signed, interval, n, evs, Store(agg, signed, c, ev.now, ev.val, e), ev);
  }

  lemma LatestIsNew(agg: Agg, signed: bool, interval: nat, n: nat, evs: seq<Event>, c: Cell, ev: Event)
    requires interval > 0 && n > 0 && Clocked(interval, evs + [ev]) && c.epoch == Epoch(interval, ev)
    requires Summarizes(agg, signed, At(interval, evs + [ev], c.epoch), c)
    ensures Holds(agg, signed, interval, n, evs + [ev], Bucket(interval, n, ev), c)
  {
    hide Summarizes, Clocked, At;
    ClockedLast(interval, evs, ev);
    var more, b := evs + [ev], Bucket(interval, n, ev);
    hide Epoch;
    assert more[|evs|] == ev;
    forall i | 0 <= i < |more| ensures Epoch(interval, more[i]) <= c.epoch {
      if i < |evs| {
        assert more[i] == evs[i];
      }
    }
  }

  lemma StoreEpoch(agg: Agg, signed: bool, cell: Cell, now: nat, val: int, epoch: nat)
    ensures Store(agg, signed, cell, now, val, epoch).epoch == epoch
  {
  }

  // The cells of the other buckets keep describing the calls.
  lemma OtherHolds(agg: Agg, signed: bool, interval: nat, n: nat, evs: seq<Event>, b: nat, c: Cell, ev: Event)
    requires interval > 0 && n > 0 && Bucket(interval, n, ev) != b && Holds(agg, signed, interval, n, evs, b, c)
    ensures Holds(agg, signed, interval, n, evs + [ev], b, c)
  {
    hide Summarizes, At, Epoch;
    var more := evs + [ev];
    assert more[|evs|] == ev && forall i :: 0 <= i < |evs| ==> more[i] == evs[i];
    if NoneIn(interval, n, evs, b) {
      assert NoneIn(interval, n, more, b);
    } else {
      var i :| 0 <= i < |evs| && Bucket(interval, n, evs[i]) == b;
      assert Bucket(interval, n, more[i]) == b;
      AtNext(interval, evs, ev, c.epoch);
      assert At(interval, more, c.epoch) == At(interval, evs, c.epoch);
    }
  }
}
