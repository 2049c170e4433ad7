/**
 The whole path of a time series: calls on any processor update its ring of buckets, and the printed
 series shows, for every epoch of the window, the aggregate of all calls of that epoch.
 */
module RecordedSeries {
  import opened Prelude
  import opened TimeSeries
  import opened TimeSeriesRing
  import B = Bytes

  // One sequence of calls for each processor.
  type Logs = seq<seq<Event>>

  ghost predicate RecordedAt(interval: nat, logs: Logs, e: nat, ev: Event)
    requires interval > 0
  {
    exists p :: 0 <= p < |logs| && ev in At(interval, logs[p], e)
  }

  // An epoch lasts for one interval.
  lemma RecordedIff(interval: nat, logs: Logs, e: nat, ev: Event)
    requires interval > 0
    ensures RecordedAt(interval, logs, e, ev)
            <==> e * interval <= ev.now < (e + 1) * interval && exists p :: 0 <= p < |logs| && ev in logs[p]
  {
    hide At, Epoch;
    EpochSpans(interval, ev, e);
    if RecordedAt(interval, logs, e, ev) {
      var p :| 0 <= p < |logs| && ev in At(interval, logs[p], e);
      AtMember(interval, logs[p], e);
    }
    if p :| 0 <= p < |logs| && ev in logs[p] {
      AtMember(interval, logs[p], e);
    }
  }

  function TotalAll(interval: nat, logs: Logs, e: nat): int
    requires interval > 0
  {
    if logs == [] then 0
    else TotalAll(interval, logs[..|logs| - 1], e) + Total(At(interval, logs[|logs| - 1], e))
  }

  function CountAll(interval: nat, logs: Logs, e: nat): nat
    requires interval > 0
  {
    if logs == [] then 0
    else CountAll(interval, logs[..|logs| - 1], e) + |At(interval, logs[|logs| - 1], e)|
  }

  // The combined cell stands for the calls of epoch e on all processors.
  ghost predicate Combines(agg: Agg, signed: bool, interval: nat, logs: Logs, e: nat, c: Cell)
    requires interval > 0
  {
    && CountAll(interval, logs, e) > 0
    && (agg == Sum ==> c.val == Norm(signed, TotalAll(interval, logs, e)))
    && (agg == Avg ==> c.val == Norm(signed, TotalAll(interval, logs, e)) && c.meta == CountAll(interval, logs, e))
    && (agg == Max ==> Extreme(interval, logs, e, c.val, true))
    && (agg == Min ==> Extreme(interval, logs, e, c.val, false))
    && (agg == NoAgg ==> Newest(interval, logs, e, c.val, c.meta))
  }

  // The greatest or least value recorded in epoch e.
  ghost predicate Extreme(interval: nat, logs: Logs, e: nat, val: int, max: bool)
    requires interval > 0
  {
    && (exists ev :: RecordedAt(interval, logs, e, ev) && ev.val == val)
    && (forall ev :: RecordedAt(interval, logs, e, ev) ==> if max then ev.val <= val else val <= ev.val)
  }

  ghost predicate Newest(interval: nat, logs: Logs, e: nat, val: int, t: int)
    requires interval > 0
  {
    && (exists ev :: RecordedAt(interval, logs, e, ev) && ev.val == val && ev.now == t)
    && (forall ev :: RecordedAt(interval, logs, e, ev) ==> ev.now <= t)
  }

  // The aggregate of the calls of epoch e: their sum modulo 2^64, the truncated average of that
  // sum, the greatest, the least, or the newest of their values.
  ghost predicate IsAggregate(agg: Agg, signed: bool, interval: nat, logs: Logs, e: nat, val: int)
    requires interval > 0
  {
    var sum := Norm(signed, TotalAll(interval, logs, e));
    var count := CountAll(interval, logs, e);
    && count > 0
    && (agg == Sum ==> val == sum)
    && (agg == Avg ==> B.IsTruncated(val, sum, count))
    && (agg == Max ==> Extreme(interval, logs, e, val, true))
    && (agg == Min ==> Extreme(interval, logs, e, val, false))
    && (agg == NoAgg ==> exists t :: Newest(interval, logs, e, val, t))
  }

  // The cell of one processor, as seen from epoch e.
  ghost predicate CellAt(agg: Agg, signed: bool, interval: nat, evs: seq<Event>, e: nat, c: Cell)
    requires interval > 0
  {
    if c.epoch == e then Summarizes(agg, signed, At(interval, evs, e), c) else At(interval, evs, e) == []
  }

  // One more processor.

  lemma RecordedNext(interval: nat, logs: Logs, e: nat, ev: Event)
    requires interval > 0 && logs != []
    ensures RecordedAt(interval, logs, e, ev) <==>
      RecordedAt(interval, logs[..|logs| - 1], e, ev) || ev in At(interval, logs[|logs| - 1], e)
  {
    hide At;
    var n := |logs| - 1;
    if RecordedAt(interval, logs[..n], e, ev) {
      var p :| 0 <= p < n && ev in At(interval, logs[..n][p], e);
      assert logs[p] == logs[..n][p];
    }
    if p :| 0 <= p < |logs| && ev in At(interval, logs[p], e) {
      assert p < n ==> logs[..n][p] == logs[p];
    }
  }

  lemma {:induction false} CountedIsRecorded(interval: nat, logs: Logs, e: nat)
    requires interval > 0
    ensures CountAll(interval, logs, e) > 0 <==> exists ev :: RecordedAt(interval, logs, e, ev)
  {
    if logs != [] {
      hide At, RecordedAt;
      var n := |logs| - 1;
      CountedIsRecorded(interval, logs[..n], e);
      forall ev ensures RecordedAt(interval, logs, e, ev) <==>
        RecordedAt(interval, logs[..n], e, ev) || ev in At(interval, logs[n], e)
      {
        RecordedNext(interval, logs, e, ev);
      }
      if |At(interval, logs[n], e)| > 0 {
        assert At(interval, logs[n], e)[0] in At(interval, logs[n], e);
      }
    }
  }

  ghost predicate CombinesAll(agg: Agg, signed: bool, interval: nat, logs: Logs, e: nat, f: Option<Cell>)
    requires interval > 0
  {
    match f
    case None => CountAll(interval, logs, e) == 0
    case Some(c) => Combines(agg, signed, interval, logs, e, c)
  }

  // Combining the cells of an epoch aggregates the calls of the epoch.
  lemma {:induction false} FoldCombines(
      agg: Agg, signed: bool, interval: nat, logs: Logs, cells: seq<Cell>, e: nat)
    requires interval > 0 && |cells| == |logs|
    requires forall p :: 0 <= p < |logs| ==> CellAt(agg, signed, interval, logs[p], e, cells[p])
    ensures CombinesAll(agg, signed, interval, logs, e, FoldAt(agg, signed, cells, e))
    decreases |logs|
  {
    if logs != [] {
      hide CellAt, CombinesAll, Combine;
      var n := |logs| - 1;
      assert forall p :: 0 <= p < n ==> logs[..n][p] == logs[p] && cells[..n][p] == cells[p];
      FoldCombines(agg, signed, interval, logs[..n], cells[..n], e);
      FoldNext(agg, signed, interval, logs, e, cells[n], FoldAt(agg, signed, cells[..n], e));
    }
  }

  lemma FoldNext(agg: Agg, signed: bool, interval: nat, logs: Logs, e: nat, c: Cell, before: Option<Cell>)
    requires interval > 0 && logs != [] && CellAt(agg, signed, interval, logs[|logs| - 1], e, c)
    requires CombinesAll(agg, signed, interval, logs[..|logs| - 1], e, before)
    ensures CombinesAll(agg, signed, interval, logs, e,
      if c.epoch != e then before
      else if before == None then Some(c)
      else Some(Combine(agg, signed, before.value, c)))
  {
    hide CellAt, Combines, Combine, CountAll;
    if c.epoch != e {
      NoCalls(agg, signed, interval, logs, e, c, before);
    } else if before == None {
      FirstCalls(agg, signed, interval, logs, e, c);
    } else {
      MoreCalls(agg, signed, interval, logs, e, before.value, c);
    }
  }

  lemma SameRecorded(interval: nat, logs: Logs, e: nat)
    requires interval > 0 && logs != [] && At(interval, logs[|logs| - 1], e) == []
    ensures forall ev :: RecordedAt(interval, logs, e, ev) <==> RecordedAt(interval, logs[..|logs| - 1], e, ev)
  {
    hide At, RecordedAt;
    forall ev ensures RecordedAt(interval, logs, e, ev) <==> RecordedAt(interval, logs[..|logs| - 1], e, ev) {
      RecordedNext(interval, logs, e, ev);
    }
  }

  lemma NoCalls(agg: Agg, signed: bool, interval: nat, logs: Logs, e: nat, c: Cell, before: Option<Cell>)
    requires interval > 0 && logs != [] && CellAt(agg, signed, interval, logs[|logs| - 1], e, c) && c.epoch != e
    requires before == None ==> CountAll(interval, logs[..|logs| - 1], e) == 0
    requires before.Some? ==> Combines(agg, signed, interval, logs[..|logs| - 1], e, before.value)
    ensures before == None ==> CountAll(interval, logs, e) == 0
    ensures before.Some? ==> Combines(agg, signed, interval, logs, e, before.value)
  {
    hide At, RecordedAt, Norm;
    SameRecorded(interval, logs, e);
  }

  // The calls of one processor are those that its cell summarizes.
  lemma SummaryIsRecorded(agg: Agg, signed: bool, interval: nat, logs: Logs, e: nat, c: Cell)
    requires interval > 0 && logs != [] && Summarizes(agg, signed, At(interval, logs[|logs| - 1], e), c)
    ensures agg == Max ==> LastExtreme(interval, logs, e, c.val, true)
    ensures agg == Min ==> LastExtreme(interval, logs, e, c.val, false)
    ensures agg == NoAgg ==> LastNewest(interval, logs, e, c.val, c.meta)
  {
    hide At, Norm;
    var evs := At(interval, logs[|logs| - 1], e);
    if agg == Max || agg == Min {
      var i :| 0 <= i < |evs| && evs[i].val == c.val;
      assert evs[i] in evs;
    } else if agg == NoAgg {
      var i :| 0 <= i < |evs| && evs[i].val == c.val && evs[i].now == c.meta;
      assert evs[i] in evs;
    }
  }

  ghost predicate LastExtreme(interval: nat, logs: Logs, e: nat, val: int, max: bool)
    requires interval > 0 && logs != []
  {
    && (exists ev :: ev in At(interval, logs[|logs| - 1], e) && ev.val == val)
    && (forall ev :: ev in At(interval, logs[|logs| - 1], e) ==> if max then ev.val <= val else val <= ev.val)
  }

  ghost predicate LastNewest(interval: nat, logs: Logs, e: nat, val: int, t: int)
    requires interval > 0 && logs != []
  {
    && (exists ev :: ev in At(interval, logs[|logs| - 1], e) && ev.val == val && ev.now == t)
    && (forall ev :: ev in At(interval, logs[|logs| - 1], e) ==> ev.now <= t)
  }

  lemma AllRecorded(interval: nat, logs: Logs, e: nat)
    requires interval > 0 && logs != []
    ensures forall ev :: RecordedAt(interval, logs, e, ev) <==>
      RecordedAt(interval, logs[..|logs| - 1], e, ev) || ev in At(interval, logs[|logs| - 1], e)
  {
    hide At, RecordedAt;
    forall ev ensures RecordedAt(interval, logs, e, ev) <==>
      RecordedAt(interval, logs[..|logs| - 1], e, ev) || ev in At(interval, logs[|logs| - 1], e)
    {
      RecordedNext(interval, logs, e, ev);
    }
  }

  lemma FirstCalls(agg: Agg, signed: bool, interval: nat, logs: Logs, e: nat, c: Cell)
    requires interval > 0 && logs != [] && CellAt(agg, signed, interval, logs[|logs| - 1], e, c) && c.epoch == e
    requires CountAll(interval, logs[..|logs| - 1], e) == 0
    ensures Combines(agg, signed, interval, logs, e, c)
  {
    hide At, RecordedAt, Norm;
    NothingRecorded(interval, logs[..|logs| - 1], e);
    AllRecorded(interval, logs, e);
    SummaryIsRecorded(agg, signed, interval, logs, e, c);
  }

  lemma {:induction false} NothingRecorded(interval: nat, logs: Logs, e: nat)
    requires interval > 0 && CountAll(interval, logs, e) == 0
    ensures TotalAll(interval, logs, e) == 0
    ensures forall ev :: !RecordedAt(interval, logs, e, ev)
  {
    CountedIsRecorded(interval, logs, e);
    if logs != [] {
      NothingRecorded(interval, logs[..|logs| - 1], e);
    }
  }

  lemma MoreCalls(agg: Agg, signed: bool, interval: nat, logs: Logs, e: nat, a: Cell, b: Cell)
    requires interval > 0 && logs != [] && CellAt(agg, signed, interval, logs[|logs| - 1], e, b) && b.epoch == e
    requires Combines(agg, signed, interval, logs[..|logs| - 1], e, a)
    ensures Combines(agg, signed, interval, logs, e, Combine(agg, signed, a, b))
  {
    hide At, RecordedAt, Norm;
    AllRecorded(interval, logs, e);
    SummaryIsRecorded(agg, signed, interval, logs, e, b);
    var t, u := TotalAll(interval, logs[..|logs| - 1], e), Total(At(interval, logs[|logs| - 1], e));
    if agg == Sum || agg == Avg {
      NormAdd(signed, t, Norm(signed, u));
      NormAdd(signed, u, t);
      assert t + Norm(signed, u) == Norm(signed, u) + t && u + t == t + u;
    }
  }

  // The cells of one bucket, one for each processor, and the calls that they describe.
  ghost predicate BucketHolds(
      agg: Agg, signed: bool, interval: nat, n: nat, logs: Logs, b: nat, cells: seq<Cell>)
    requires interval > 0 && n > 0
  {
    && |cells| == |logs|
    && (forall p :: 0 <= p < |logs| ==> Holds(agg, signed, interval, n, logs[p], b, cells[p]))
    && (exists p :: 0 <= p < |logs| && !NoneIn(interval, n, logs[p], b))
  }

  ghost predicate Untouched(interval: nat, n: nat, logs: Logs, b: nat)
    requires interval > 0 && n > 0
  {
    forall p :: 0 <= p < |logs| ==> NoneIn(interval, n, logs[p], b)
  }

  // No call falls into the bucket with a later epoch.
  ghost predicate NoneLater(interval: nat, n: nat, logs: Logs, b: nat, e: nat)
    requires interval > 0 && n > 0
  {
    forall p, ev :: 0 <= p < |logs| && ev in logs[p] && Bucket(interval, n, ev) == b ==> Epoch(interval, ev) <= e
  }

  // The reduced bucket is its latest epoch, with the aggregate of all calls of that epoch.
  lemma BucketReduces(agg: Agg, signed: bool, interval: nat, n: nat, logs: Logs, b: nat, cells: seq<Cell>, e: nat)
    requires interval > 0 && n > 0 && BucketHolds(agg, signed, interval, n, logs, b, cells) && IsLatestCell(cells, e)
    ensures e > 0 && e % n == b && NoneLater(interval, n, logs, b, e)
    ensures var f := FoldAt(agg, signed, cells, e);
      && f.Some? && (agg == Avg ==> f.value.meta > 0)
      && IsAggregate(agg, signed, interval, logs, e, Finish(agg, f.value))
  {
    hide Holds, NoneIn, Summarizes, Extreme, Newest, At, FoldAt, Combine, Norm, CountAll, TotalAll, Bucket, Epoch,
      TruncDiv, B.IsTruncated;
    var p :| 0 <= p < |logs| && !NoneIn(interval, n, logs[p], b);
    HoldsUsed(agg, signed, interval, n, logs[p], b, cells[p]);
    var q :| 0 <= q < |cells| && cells[q].epoch == e;
    UsedHolds(agg, signed, interval, n, logs[q], b, cells[q]);
    forall r | 0 <= r < |logs| ensures CellAt(agg, signed, interval, logs[r], e, cells[r]) {
      HoldsCellAt(agg, signed, interval, n, logs[r], b, cells[r], e);
    }
    forall r, ev | 0 <= r < |logs| && ev in logs[r] && Bucket(interval, n, ev) == b
      ensures Epoch(interval, ev) <= e
    {
      HoldsLatest(agg, signed, interval, n, logs[r], b, cells[r], ev);
    }
    hide CellAt;
    FoldAtEpoch(agg, signed, cells, e);
    FoldCombines(agg, signed, interval, logs, cells, e);
    if agg == Avg {
      var c := FoldAt(agg, signed, cells, e).value;
      TruncDivIsTruncated(c.val, c.meta);
    }
  }

  lemma HoldsUsed(agg: Agg, signed: bool, interval: nat, n: nat, evs: seq<Event>, b: nat, c: Cell)
    requires interval > 0 && n > 0 && Holds(agg, signed, interval, n, evs, b, c) && !NoneIn(interval, n, evs, b)
    ensures c.epoch > 0
  {
  }

  lemma UsedHolds(agg: Agg, signed: bool, interval: nat, n: nat, evs: seq<Event>, b: nat, c: Cell)
    requires interval > 0 && n > 0 && Holds(agg, signed, interval, n, evs, b, c) && c.epoch > 0
    ensures c.epoch % n == b
  {
  }

  lemma HoldsLatest(agg: Agg, signed: bool, interval: nat, n: nat, evs: seq<Event>, b: nat, c: Cell, ev: Event)
    requires interval > 0 && n > 0 && Holds(agg, signed, interval, n, evs, b, c)
    requires ev in evs && Bucket(interval, n, ev) == b
    ensures Epoch(interval, ev) <= c.epoch
  {
    var i :| 0 <= i < |evs| && evs[i] == ev;
    assert !NoneIn(interval, n, evs, b);
  }

  lemma HoldsCellAt(agg: Agg, signed: bool, interval: nat, n: nat, evs: seq<Event>, b: nat, c: Cell, e: nat)
    requires interval > 0 && n > 0 && Holds(agg, signed, interval, n, evs, b, c)
    requires e > 0 && e % n == b && c.epoch <= e
    ensures CellAt(agg, signed, interval, evs, e, c)
  {
    hide Summarizes, At;
    AtMember(interval, evs, e);
    if c.epoch != e && At(interval, evs, e) != [] {
      var ev := At(interval, evs, e)[0];
      assert ev in evs && Bucket(interval, n, ev) == b;
      HoldsLatest(agg, signed, interval, n, evs, b, c, ev);
    }
  }

  // The bucket's latest epoch has been collected.
  ghost predicate BucketShown(interval: nat, n: nat, logs: Logs, b: nat, values: Values<int>)
    requires interval > 0 && n > 0
  {
    exists e :: e in values && e % n == b && NoneLater(interval, n, logs, b, e)
  }

  lemma UnusedHolds(agg: Agg, signed: bool, interval: nat, n: nat, evs: seq<Event>, b: nat)
    requires interval > 0 && n > 0 && NoneIn(interval, n, evs, b)
    ensures Holds(agg, signed, interval, n, evs, b, UNUSED)
  {
  }

  lemma EventOccurs(interval: nat, n: nat, evs: seq<Event>, ev: Event)
    requires interval > 0 && n > 0
    ensures !NoneIn(interval, n, evs + [ev], Bucket(interval, n, ev))
  {
    assert (evs + [ev])[|evs|] == ev;
  }

  lemma OtherBucketHolds(
      agg: Agg, signed: bool, interval: nat, n: nat, logs: Logs, b: nat, cells: seq<Cell>, p: nat, ev: Event)
    requires interval > 0 && n > 0 && p < |logs| && Bucket(interval, n, ev) != b
    requires BucketHolds(agg, signed, interval, n, logs, b, cells)
    ensures BucketHolds(agg, signed, interval, n, logs[p := logs[p] + [ev]], b, cells)
  {
    hide Holds, NoneIn;
    OtherHolds(agg, signed, interval, n, logs[p], b, cells[p], ev);
    var q :| 0 <= q < |logs| && !NoneIn(interval, n, logs[q], b);
    StillOccurs(interval, n, logs[q], b, ev);
    var now := logs[p := logs[p] + [ev]];
    assert !NoneIn(interval, n, now[q], b);
  }

  lemma StillOccurs(interval: nat, n: nat, evs: seq<Event>, b: nat, ev: Event)
    requires interval > 0 && n > 0 && !NoneIn(interval, n, evs, b)
    ensures !NoneIn(interval, n, evs + [ev], b)
  {
    var i :| 0 <= i < |evs| && Bucket(interval, n, evs[i]) == b;
    assert (evs + [ev])[i] == evs[i];
  }

  lemma StillUntouched(interval: nat, n: nat, logs: Logs, b: nat, p: nat, ev: Event)
    requires interval > 0 && n > 0 && p < |logs| && Bucket(interval, n, ev) != b && Untouched(interval, n, logs, b)
    ensures Untouched(interval, n, logs[p := logs[p] + [ev]], b)
  {
    assert NoneIn(interval, n, logs[p], b);
  }

  lemma UsedCounts(agg: Agg, signed: bool, interval: nat, n: nat, logs: Logs, b: nat, cells: seq<Cell>)
    requires interval > 0 && n > 0 && BucketHolds(agg, signed, interval, n, logs, b, cells)
    ensures agg == Avg ==> forall p :: 0 <= p < |cells| && cells[p].epoch != 0 ==> cells[p].meta > 0
  {
    hide At, Total, Norm;
  }

  // Two epochs of one window in one bucket are the same.
  lemma SameBucketSameEpoch(d: nat, e: nat, n: nat)
    requires n > 0 && d <= e < d + n && d % n == e % n
    ensures d == e
  {
    assert d == n * (d / n) + d % n;
    assert e == n * (e / n) + e % n;
    var q := e / n - d / n;
    assert n * q == n * (e / n) - n * (d / n) == e - d;
    assert n * -q == -(n * q);
    if q >= 1 {
      AtLeast(n, q);
    } else if q <= -1 {
      AtLeast(n, -q);
    }
  }

  // A call inside the window is in the collected values under its epoch: no later epoch of the
  // window shares its bucket.
  lemma RecordedShown(
      agg: Agg, signed: bool, interval: nat, n: nat, logs: Logs, values: Values<int>, last: nat, e: nat, ev: Event)
    requires interval > 0 && n > 0 && last + 1 - n <= e && RecordedAt(interval, logs, e, ev)
    requires BucketShown(interval, n, logs, e % n, values)
    requires forall e :: e in values ==> IsAggregate(agg, signed, interval, logs, e, values[e])
    requires forall p, ev :: 0 <= p < |logs| && ev in logs[p] ==> Epoch(interval, ev) <= last
    ensures e in values && e <= last
  {
    hide Extreme, Newest, Norm, B.IsTruncated, TotalAll;
    RecordedInLog(interval, logs, e, ev);
    var latest :| latest in values && latest % n == e % n && NoneLater(interval, n, logs, e % n, latest);
    CountedIsRecorded(interval, logs, latest);
    assert IsAggregate(agg, signed, interval, logs, latest, values[latest]);
    var other :| RecordedAt(interval, logs, latest, other);
    RecordedInLog(interval, logs, latest, other);
    SameBucketSameEpoch(e, latest, n);
  }

  lemma RecordedInLog(interval: nat, logs: Logs, e: nat, ev: Event)
    requires interval > 0 && RecordedAt(interval, logs, e, ev)
    ensures Epoch(interval, ev) == e && exists p :: 0 <= p < |logs| && ev in logs[p]
  {
    hide At, Epoch;
    var p :| 0 <= p < |logs| && ev in At(interval, logs[p], e);
    AtMember(interval, logs[p], e);
  }

  lemma RecordedTouches(interval: nat, n: nat, logs: Logs, e: nat, ev: Event)
    requires interval > 0 && n > 0 && RecordedAt(interval, logs, e, ev)
    ensures !Untouched(interval, n, logs, e % n)
  {
    RecordedInLog(interval, logs, e, ev);
    hide Epoch;
    var p :| 0 <= p < |logs| && ev in logs[p];
    var i :| 0 <= i < |logs[p]| && logs[p][i] == ev;
    assert Bucket(interval, n, logs[p][i]) == e % n;
    assert !NoneIn(interval, n, logs[p], e % n);
  }

  // The state of a ring: its cells describe all the calls.
  ghost predicate RingHolds(
      agg: Agg, signed: bool, interval: nat, n: nat, cpus: nat, buckets: map<nat, seq<Cell>>, logs: Logs)
  {
    && interval > 0 && n > 0 && |logs| == cpus
    && (forall p :: 0 <= p < cpus ==> Clocked(interval, logs[p]))
    && (forall b :: b in buckets ==> BucketHolds(agg, signed, interval, n, logs, b, buckets[b]))
    && (forall b :: b !in buckets ==> Untouched(interval, n, logs, b))
  }

  lemma RecordKeeps(
      agg: Agg, signed: bool, interval: nat, n: nat, cpus: nat, buckets: map<nat, seq<Cell>>, logs: Logs,
      p: nat, ev: Event, cells: seq<Cell>, cell: Cell)
    requires RingHolds(agg, signed, interval, n, cpus, buckets, logs) && p < cpus
    requires Clocked(interval, logs[p] + [ev])
    requires var b := Bucket(interval, n, ev);
      if b in buckets then cells == buckets[b] && cell == cells[p]
      else cells == seq(cpus, _ => UNUSED) && cell == Cell(0, 0, Epoch(interval, ev))
    ensures var e := Epoch(interval, ev);
      RingHolds(agg, signed, interval, n, cpus,
                buckets[Bucket(interval, n, ev) := cells[p := Store(agg, signed, cell, ev.now, ev.val, e)]],
                logs[p := logs[p] + [ev]])
  {
    hide Holds, NoneIn, Clocked, Store, Bucket, Epoch, BucketHolds, Untouched;
    var b, now := Bucket(interval, n, ev), logs[p := logs[p] + [ev]];
    var stored := Store(agg, signed, cell, ev.now, ev.val, Epoch(interval, ev));
    BucketRecorded(agg, signed, interval, n, cpus, buckets, logs, p, ev, cells, cell);
    forall c | c in buckets && c != b ensures BucketHolds(agg, signed, interval, n, now, c, buckets[c]) {
      OtherBucketHolds(agg, signed, interval, n, logs, c, buckets[c], p, ev);
    }
    forall c | c !in buckets && c != b ensures Untouched(interval, n, now, c) {
      StillUntouched(interval, n, logs, c, p, ev);
    }
  }

  lemma BucketRecorded(
      agg: Agg, signed: bool, interval: nat, n: nat, cpus: nat, buckets: map<nat, seq<Cell>>, logs: Logs,
      p: nat, ev: Event, cells: seq<Cell>, cell: Cell)
    requires RingHolds(agg, signed, interval, n, cpus, buckets, logs) && p < cpus
    requires Clocked(interval, logs[p] + [ev])
    requires var b := Bucket(interval, n, ev);
      if b in buckets then cells == buckets[b] && cell == cells[p]
      else cells == seq(cpus, _ => UNUSED) && cell == Cell(0, 0, Epoch(interval, ev))
    ensures |cells| == |logs| && BucketHolds(agg, signed, interval, n, logs[p := logs[p] + [ev]], Bucket(interval, n, ev),
                        cells[p := Store(agg, signed, cell, ev.now, ev.val, Epoch(interval, ev))])
  {
    hide Holds, NoneIn, Clocked, Store, Bucket, Epoch;
    var b, now := Bucket(interval, n, ev), logs[p := logs[p] + [ev]];
    if b in buckets {
      assert BucketHolds(agg, signed, interval, n, logs, b, buckets[b]);
    } else {
      assert Untouched(interval, n, logs, b);
      forall q | 0 <= q < cpus ensures Holds(agg, signed, interval, n, logs[q], b, cells[q]) {
        UnusedHolds(agg, signed, interval, n, logs[q], b);
      }
    }
    assert Found(agg, signed, interval, n, logs[p], cell, ev);
    StoredHolds(agg, signed, interval, n, logs[p], cell, ev);
    EventOccurs(interval, n, logs[p], ev);
    assert !NoneIn(interval, n, now[p], b);
  }

  ghost predicate Aggregates(agg: Agg, signed: bool, interval: nat, logs: Logs, values: Values<int>)
    requires interval > 0
  {
    forall e :: e in values ==> IsAggregate(agg, signed, interval, logs, e, values[e])
  }

  ghost predicate Shown(interval: nat, n: nat, logs: Logs, keys: seq<nat>, k: nat, values: Values<int>)
    requires interval > 0 && n > 0 && k <= |keys|
  {
    forall i :: 0 <= i < k ==> BucketShown(interval, n, logs, keys[i], values)
  }

  lemma NothingShown(agg: Agg, signed: bool, interval: nat, n: nat, logs: Logs, keys: seq<nat>)
    requires interval > 0 && n > 0
    ensures Aggregates(agg, signed, interval, logs, map[]) && Shown(interval, n, logs, keys, 0, map[])
  {
  }

  lemma BucketCollected(agg: Agg, signed: bool, interval: nat, n: nat, logs: Logs, values: Values<int>,
                        keys: seq<nat>, k: nat, e: nat, val: int)
    requires interval > 0 && n > 0 && k < |keys|
    requires Aggregates(agg, signed, interval, logs, values) && Shown(interval, n, logs, keys, k, values)
    requires IsAggregate(agg, signed, interval, logs, e, val)
    requires e % n == keys[k] && NoneLater(interval, n, logs, keys[k], e)
    ensures var now := if e in values then values else values[e := val];
      Aggregates(agg, signed, interval, logs, now) && Shown(interval, n, logs, keys, k + 1, now)
  {
    hide IsAggregate, NoneLater;
    var now := if e in values then values else values[e := val];
    assert BucketShown(interval, n, logs, keys[k], now);
    forall i | 0 <= i < k ensures BucketShown(interval, n, logs, keys[i], now) {
      assert BucketShown(interval, n, logs, keys[i], values);
    }
  }

  lemma RecordedInRing(
      agg: Agg, signed: bool, interval: nat, n: nat, cpus: nat, buckets: map<nat, seq<Cell>>, logs: Logs,
      e: nat, ev: Event)
    requires RingHolds(agg, signed, interval, n, cpus, buckets, logs) && RecordedAt(interval, logs, e, ev)
    ensures e % n in buckets
  {
    hide BucketHolds, Untouched, RecordedAt, Clocked;
    RecordedTouches(interval, n, logs, e, ev);
  }

  // A point of the series: the aggregate of the calls of its epoch, or a hole when there were none.
  ghost predicate PointShows(agg: Agg, signed: bool, interval: nat, logs: Logs, point: Point<int>)
    requires interval > 0
  {
    match point.value
    case None => forall ev :: !RecordedAt(interval, logs, point.epoch, ev)
    case Some(val) => IsAggregate(agg, signed, interval, logs, point.epoch, val)
  }

  class Ring {
    const agg: Agg
    const signed: bool
    const interval: nat
    const n: nat
    const cpus: nat
    var buckets: map<nat, seq<Cell>>
    ghost var logs: Logs

    ghost predicate Valid()
      reads this
    {
      0 < n < TWO64 && RingHolds(agg, signed, interval, n, cpus, buckets, logs)
    }

    constructor (agg: Agg, signed: bool, interval: nat, n: nat, cpus: nat)
      requires interval > 0 && 0 < n < TWO64
      ensures Valid() && fresh(this) && this.n == n && this.interval == interval && this.agg == agg
      ensures this.signed == signed && logs == seq(cpus, _ => [])
    {
      this.agg, this.signed, this.interval, this.n, this.cpus := agg, signed, interval, n, cpus;
      buckets, logs := map[], seq(cpus, _ => []);
    }

    // A call of tseries() on processor p; a new key starts unused on the other processors.
    method Record(p: nat, now: nat, val: int)
      requires Valid() && p < cpus && Clocked(interval, logs[p] + [Event(now, val)])
      modifies this
      ensures Valid() && logs == old(logs)[p := old(logs)[p] + [Event(now, val)]]
    {
      var epoch := now / interval;
      var b := epoch % n;
      var cells := if b in buckets then buckets[b] else seq(cpus, _ => UNUSED);
      var cell := if b in buckets then cells[p] else Cell(0, 0, epoch);
      ghost var was, before, ev := logs, buckets, Event(now, val);
      assert Epoch(interval, ev) == epoch && Bucket(interval, n, ev) == b;
      logs := logs[p := logs[p] + [ev]];
      buckets := buckets[b := cells[p := Store(agg, signed, cell, now, val, epoch)]];
      hide RingHolds, Store, Clocked, Epoch, Bucket;
      RecordKeeps(agg, signed, interval, n, cpus, before, was, p, ev, cells, cell);
    }

    method ReduceBucket(b: nat) returns (e: nat, val: int)
      requires Valid() && b in buckets
      ensures IsAggregate(agg, signed, interval, logs, e, val)
      ensures e % n == b && NoneLater(interval, n, logs, b, e)
    {
      assert BucketHolds(agg, signed, interval, n, logs, b, buckets[b]);
      hide RingHolds, BucketHolds, IsAggregate, IsLatestCell, NoneLater, Finish, FoldAt;
      UsedCounts(agg, signed, interval, n, logs, b, buckets[b]);
      e, val := Reduce(agg, signed, buckets[b]);
      BucketReduces(agg, signed, interval, n, logs, b, buckets[b], e);
    }

    // Collecting the reduced buckets, in the order of the given keys; the first value of an epoch stays.
    method Collect(keys: seq<nat>) returns (values: Values<int>)
      requires Valid() && forall i :: 0 <= i < |keys| ==> keys[i] in buckets
      ensures Aggregates(agg, signed, interval, logs, values)
      ensures Shown(interval, n, logs, keys, |keys|, values)
    {
      values := map[];
      NothingShown(agg, signed, interval, n, logs, keys);
      assert interval > 0 && n > 0;
      hide RingHolds, BucketHolds, Untouched, Clocked, IsAggregate, NoneLater, Shown, Aggregates, BucketShown;
      for i := 0 to |keys|
        invariant Aggregates(agg, signed, interval, logs, values)
        invariant Shown(interval, n, logs, keys, i, values)
      {
        var e, val := ReduceBucket(keys[i]);
        BucketCollected(agg, signed, interval, n, logs, values, keys, i, e, val);
        if e !in values {
          values := values[e := val];
        }
      }
    }

    // Laying the collected values out over the window of n epochs that ends at `last`.
    method Print(keys: seq<nat>, last: nat) returns (series: seq<Point<int>>)
      requires Valid() && (forall i :: 0 <= i < |keys| ==> keys[i] in buckets) && n <= last + 1 && last < TWO64 - 1
      requires forall b :: b in buckets ==> exists i :: 0 <= i < |keys| && keys[i] == b
      requires forall p, ev :: 0 <= p < cpus && ev in logs[p] ==> Epoch(interval, ev) <= last
      ensures 1 <= |series| <= n
      ensures forall i :: 0 <= i < |series| ==> series[i].epoch == last + 1 - |series| + i
      ensures forall i :: 0 <= i < |series| ==> PointShows(agg, signed, interval, logs, series[i])
      ensures forall e, ev :: last + 1 - n <= e && RecordedAt(interval, logs, e, ev) ==>
        last + 1 - |series| <= e <= last
    {
      hide IsAggregate, Untouched, RecordedAt, BucketShown, BucketHolds;
      var values := Collect(keys);
      hide RingHolds;
      forall e, ev | last + 1 - n <= e && RecordedAt(interval, logs, e, ev) ensures e in values && e <= last {
        RecordedInRing(agg, signed, interval, n, cpus, buckets, logs, e, ev);
        RecordedShown(agg, signed, interval, n, logs, values, last, e, ev);
      }
      assert WindowStart(last, n) == last + 1 - n;
      series := BuildTimeSeries(values, WindowStart(last, n), last);
    }
  }
}
