/**
 Time series maps: collecting the values of each key by epoch (src/bpfmap.cpp:186-220) and laying
 them out as runs of consecutive epochs (src/types_format.cpp:481-509, 589-641).
 */
module TimeSeries {
  import opened Prelude

  const TWO64: nat := 0x1_0000_0000_0000_0000

  type Values<T> = map<nat, T>

  datatype Point<T> = Point(epoch: nat, value: Option<T>)

  function Lookup<T>(values: Values<T>, epoch: nat): Option<T> {
    if epoch in values then Some(values[epoch]) else None
  }

  // The first epoch of a window of n epochs that ends at `last`, in 64-bit arithmetic.
  function WindowStart(last: nat, n: nat): nat
    requires last < TWO64 && n < TWO64
  {
    (last + TWO64 - n + 1) % TWO64
  }

  // A gap-free run of epochs that ends at `last`, inside the window, holding every value of the
  // window at its epoch and nothing elsewhere, and not starting with a hole unless it is one.
  ghost predicate IsSeries<T>(values: Values<T>, first: nat, last: nat, series: seq<Point<T>>) {
    if first > last then series == []
    else
      && 1 <= |series| <= last + 1 - first
      && (forall i :: 0 <= i < |series| ==> series[i].epoch == last + 1 - |series| + i)
      && (forall i :: 0 <= i < |series| ==> series[i].value == Lookup(values, series[i].epoch))
      && (forall e :: e in values && first <= e <= last ==> last + 1 - |series| <= e)
      && (|series| > 1 ==> series[0].value.Some?)
  }

  // That describes one series only.
  lemma SeriesUnique<T>(values: Values<T>, first: nat, last: nat, a: seq<Point<T>>, b: seq<Point<T>>)
    requires IsSeries(values, first, last, a) && IsSeries(values, first, last, b)
    ensures a == b
  {
    if first <= last {
      NotLonger(values, first, last, a, b);
      NotLonger(values, first, last, b, a);
      assert forall i :: 0 <= i < |a| ==> a[i] == b[i];
    }
  }

  lemma NotLonger<T>(values: Values<T>, first: nat, last: nat, a: seq<Point<T>>, b: seq<Point<T>>)
    requires first <= last && IsSeries(values, first, last, a) && IsSeries(values, first, last, b)
    ensures |a| <= |b|
  {
    if |a| > 1 {
      assert a[0].epoch in values;
    }
  }

  // Every value of the window appears exactly once, every other point is a hole.
  lemma ValueOnce<T>(values: Values<T>, first: nat, last: nat, series: seq<Point<T>>, e: nat)
    requires IsSeries(values, first, last, series) && first <= e <= last
    ensures e in values ==>
      var i := e + |series| - last - 1;
      && 0 <= i < |series| && series[i] == Point(e, Some(values[e]))
      && forall j :: 0 <= j < |series| && series[j].epoch == e ==> j == i
    ensures e !in values ==> forall j :: 0 <= j < |series| && series[j].epoch == e ==> series[j].value == None
  {
  }

  // A window of n epochs that does not reach below epoch 0 gives at least one and at most n points;
  // one that does gives none, although there may be values to show.
  lemma EmptyIffUnderflow<T>(values: Values<T>, last: nat, n: nat, series: seq<Point<T>>)
    requires last < TWO64 - 1 && n < TWO64 && IsSeries(values, WindowStart(last, n), last, series)
    ensures series == [] <==> n == 0 || last + 1 < n
    ensures |series| <= n
  {
    if 0 < n <= last + 1 {
      assert WindowStart(last, n) == last + 1 - n;
    } else if n == 0 {
      assert WindowStart(last, n) == last + 1;
    } else {
      assert WindowStart(last, n) == last + TWO64 - n + 1;
    }
  }

  lemma UnderflowLosesValues()
    ensures var values: Values<nat> := map[5 := 1];
      IsSeries(values, WindowStart(5, 10), 5, [])
  {
    assert WindowStart(5, 10) == TWO64 - 4;
  }

  // The loop over the window counts up to `last` inclusively in 64 bits, so it ends only when
  // `last` is not the greatest number of 64 bits.
  method BuildTimeSeries<T>(values: Values<T>, first: nat, last: nat) returns (series: seq<Point<T>>)
    requires first < TWO64 && last < TWO64 - 1
    ensures IsSeries(values, first, last, series)
  {
    var start := last;
    var todo := values.Keys;
    while todo != {}
      invariant todo <= values.Keys
      invariant start <= last && (start == last || (start in values && first <= start))
      invariant forall e :: e in values && e !in todo && first <= e ==> start <= e
      decreases |todo|
    {
      var e :| e in todo;
      todo := todo - {e};
      if first <= e && e < start {
        start := e;
      }
    }
    series := [];
    var epoch := first;
    while epoch <= last
      invariant first <= epoch && (first <= last ==> epoch <= last + 1)
      invariant |series| == if first > last || epoch <= start then 0 else epoch - start
      invariant forall i :: 0 <= i < |series| ==> series[i] == Point(start + i, Lookup(values, start + i))
      decreases last + 1 - epoch
    {
      if epoch >= start {
        series := series + [Point(epoch, Lookup(values, epoch))];
      }
      epoch := (epoch + 1) % TWO64;
    }
  }

  // All keys.

  ghost predicate IsLatest<K, T>(all: map<K, Values<T>>, last: nat) {
    && (forall k, e :: k in all && e in all[k] ==> e <= last)
    && (last == 0 || exists k :: k in all && last in all[k])
  }

  method LatestEpoch<T>(values: Values<T>) returns (latest: nat)
    ensures forall e :: e in values ==> e <= latest
    ensures latest == 0 || latest in values
  {
    latest := 0;
    var todo := values.Keys;
    while todo != {}
      invariant todo <= values.Keys
      invariant forall e :: e in values && e !in todo ==> e <= latest
      invariant latest == 0 || latest in values
      decreases |todo|
    {
      var e :| e in todo;
      todo := todo - {e};
      if latest < e {
        latest := e;
      }
    }
  }

  // All series end at the latest epoch of any key, so they cover the same window.
  method FormatTimeSeries<K(==), T>(all: map<K, Values<T>>, n: nat)
      returns (printed: map<K, seq<Point<T>>>, last: nat)
    requires n < TWO64
    requires forall k, e :: k in all && e in all[k] ==> e < TWO64 - 1
    ensures printed.Keys == all.Keys
    ensures all != map[] ==> IsLatest(all, last)
    ensures forall k :: k in all ==> last < TWO64 - 1 && IsSeries(all[k], WindowStart(last, n), last, printed[k])
  {
    last := 0;
    var todo := all.Keys;
    while todo != {}
      invariant todo <= all.Keys && last < TWO64 - 1
      invariant forall k, e :: k in all && k !in todo && e in all[k] ==> e <= last
      invariant last == 0 || exists k :: k in all && last in all[k]
      decreases |todo|
    {
      var k :| k in todo;
      todo := todo - {k};
      var latest := LatestEpoch(all[k]);
      if last < latest {
        last := latest;
      }
    }
    printed, todo := map[], all.Keys;
    while todo != {}
      invariant todo <= all.Keys && printed.Keys == all.Keys - todo
      invariant forall k :: k in printed ==> IsSeries(all[k], WindowStart(last, n), last, printed[k])
      decreases |todo|
    {
      var k :| k in todo;
      todo := todo - {k};
      var series := BuildTimeSeries(all[k], WindowStart(last, n), last);
      printed := printed[k := series];
    }
  }

  // Collection.

  // One entry of the kernel map: the key without its bucket number, and the epoch and the value
  // that the bucket holds after reduction over the processors.
  datatype Reading<K, T> = Reading(key: K, epoch: nat, value: T)

  // Each reading is stored, unless an earlier one had the same key and epoch; nothing else is.
  ghost predicate Collected<K, T>(readings: seq<Reading<K, T>>, n: nat, all: map<K, Values<T>>)
    requires n <= |readings|
  {
    && (forall i :: 0 <= i < n && IsFirst(readings, i) ==> Stored(all, readings[i]))
    && (forall k :: k in all ==> all[k] != map[])
    && (forall k, e :: k in all && e in all[k] ==> Origin(readings, n, k, e))
  }

  ghost predicate Stored<K, T>(all: map<K, Values<T>>, r: Reading<K, T>) {
    r.key in all && r.epoch in all[r.key] && all[r.key][r.epoch] == r.value
  }

  ghost predicate Origin<K, T>(readings: seq<Reading<K, T>>, n: nat, key: K, epoch: nat)
    requires n <= |readings|
  {
    exists i :: 0 <= i < n && readings[i].key == key && readings[i].epoch == epoch && IsFirst(readings, i)
  }

  ghost predicate IsFirst<K, T>(readings: seq<Reading<K, T>>, i: nat)
    requires i < |readings|
  {
    forall j :: 0 <= j < i ==> readings[j].key != readings[i].key || readings[j].epoch != readings[i].epoch
  }

  method CollectTimeSeries<K(==), T>(readings: seq<Reading<K, T>>) returns (all: map<K, Values<T>>)
    ensures Collected(readings, |readings|, all)
  {
    all := map[];
    NoReadings(readings);
    hide Collected;
    for i := 0 to |readings|
      invariant Collected(readings, i, all)
    {
      var r := readings[i];
      var values: Values<T> := if r.key in all then all[r.key] else map[];
      if r.epoch !in values {
        values := values[r.epoch := r.value];
      }
      OneMoreReading(readings, i, all);
      all := all[r.key := values];
    }
  }

  lemma NoReadings<K, T>(readings: seq<Reading<K, T>>)
    ensures Collected<K, T>(readings, 0, map[])
  {
  }

  // The collection after one more reading.
  function AddReading<K, T>(was: map<K, Values<T>>, r: Reading<K, T>): map<K, Values<T>> {
    var values := if r.key in was then was[r.key] else map[];
    was[r.key := if r.epoch in values then values else values[r.epoch := r.value]]
  }

  lemma OneMoreReading<K, T>(readings: seq<Reading<K, T>>, n: nat, was: map<K, Values<T>>)
    requires n < |readings| && Collected(readings, n, was)
    ensures Collected(readings, n + 1, AddReading(was, readings[n]))
  {
    hide IsFirst, AddReading;
    var now := AddReading(was, readings[n]);
    FirstsStored(readings, n, was);
    forall k, e | k in now && e in now[k] ensures Origin(readings, n + 1, k, e) {
      OriginNext(readings, n, was, k, e);
    }
    StillNonEmpty(was, readings[n]);
  }

  lemma StoredIsRepeated<K, T>(readings: seq<Reading<K, T>>, n: nat, was: map<K, Values<T>>)
    requires n < |readings| && Collected(readings, n, was)
    requires readings[n].key in was && readings[n].epoch in was[readings[n].key]
    ensures !IsFirst(readings, n)
  {
    assert Origin(readings, n, readings[n].key, readings[n].epoch);
  }

  lemma StillNonEmpty<K, T>(was: map<K, Values<T>>, r: Reading<K, T>)
    requires forall k :: k in was ==> was[k] != map[]
    ensures forall k :: k in AddReading(was, r) ==> AddReading(was, r)[k] != map[]
  {
    assert r.epoch in AddReading(was, r)[r.key];
  }

  lemma FirstsStored<K, T>(readings: seq<Reading<K, T>>, n: nat, was: map<K, Values<T>>)
    requires n < |readings| && Collected(readings, n, was)
    ensures forall i :: 0 <= i < n + 1 && IsFirst(readings, i) ==> Stored(AddReading(was, readings[n]), readings[i])
  {
    hide IsFirst;
    var r := readings[n];
    if r.key in was && r.epoch in was[r.key] {
      StoredIsRepeated(readings, n, was);
    }
    forall i | 0 <= i < n + 1 && IsFirst(readings, i) ensures Stored(AddReading(was, r), readings[i]) {
      if i < n {
        assert Stored(was, readings[i]);
      }
    }
  }

  lemma OriginNext<K, T>(readings: seq<Reading<K, T>>, n: nat, was: map<K, Values<T>>, k: K, e: nat)
    requires n < |readings| && Collected(readings, n, was)
    requires k in AddReading(was, readings[n]) && e in AddReading(was, readings[n])[k]
    ensures Origin(readings, n + 1, k, e)
  {
    hide IsFirst;
    if k in was && e in was[k] {
      assert Origin(readings, n, k, e);
    } else {
      NewIsFirst(readings, n, was);
    }
  }

  lemma NewIsFirst<K, T>(readings: seq<Reading<K, T>>, n: nat, was: map<K, Values<T>>)
    requires n < |readings| && Collected(readings, n, was)
    requires readings[n].key !in was || readings[n].epoch !in was[readings[n].key]
    ensures IsFirst(readings, n)
  {
    forall j | 0 <= j < n ensures readings[j].key != readings[n].key || readings[j].epoch != readings[n].epoch {
      var i := FirstOf(readings, j);
      assert Stored(was, readings[i]);
    }
  }

  lemma {:induction false} FirstOf<K, T>(readings: seq<Reading<K, T>>, j: nat) returns (i: nat)
    requires j < |readings|
    ensures i <= j && readings[i].key == readings[j].key && readings[i].epoch == readings[j].epoch
    ensures IsFirst(readings, i)
    decreases j
  {
    if IsFirst(readings, j) {
      i := j;
    } else {
      var k :| 0 <= k < j && readings[k].key == readings[j].key && readings[k].epoch == readings[j].epoch;
      i := FirstOf(readings, k);
    }
  }

  // The readings alone determine what is collected.
  lemma CollectedUnique<K, T>(readings: seq<Reading<K, T>>, a: map<K, Values<T>>, b: map<K, Values<T>>)
    requires Collected(readings, |readings|, a) && Collected(readings, |readings|, b)
    ensures a == b
  {
    hide Collected;
    forall k | k in a ensures k in b { SameKey(readings, a, b, k); }
    forall k | k in b ensures k in a { SameKey(readings, b, a, k); }
    assert a.Keys == b.Keys;
    forall k | k in a ensures a[k] == b[k] {
      SameKey(readings, a, b, k);
      SameKey(readings, b, a, k);
      assert a[k].Keys == b[k].Keys;
    }
  }

  lemma SameKey<K, T>(readings: seq<Reading<K, T>>, a: map<K, Values<T>>, b: map<K, Values<T>>, k: K)
    requires Collected(readings, |readings|, a) && Collected(readings, |readings|, b) && k in a
    ensures k in b && forall e :: e in a[k] ==> e in b[k] && b[k][e] == a[k][e]
  {
    forall e | e in a[k] ensures k in b && e in b[k] && b[k][e] == a[k][e] {
      assert Origin(readings, |readings|, k, e);
      var i :| 0 <= i < |readings| && readings[i].key == k && readings[i].epoch == e && IsFirst(readings, i);
      assert Stored(a, readings[i]) && Stored(b, readings[i]);
    }
    var e :| e in a[k];
  }
}
