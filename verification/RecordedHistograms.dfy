/**
 From the calls of `hist` and `lhist` on all processors to the printed histograms: recording into a
 per-CPU map (src/ast/passes/codegen_llvm.cpp:1011-1076), collecting it (src/bpfmap.cpp:152-184) and
 printing one histogram for each key (src/types_format.cpp:511-584).
 */
module RecordedHistograms {
  import opened Bytes
  import opened LogBuckets
  import opened LinearBuckets
  import opened Histograms
  import opened LinearHistograms
  import opened HistogramData
  import T = TopEntries
  import L = Layout

  // How samples are put into buckets.
  datatype AnyScheme = Log(k: nat) | Linear(min: int, max: int, step: int)

  predicate IsValidScheme(s: AnyScheme) {
    match s
    case Log(k) => k <= 5
    case Linear(min, max, step) => ValidBounds(min, max, step) && (max - min) / step <= 1000
  }

  type Scheme = s: AnyScheme | IsValidScheme(s) witness Log(0)

  // The bucket b is the one computed for the sample.
  predicate Lands(v: int, b: nat, scheme: Scheme) {
    match scheme
    case Log(k) => InBucket(v, b, k)
    case Linear(min, max, step) => b == LinearBucket(v, min, max, step)
  }

  // The cells of a key's vector.
  function Width(scheme: Scheme): (w: nat)
    ensures w < WORD_RANGE
  {
    if scheme.Log? then BUCKETS else LINEAR_BUCKETS
  }

  // How many samples land in bucket b.
  function Landed(samples: seq<int>, b: nat, scheme: Scheme): nat {
    if samples == [] then 0
    else (if Lands(samples[0], b, scheme) then 1 else 0) + Landed(samples[1..], b, scheme)
  }

  function Counts(samples: seq<int>, scheme: Scheme): (values: seq<nat>)
    ensures |values| == Width(scheme)
  {
    seq(Width(scheme), i requires 0 <= i < Width(scheme) => Landed(samples, i, scheme))
  }

  lemma LandsOnce(v: int, b: nat, c: nat, scheme: Scheme)
    requires Lands(v, b, scheme) && Lands(v, c, scheme)
    ensures b == c
  {
    if scheme.Log? {
      BucketUnique(v, b, c, scheme.k);
    }
  }

  lemma LandsInside(v: int, scheme: Scheme) returns (b: nat)
    requires INT64_MIN <= v <= INT64_MAX
    ensures Lands(v, b, scheme) && b < Width(scheme)
  {
    match scheme
    case Log(k) =>
      b := BucketExists(v, k);
      BucketRange(k);
    case Linear(min, max, step) =>
      QuotientOrdered(max, max, min, step);
      LinearBucketExact(v, 0, min, max, step);
      b := LinearBucket(v, min, max, step);
  }

  // The counts are the tallies of the two kinds.
  lemma CountsAreTally(samples: seq<int>, scheme: Scheme)
    requires AllInt64(samples)
    ensures |Counts(samples, scheme)| == if scheme.Log? then 2080 else 1002
    ensures scheme.Log? ==> Counts(samples, scheme) == Tally(samples, scheme.k)
    ensures scheme.Linear? ==> Counts(samples, scheme) == LinearTally(samples, scheme.min, scheme.max, scheme.step)
  {
    hide InBucket, InLinearBucket, LinearBucket;
    forall b | 0 <= b < Width(scheme)
      ensures scheme.Log? ==> Landed(samples, b, scheme) == CountIn(samples, b, scheme.k)
      ensures scheme.Linear? ==>
        Landed(samples, b, scheme) == LinearTally(samples, scheme.min, scheme.max, scheme.step)[b]
    {
      if scheme.Log? {
        LandedLog(samples, b, scheme);
      } else {
        LandedLinear(samples, b, scheme);
      }
    }
  }

  lemma {:induction false} LandedLog(samples: seq<int>, b: nat, scheme: Scheme)
    requires scheme.Log?
    ensures Landed(samples, b, scheme) == CountIn(samples, b, scheme.k)
  {
    hide InBucket;
    if samples != [] {
      LandedLog(samples[1..], b, scheme);
    }
  }

  lemma {:induction false} LandedLinear(samples: seq<int>, b: nat, scheme: Scheme)
    requires scheme.Linear? && AllInt64(samples)
    ensures Landed(samples, b, scheme)
         == if b > LastLinearBucket(scheme.min, scheme.max, scheme.step) then 0
            else CountInLinear(samples, b, scheme.min, scheme.max, scheme.step)
  {
    hide InLinearBucket, LinearBucket;
    if samples != [] {
      QuotientOrdered(scheme.max, scheme.max, scheme.min, scheme.step);
      LinearBucketExact(samples[0], 0, scheme.min, scheme.max, scheme.step);
      if b <= LastLinearBucket(scheme.min, scheme.max, scheme.step) {
        LinearBucketExact(samples[0], b, scheme.min, scheme.max, scheme.step);
      }
      LandedLinear(samples[1..], b, scheme);
    }
  }

  // One call: the map key, the processor, and the sample.
  datatype Call = Call(key: seq<byte>, cpu: nat, value: int)

  // The samples recorded under a key, in order.
  function SamplesOf(calls: seq<Call>, p: seq<byte>): seq<int> {
    if calls == [] then []
    else
      var n := |calls| - 1;
      SamplesOf(calls[..n], p) + if calls[n].key == p then [calls[n].value] else []
  }

  // The samples under p that fall into bucket b, counted in 64 bits.
  function Recorded(calls: seq<Call>, p: seq<byte>, b: nat, scheme: Scheme): nat {
    Landed(SamplesOf(calls, p), b, scheme) % WORD_RANGE
  }

  // The tally that a key's vector holds.
  function Wrapped(values: seq<nat>): (r: seq<nat>)
    ensures |r| == |values|
  {
    seq(|values|, i requires 0 <= i < |values| => values[i] % WORD_RANGE)
  }

  // The entry of the map for key p and bucket b.
  function EntryKey(p: seq<byte>, b: nat): (key: seq<byte>)
    ensures |key| == |p| + 8
  {
    p + ToLE(8, b)
  }

  predicate ValidCalls(calls: seq<Call>, keySize: nat, cpus: nat) {
    forall i :: 0 <= i < |calls| ==>
      |calls[i].key| == keySize && calls[i].cpu < cpus && INT64_MIN <= calls[i].value <= INT64_MAX
  }

  // The processors' counters of every entry add up to the samples of its key and bucket, and every
  // sample has its entry.
  ghost predicate Describes(counts: map<seq<byte>, seq<nat>>, calls: seq<Call>, keySize: nat, scheme: Scheme, cpus: nat) {
    && (forall key :: key in counts ==> EntryHolds(key, counts[key], calls, keySize, scheme, cpus))
    && AllEntered(counts, calls, keySize, scheme)
  }

  predicate EntryHolds(key: seq<byte>, percpu: seq<nat>, calls: seq<Call>, keySize: nat, scheme: Scheme, cpus: nat) {
    && |key| == keySize + 8 && |percpu| == cpus && FromLE(key[keySize..]) < Width(scheme)
    && ReduceWords(percpu) == Recorded(calls, key[..keySize], FromLE(key[keySize..]), scheme)
    && SamplesOf(calls, key[..keySize]) != []
  }

  ghost predicate AllEntered(counts: map<seq<byte>, seq<nat>>, calls: seq<Call>, keySize: nat, scheme: Scheme) {
    forall p, b :: |p| == keySize && Landed(SamplesOf(calls, p), b, scheme) > 0 ==> EntryKey(p, b) in counts
  }

  // Counting.

  lemma {:induction false} LandedAppends(s: seq<int>, t: seq<int>, b: nat, scheme: Scheme)
    ensures Landed(s + t, b, scheme) == Landed(s, b, scheme) + Landed(t, b, scheme)
  {
    hide Lands;
    if s == [] {
      assert s + t == t;
    } else {
      assert (s + t)[1..] == s[1..] + t;
      LandedAppends(s[1..], t, b, scheme);
    }
  }

  lemma LandedNext(calls: seq<Call>, call: Call, p: seq<byte>, b: nat, scheme: Scheme)
    ensures Landed(SamplesOf(calls + [call], p), b, scheme)
            == Landed(SamplesOf(calls, p), b, scheme) + if call.key == p && Lands(call.value, b, scheme) then 1 else 0
  {
    hide Lands;
    assert (calls + [call])[..|calls|] == calls;
    assert SamplesOf(calls, p) + [] == SamplesOf(calls, p);
    LandedAppends(SamplesOf(calls, p), [call.value], b, scheme);
    assert [call.value][1..] == [];
    assert Landed([call.value], b, scheme) == if Lands(call.value, b, scheme) then 1 else 0;
  }

  lemma EntryParts(p: seq<byte>, b: nat)
    requires b < WORD_RANGE
    ensures EntryKey(p, b)[..|p|] == p && FromLE(EntryKey(p, b)[|p|..]) == b
  {
    EightBytes();
    ReadBack(8, b);
    assert EntryKey(p, b)[|p|..] == ToLE(8, b);
  }

  lemma KeyOfParts(key: seq<byte>, keySize: nat)
    requires |key| == keySize + 8
    ensures EntryKey(key[..keySize], FromLE(key[keySize..])) == key
  {
    WriteBack(key[keySize..]);
    assert key == key[..keySize] + key[keySize..];
  }

  // One processor's counter goes up by one, in 64 bits.
  function Bumped(percpu: seq<nat>, cpu: nat): (r: seq<nat>)
    requires cpu < |percpu|
    ensures |r| == |percpu|
  {
    percpu[cpu := (percpu[cpu] + 1) % WORD_RANGE]
  }

  lemma {:induction false} ReduceBumped(percpu: seq<nat>, cpu: nat)
    requires cpu < |percpu|
    ensures ReduceWords(Bumped(percpu, cpu)) == (ReduceWords(percpu) + 1) % WORD_RANGE
  {
    var r := Bumped(percpu, cpu);
    if cpu == 0 {
      assert r[1..] == percpu[1..];
      ModOnce(percpu[0] + 1, ReduceWords(percpu[1..]));
      ModOnce(percpu[0] + ReduceWords(percpu[1..]), 1);
    } else {
      assert r[1..] == Bumped(percpu[1..], cpu - 1);
      ReduceBumped(percpu[1..], cpu - 1);
      ModOnce(ReduceWords(percpu[1..]) + 1, percpu[0]);
      ModOnce(percpu[0] + ReduceWords(percpu[1..]), 1);
    }
  }

  lemma ModOnce(a: nat, b: nat)
    ensures (a % WORD_RANGE + b) % WORD_RANGE == (a + b) % WORD_RANGE
  {
    var q := a / WORD_RANGE;
    assert a + b == a % WORD_RANGE + b + q * WORD_RANGE;
  }

  lemma {:induction false} ReduceZeros(n: nat)
    ensures ReduceWords(Zeros(n)) == 0
  {
    if n > 0 {
      assert Zeros(n)[1..] == Zeros(n - 1);
      ReduceZeros(n - 1);
    }
  }

  // One call.
  lemma DescribesNext(counts: map<seq<byte>, seq<nat>>, calls: seq<Call>, call: Call, b: nat, keySize: nat, scheme: Scheme,
                      cpus: nat)
    requires Describes(counts, calls, keySize, scheme, cpus) && |call.key| == keySize && call.cpu < cpus
    requires Lands(call.value, b, scheme) && b < Width(scheme)
    ensures var key := EntryKey(call.key, b);
      (key in counts ==> |counts[key]| == cpus)
      && Describes(counts[key := Bumped(if key in counts then counts[key] else Zeros(cpus), call.cpu)],
                   calls + [call], keySize, scheme, cpus)
  {
    hide Lands, EntryHolds, AllEntered, EntryKey, Bumped, Zeros;
    var key := EntryKey(call.key, b);
    if key in counts {
      CountersFit(key, counts[key], calls, keySize, scheme, cpus);
    }
    var was := if key in counts then counts[key] else Zeros(cpus);
    var now := counts[key := Bumped(was, call.cpu)];
    EnteredNext(counts, calls, call, b, keySize, scheme, Bumped(was, call.cpu));
    forall x | x in now ensures EntryHolds(x, now[x], calls + [call], keySize, scheme, cpus) {
      if x == key {
        BumpedHolds(counts, calls, call, b, keySize, scheme, cpus);
      } else {
        OtherHolds(x, counts[x], calls, call, b, keySize, scheme, cpus);
      }
    }
  }

  lemma CountersFit(key: seq<byte>, percpu: seq<nat>, calls: seq<Call>, keySize: nat, scheme: Scheme, cpus: nat)
    requires EntryHolds(key, percpu, calls, keySize, scheme, cpus)
    ensures |percpu| == cpus
  {
  }

  lemma BumpedHolds(counts: map<seq<byte>, seq<nat>>, calls: seq<Call>, call: Call, b: nat, keySize: nat,
                    scheme: Scheme, cpus: nat)
    requires |call.key| == keySize && call.cpu < cpus && Lands(call.value, b, scheme) && b < Width(scheme)
    requires AllEntered(counts, calls, keySize, scheme)
    requires var key := EntryKey(call.key, b);
      key in counts ==> EntryHolds(key, counts[key], calls, keySize, scheme, cpus)
    ensures var key := EntryKey(call.key, b);
      (key in counts ==> |counts[key]| == cpus)
      && EntryHolds(key, Bumped(if key in counts then counts[key] else Zeros(cpus), call.cpu), calls + [call], keySize,
                    scheme, cpus)
  {
    hide Lands, ReduceWords, Landed, SamplesOf, FromLE, Bumped;
    var key := EntryKey(call.key, b);
    var was := if key in counts then counts[key] else Zeros(cpus);
    EntryParts(call.key, b);
    hide EntryKey;
    ReduceBumped(was, call.cpu);
    ReduceZeros(cpus);
    LandedNext(calls, call, call.key, b, scheme);
    SamplesStay(calls, call, call.key);
    ModOnce(Landed(SamplesOf(calls, call.key), b, scheme), 1);
  }

  lemma OtherHolds(x: seq<byte>, percpu: seq<nat>, calls: seq<Call>, call: Call, b: nat, keySize: nat, scheme: Scheme,
                   cpus: nat)
    requires EntryHolds(x, percpu, calls, keySize, scheme, cpus) && Lands(call.value, b, scheme)
    requires x != EntryKey(call.key, b)
    ensures EntryHolds(x, percpu, calls + [call], keySize, scheme, cpus)
  {
    hide Lands, ReduceWords, Landed, SamplesOf, FromLE, EntryKey;
    var p, c := x[..keySize], FromLE(x[keySize..]);
    LandedNext(calls, call, p, c, scheme);
    SamplesStay(calls, call, p);
    if p == call.key && Lands(call.value, c, scheme) {
      LandsOnce(call.value, b, c, scheme);
      KeyOfParts(x, keySize);
    }
  }

  lemma EnteredNext(counts: map<seq<byte>, seq<nat>>, calls: seq<Call>, call: Call, b: nat, keySize: nat, scheme: Scheme,
                    percpu: seq<nat>)
    requires AllEntered(counts, calls, keySize, scheme) && Lands(call.value, b, scheme)
    ensures AllEntered(counts[EntryKey(call.key, b) := percpu], calls + [call], keySize, scheme)
  {
    hide Lands, Landed, SamplesOf, EntryKey;
    var now := counts[EntryKey(call.key, b) := percpu];
    forall p, c | |p| == keySize && Landed(SamplesOf(calls + [call], p), c, scheme) > 0 ensures EntryKey(p, c) in now {
      LandedNext(calls, call, p, c, scheme);
      if p == call.key && Lands(call.value, c, scheme) {
        LandsOnce(call.value, b, c, scheme);
      }
    }
  }

  lemma ValidNext(calls: seq<Call>, call: Call, keySize: nat, cpus: nat)
    requires ValidCalls(calls, keySize, cpus) && ValidCalls([call], keySize, cpus)
    ensures ValidCalls(calls + [call], keySize, cpus)
    ensures |call.key| == keySize && call.cpu < cpus && INT64_MIN <= call.value <= INT64_MAX
  {
    assert call == [call][0];
  }

  lemma SamplesStay(calls: seq<Call>, call: Call, p: seq<byte>)
    ensures SamplesOf(calls, p) != [] || call.key == p ==> SamplesOf(calls + [call], p) != []
  {
    assert (calls + [call])[..|calls|] == calls;
  }

  lemma {:induction false} SamplesAreInt64(calls: seq<Call>, keySize: nat, cpus: nat, p: seq<byte>)
    requires ValidCalls(calls, keySize, cpus)
    ensures AllInt64(SamplesOf(calls, p)) && |SamplesOf(calls, p)| <= |calls|
  {
    if calls != [] {
      SamplesAreInt64(calls[..|calls| - 1], keySize, cpus, p);
    }
  }

  // Collecting.

  function Entries(counts: map<seq<byte>, seq<nat>>, keys: seq<seq<byte>>): (es: seq<HistogramData.Entry>)
    requires forall i :: 0 <= i < |keys| ==> keys[i] in counts
    ensures |es| == |keys|
  {
    seq(|keys|, i requires 0 <= i < |keys| => HistogramData.Entry(keys[i], Found(counts[keys[i]])))
  }

  lemma {:induction false} CellFound(es: seq<HistogramData.Entry>, keySize: nat, i: nat)
    requires AllShaped(es, keySize) && DistinctKeys(es) && i < |es| && es[i].lookup.Found?
    ensures Cell(es, keySize, Prefix(es[i], keySize), Bucket(es[i], keySize)) == ReduceWords(es[i].lookup.percpu)
  {
    hide ReduceWords, Bucket;
    var n := |es| - 1;
    if i < n {
      assert es[i].key != es[n].key;
      if Prefix(es[i], keySize) == Prefix(es[n], keySize) {
        SameKey(es[i], es[n], keySize);
      }
      assert es[..n][i] == es[i];
      CellFound(es[..n], keySize, i);
    }
  }

  lemma {:induction false} NoFailure(es: seq<HistogramData.Entry>, keySize: nat, width: nat)
    requires AllShaped(es, keySize)
    requires forall i :: 0 <= i < |es| ==> EntryError(es[i], keySize, width).None?
    ensures FirstError(es, keySize, width).None?
  {
    if es != [] {
      NoFailure(es[..|es| - 1], keySize, width);
    }
  }

  // The keys of the map, each once, in the order in which the kernel enumerates them.
  ghost predicate Enumerates(keys: seq<seq<byte>>, counts: map<seq<byte>, seq<nat>>) {
    && (forall i, j :: 0 <= i < j < |keys| ==> keys[i] != keys[j])
    && (forall i :: 0 <= i < |keys| ==> keys[i] in counts)
    && (forall key :: key in counts ==> key in keys)
  }

  // A collected vector is the tally of the key's samples.
  lemma CollectedTally(counts: map<seq<byte>, seq<nat>>, calls: seq<Call>, keys: seq<seq<byte>>, keySize: nat,
                       scheme: Scheme, cpus: nat, p: seq<byte>)
    requires Describes(counts, calls, keySize, scheme, cpus) && Enumerates(keys, counts) && |p| == keySize
    requires forall i :: 0 <= i < |keys| ==> keys[i] in counts
    requires AllShaped(Entries(counts, keys), keySize)
    ensures Cells(Entries(counts, keys), keySize, Width(scheme), p) == Wrapped(Counts(SamplesOf(calls, p), scheme))
  {
    hide *;
    forall b | 0 <= b < Width(scheme) ensures Cell(Entries(counts, keys), keySize, p, b) == Recorded(calls, p, b, scheme) {
      CollectedCell(counts, calls, keys, keySize, scheme, cpus, p, b);
    }
    SameCells(Entries(counts, keys), calls, keySize, scheme, p);
  }

  lemma SameCells(es: seq<HistogramData.Entry>, calls: seq<Call>, keySize: nat, scheme: Scheme, p: seq<byte>)
    requires AllShaped(es, keySize)
    requires forall b :: 0 <= b < Width(scheme) ==> Cell(es, keySize, p, b) == Recorded(calls, p, b, scheme)
    ensures Cells(es, keySize, Width(scheme), p) == Wrapped(Counts(SamplesOf(calls, p), scheme))
  {
    hide Cell, Landed, SamplesOf, AllShaped;
  }

  lemma CollectedCell(counts: map<seq<byte>, seq<nat>>, calls: seq<Call>, keys: seq<seq<byte>>, keySize: nat,
                      scheme: Scheme, cpus: nat, p: seq<byte>, b: nat)
    requires Describes(counts, calls, keySize, scheme, cpus) && Enumerates(keys, counts)
    requires |p| == keySize && b < Width(scheme)
    requires forall i :: 0 <= i < |keys| ==> keys[i] in counts
    requires AllShaped(Entries(counts, keys), keySize)
    ensures Cell(Entries(counts, keys), keySize, p, b) == Recorded(calls, p, b, scheme)
  {
    hide ReduceWords, SamplesOf, Landed, FromLE, Cell;
    var es := Entries(counts, keys);
    EntryParts(p, b);
    hide EntryKey;
    if EntryKey(p, b) in counts {
      var i :| 0 <= i < |keys| && keys[i] == EntryKey(p, b);
      CellFound(es, keySize, i);
      assert EntryHolds(keys[i], counts[keys[i]], calls, keySize, scheme, cpus);
    } else {
      forall i | 0 <= i < |es| && Contributes(es[i], keySize, p) ensures Bucket(es[i], keySize) != b {
        KeyOfParts(keys[i], keySize);
      }
      NoCell(es, keySize, p, b);
    }
  }

  // No lookup fails, and no bucket lies outside the vectors.
  lemma EntriesFit(counts: map<seq<byte>, seq<nat>>, calls: seq<Call>, keys: seq<seq<byte>>, keySize: nat, scheme: Scheme,
                   cpus: nat)
    requires Describes(counts, calls, keySize, scheme, cpus) && Enumerates(keys, counts)
    ensures forall i :: 0 <= i < |keys| ==> keys[i] in counts
    ensures AllShaped(Entries(counts, keys), keySize)
    ensures FirstError(Entries(counts, keys), keySize, Width(scheme)).None?
  {
    hide FirstError, FromLE, SamplesOf, ReduceWords, Recorded;
    NoFailure(Entries(counts, keys), keySize, Width(scheme));
  }

  // The collected vectors are the tallies of the keys that have samples.
  lemma CollectedAll(counts: map<seq<byte>, seq<nat>>, calls: seq<Call>, keys: seq<seq<byte>>, keySize: nat, scheme: Scheme,
                     cpus: nat, values: map<seq<byte>, seq<nat>>)
    requires ValidCalls(calls, keySize, cpus)
    requires Describes(counts, calls, keySize, scheme, cpus) && Enumerates(keys, counts)
    requires forall i :: 0 <= i < |keys| ==> keys[i] in counts
    requires AllShaped(Entries(counts, keys), keySize) && Collected(values, Entries(counts, keys), keySize, Width(scheme))
    ensures forall p :: p in values <==> |p| == keySize && SamplesOf(calls, p) != []
    ensures forall p :: p in values ==> values[p] == Wrapped(Counts(SamplesOf(calls, p), scheme))
  {
    hide *;
    forall p | p in values
      ensures |p| == keySize && SamplesOf(calls, p) != [] && values[p] == Wrapped(Counts(SamplesOf(calls, p), scheme))
    {
      CollectedKey(counts, calls, keys, keySize, scheme, cpus, values, p);
    }
    forall p | |p| == keySize && SamplesOf(calls, p) != [] ensures p in values {
      KeyCollected(counts, calls, keys, keySize, scheme, cpus, values, p);
    }
  }

  lemma CollectedKey(counts: map<seq<byte>, seq<nat>>, calls: seq<Call>, keys: seq<seq<byte>>, keySize: nat, scheme: Scheme,
                     cpus: nat, values: map<seq<byte>, seq<nat>>, p: seq<byte>)
    requires Describes(counts, calls, keySize, scheme, cpus) && Enumerates(keys, counts)
    requires forall i :: 0 <= i < |keys| ==> keys[i] in counts
    requires AllShaped(Entries(counts, keys), keySize) && Collected(values, Entries(counts, keys), keySize, Width(scheme))
    requires p in values
    ensures |p| == keySize && SamplesOf(calls, p) != [] && values[p] == Wrapped(Counts(SamplesOf(calls, p), scheme))
  {
    hide Lands, ReduceWords, SamplesOf, FromLE, Landed, Tally, Wrapped, Cells, Recorded, Enumerates, EntryKey;
    var entries := Entries(counts, keys);
    var i :| 0 <= i < |entries| && Contributes(entries[i], keySize, p);
    assert keys[i] in counts && keys[i][..keySize] == p;
    CollectedTally(counts, calls, keys, keySize, scheme, cpus, p);
  }

  lemma KeyCollected(counts: map<seq<byte>, seq<nat>>, calls: seq<Call>, keys: seq<seq<byte>>, keySize: nat, scheme: Scheme,
                     cpus: nat, values: map<seq<byte>, seq<nat>>, p: seq<byte>)
    requires ValidCalls(calls, keySize, cpus)
    requires Describes(counts, calls, keySize, scheme, cpus) && Enumerates(keys, counts)
    requires forall i :: 0 <= i < |keys| ==> keys[i] in counts
    requires AllShaped(Entries(counts, keys), keySize) && Collected(values, Entries(counts, keys), keySize, Width(scheme))
    requires |p| == keySize && SamplesOf(calls, p) != []
    ensures p in values
  {
    hide Describes, Enumerates, SamplesOf, ValidCalls;
    SampleHasEntry(calls, keySize, scheme, cpus, counts, keys, p);
    var i :| 0 <= i < |keys| && |keys[i]| == keySize + 8 && keys[i][..keySize] == p;
    assert Entries(counts, keys)[i].lookup.Found?;
  }

  class HistogramMap {
    const keySize: nat
    const scheme: Scheme
    const cpus: nat
    // The entries of the kernel's map, each with a counter for every processor.
    var counts: map<seq<byte>, seq<nat>>
    ghost var calls: seq<Call>

    ghost predicate Valid()
      reads this
    {
      ValidCalls(calls, keySize, cpus) && Describes(counts, calls, keySize, scheme, cpus)
    }

    constructor (keySize: nat, scheme: Scheme, cpus: nat)
      ensures Valid() && calls == [] && this.keySize == keySize && this.scheme == scheme && this.cpus == cpus
    {
      this.keySize, this.scheme, this.cpus := keySize, scheme, cpus;
      counts, calls := map[], [];
    }

    // One call of hist or lhist.
    method Record(call: Call)
      requires Valid() && ValidCalls([call], keySize, cpus)
      modifies this
      ensures Valid() && calls == old(calls) + [call]
    {
      hide Describes, InBucket, LastBucket, ReduceWords, Zeros, Bumped, EntryKey;
      ValidNext(calls, call, keySize, cpus);
      var b := BucketOf(call.value, scheme);
      DescribesNext(counts, calls, call, b, keySize, scheme, cpus);
      var key := EntryKey(call.key, b);
      counts := counts[key := Bumped(if key in counts then counts[key] else Zeros(cpus), call.cpu)];
      calls := calls + [call];
    }

    // The dense vector of each key.
    method Collect(keys: seq<seq<byte>>) returns (values: map<seq<byte>, seq<nat>>)
      requires Valid() && Enumerates(keys, counts)
      ensures forall p :: p in values <==> |p| == keySize && SamplesOf(calls, p) != []
      ensures forall p :: p in values ==> values[p] == Wrapped(Counts(SamplesOf(calls, p), scheme))
    {
      hide Describes, Enumerates, SamplesOf, Counts, Wrapped, Collected, FirstError, AllShaped, Entries;
      EntriesFit(counts, calls, keys, keySize, scheme, cpus);
      var r := CollectHistogram(Entries(counts, keys), keySize, Width(scheme));
      values := r.value;
      CollectedAll(counts, calls, keys, keySize, scheme, cpus, values);
    }

    // One histogram for each key that has been recorded under.  Each shows, between its own edges,
    // the samples of its key; with fewer than 2^31 of them, every one is counted once.
    method Print(keys: seq<seq<byte>>) returns (printed: map<seq<byte>, Histogram>)
      requires Valid() && Enumerates(keys, counts)
      ensures forall p :: p in printed <==> |p| == keySize && SamplesOf(calls, p) != []
      ensures forall p :: p in printed ==> ShowsCounts(printed[p], Wrapped(Counts(SamplesOf(calls, p), scheme)), scheme)
      ensures forall p :: p in printed && |SamplesOf(calls, p)| < L.INT_RANGE / 2 ==>
        CountsOnce(printed[p], SamplesOf(calls, p), scheme)
    {
      hide SamplesOf, Counts, Wrapped, ShowsCounts, Describes, Enumerates, CountsOnce, LastBucket;
      var values := Collect(keys);
      printed := map[];
      var rest := values.Keys;
      while rest != {}
        invariant rest <= values.Keys && printed.Keys == values.Keys - rest
        invariant forall p :: p in printed ==>
          ShowsCounts(printed[p], Wrapped(Counts(SamplesOf(calls, p), scheme)), scheme)
        decreases |rest|
      {
        var p :| p in rest;
        SamplesAreInt64(calls, keySize, cpus, p);
        var h := BuildFor(values[p], SamplesOf(calls, p), scheme);
        printed := printed[p := h];
        rest := rest - {p};
      }
      forall p | p in printed && |SamplesOf(calls, p)| < L.INT_RANGE / 2
        ensures CountsOnce(printed[p], SamplesOf(calls, p), scheme)
      {
        SamplesAreInt64(calls, keySize, cpus, p);
        ShownOnce(SamplesOf(calls, p), scheme, printed[p]);
      }
    }
  }

  // The bucket that the generated code computes.
  method BucketOf(v: int, scheme: Scheme) returns (b: nat)
    requires INT64_MIN <= v <= INT64_MAX
    ensures Lands(v, b, scheme) && b < Width(scheme)
  {
    match scheme
    case Log(k) =>
      BucketRange(k);
      b := Log2Bucket(v, k);
    case Linear(min, max, step) =>
      QuotientOrdered(max, max, min, step);
      LinearBucketExact(v, 0, min, max, step);
      b := LinearBucket(v, min, max, step);
  }

  // What a histogram shows of a vector.
  ghost predicate ShowsCounts(h: Histogram, values: seq<nat>, scheme: Scheme) {
    match scheme
    case Log(k) => ShowsExtent(h, values, 1, k)
    case Linear(min, max, step) => Printed(h, values, min, max, step)
  }

  method BuildFor(values: seq<nat>, ghost samples: seq<int>, scheme: Scheme) returns (h: Histogram)
    requires AllInt64(samples) && values == Wrapped(Counts(samples, scheme))
    ensures ShowsCounts(h, values, scheme)
  {
    hide ShowsExtent, Printed, Reachable, LastBucket, Counts, Wrapped, Tally, LinearTally;
    match scheme
    case Log(k) =>
      CountsAreTally(samples, scheme);
      WrappedReachable(samples, k);
      h := BuildHistogram(values, 1, k);
    case Linear(min, max, step) =>
      h := BuildLinearHistogram(values, min, max, step);
  }

  // The histogram counts every sample exactly once, in its own bucket, and shows the bucket's edges; of a
  // linear histogram, if the last edge is below 2^31.
  ghost predicate CountsOnce(h: Histogram, samples: seq<int>, scheme: Scheme) {
    && Sum(h.counts) == |samples|
    && exists first :: CountsFrom(h, samples, first, scheme)
  }

  predicate CountsFrom(h: Histogram, samples: seq<int>, first: int, scheme: Scheme) {
    match scheme
    case Log(k) =>
      && ShowsExtentFrom(h, Tally(samples, k), first, 1, k)
      && forall j :: 0 <= j < |h.counts| ==> h.counts[j] == CountIn(samples, first + j, k)
    case Linear(min, max, step) =>
      && LinearCounted(h.counts, samples, first, min, max, step)
      && (LinearHistograms.LastEdge(min, max, step) < L.INT_RANGE / 2 ==>
           ShowsLinearExtentFrom(h, LinearTally(samples, min, max, step), first, min, max, step))
  }

  predicate LinearCounted(counts: seq<nat>, samples: seq<int>, first: int, min: int, max: int, step: int)
    requires ValidBounds(min, max, step)
  {
    forall j :: 0 <= j < |counts| ==> HoldsCount(counts[j], samples, first + j, min, max, step)
  }

  // The count is that of bucket i.
  predicate HoldsCount(count: nat, samples: seq<int>, i: int, min: int, max: int, step: int)
    requires ValidBounds(min, max, step)
  {
    0 <= i <= LastLinearBucket(min, max, step) && count == CountInLinear(samples, i, min, max, step)
  }

  lemma WrappedReachable(samples: seq<int>, k: nat)
    requires AllInt64(samples) && k <= 5
    ensures Reachable(Wrapped(Tally(samples, k)), LastBucket(k))
  {
    hide CountIn, LastBucket;
    TallyTotal(samples, k);
  }

  lemma {:induction false} LandedAtMost(samples: seq<int>, b: nat, scheme: Scheme)
    ensures Landed(samples, b, scheme) <= |samples|
  {
    hide Lands;
    if samples != [] {
      LandedAtMost(samples[1..], b, scheme);
    }
  }

  lemma NotWrapped(samples: seq<int>, scheme: Scheme)
    requires |samples| < WORD_RANGE
    ensures Wrapped(Counts(samples, scheme)) == Counts(samples, scheme)
  {
    hide Landed, Width;
    forall i | 0 <= i < Width(scheme) ensures Wrapped(Counts(samples, scheme))[i] == Counts(samples, scheme)[i] {
      LandedAtMost(samples, i, scheme);
    }
  }

  lemma ShownOnce(samples: seq<int>, scheme: Scheme, h: Histogram)
    requires AllInt64(samples) && |samples| < L.INT_RANGE / 2
    requires ShowsCounts(h, Wrapped(Counts(samples, scheme)), scheme)
    ensures CountsOnce(h, samples, scheme)
  {
    hide Counts, Tally, LinearTally, Wrapped, ShowsExtentFrom, PrintedFrom, ShowsLinearExtentFrom, CountIn,
      LinearCounted, LinearHistograms.LastEdge;
    NotWrapped(samples, scheme);
    CountsAreTally(samples, scheme);
    match scheme
    case Log(k) =>
      var first :| ShowsExtentFrom(h, Tally(samples, k), first, 1, k);
      PrintedHistogram(samples, k, h, first);
      assert CountsFrom(h, samples, first, scheme);
    case Linear(min, max, step) =>
      var first :| PrintedFrom(h, LinearTally(samples, min, max, step), first, min, max, step);
      LinearShownOnce(samples, min, max, step, h, first);
      assert CountsFrom(h, samples, first, scheme);
  }

  lemma LinearShownOnce(samples: seq<int>, min: int, max: int, step: int, h: Histogram, first: int)
    requires AllInt64(samples) && ValidBounds(min, max, step) && (max - min) / step <= 1000
    requires |samples| < L.INT_RANGE / 2 && PrintedFrom(h, LinearTally(samples, min, max, step), first, min, max, step)
    ensures Sum(h.counts) == |samples| && LinearCounted(h.counts, samples, first, min, max, step)
    ensures LinearHistograms.LastEdge(min, max, step) < L.INT_RANGE / 2 ==>
      ShowsLinearExtentFrom(h, LinearTally(samples, min, max, step), first, min, max, step)
  {
    FirstIsBucket(h, LinearTally(samples, min, max, step), first, min, max, step);
    hide *;
    PrintedLinearHistogram(samples, min, max, step, h, first);
    CountedFrom(h.counts, samples, first, min, max, step);
  }

  lemma CountedFrom(counts: seq<nat>, samples: seq<int>, first: int, min: int, max: int, step: int)
    requires ValidBounds(min, max, step) && (|counts| > 0 ==> first >= 0)
    requires forall j :: 0 <= j < |counts| ==>
      first + j <= LastLinearBucket(min, max, step)
      && counts[j] == CountInLinear(samples, first + j, min, max, step)
    ensures LinearCounted(counts, samples, first, min, max, step)
  {
    hide LastLinearBucket, CountInLinear;
    forall j | 0 <= j < |counts| ensures HoldsCount(counts[j], samples, first + j, min, max, step) {
      assert counts[j] == CountInLinear(samples, first + j, min, max, step);
    }
  }

  lemma FirstIsBucket(h: Histogram, values: seq<nat>, first: int, min: int, max: int, step: int)
    requires PrintedFrom(h, values, first, min, max, step)
    ensures |h.counts| > 0 ==> first >= 0
  {
  }

  lemma SampleCounted(samples: seq<int>, scheme: Scheme) returns (b: nat)
    requires AllInt64(samples) && samples != []
    ensures Landed(samples, b, scheme) > 0 && b < Width(scheme)
  {
    b := LandsInside(samples[0], scheme);
    hide Lands;
  }

  lemma SampleHasEntry(calls: seq<Call>, keySize: nat, scheme: Scheme, cpus: nat, counts: map<seq<byte>, seq<nat>>,
                       keys: seq<seq<byte>>, p: seq<byte>)
    requires ValidCalls(calls, keySize, cpus) && Describes(counts, calls, keySize, scheme, cpus)
    requires Enumerates(keys, counts) && |p| == keySize && SamplesOf(calls, p) != []
    ensures exists i :: 0 <= i < |keys| && |keys[i]| == keySize + 8 && keys[i][..keySize] == p
  {
    SamplesAreInt64(calls, keySize, cpus, p);
    var b := SampleCounted(SamplesOf(calls, p), scheme);
    EntryParts(p, b);
    hide SamplesOf, Landed, FromLE, ReduceWords;
    var i :| 0 <= i < |keys| && keys[i] == EntryKey(p, b);
  }

  // The cells of a key add up to its samples.
  lemma CountsTotal(samples: seq<int>, scheme: Scheme)
    requires AllInt64(samples)
    ensures Sum(Counts(samples, scheme)) == |samples|
  {
    hide Counts, Tally, LinearTally;
    CountsAreTally(samples, scheme);
    match scheme
    case Log(k) => TallyTotal(samples, k);
    case Linear(min, max, step) => LinearTallyTotal(samples, min, max, step);
  }

  // Sorting by total counts is sorting by the number of samples: the keys that are kept are those
  // recorded under most.
  lemma MostRecorded(values: map<seq<byte>, seq<nat>>, calls: seq<Call>, keySize: nat, scheme: Scheme, cpus: nat,
                     entries: seq<T.Entry<seq<byte>>>, sorted: seq<T.Entry<seq<byte>>>, top: nat)
    requires ValidCalls(calls, keySize, cpus) && |calls| < WORD_RANGE
    requires forall p :: p in values ==> values[p] == Wrapped(Counts(SamplesOf(calls, p), scheme))
    requires forall i :: 0 <= i < |entries| ==>
      entries[i].key in values && entries[i].rank == Sum(values[entries[i].key]) % WORD_RANGE
    requires T.Arrangement(entries, sorted)
    ensures var kept := T.Kept(sorted, top);
      forall d, e :: d in sorted[..|sorted| - |kept|] && e in kept ==>
        |SamplesOf(calls, d.key)| <= |SamplesOf(calls, e.key)|
  {
    hide SamplesOf, Counts, Wrapped, T.Kept, T.Ascending;
    T.KeptAreGreatest(entries, sorted, top);
    var kept := T.Kept(sorted, top);
    var dropped := sorted[..|sorted| - |kept|];
    forall d | d in dropped || d in kept ensures d.rank == |SamplesOf(calls, d.key)| {
      assert d in multiset(dropped) + multiset(kept);
      assert d in entries;
      SamplesAreInt64(calls, keySize, cpus, d.key);
      NotWrapped(SamplesOf(calls, d.key), scheme);
      CountsTotal(SamplesOf(calls, d.key), scheme);
    }
  }
}
