/**
 Collecting the sparse entries of a histogram map into one dense vector per key
 (`collect_histogram_data` in src/bpfmap.cpp).
 */
module HistogramData {
  import opened Prelude
  import opened Bytes
  import opened Histograms

  // What looking an entry up yields: its per-CPU counters, nothing because the kernel removed
  // it meanwhile, or another error.
  datatype Lookup = Found(percpu: seq<nat>) | Gone | Failed

  // A key is the map key followed by the 8 bytes of the bucket number.
  datatype Entry = Entry(key: seq<byte>, lookup: Lookup)

  datatype CollectError = LookupFailed | BucketOutOfRange

  const WORD_RANGE: nat := 0x1_0000_0000_0000_0000

  // The 64-bit sum over CPUs.
  function ReduceWords(percpu: seq<nat>): (v: nat)
    ensures v < WORD_RANGE
  {
    if percpu == [] then 0 else (percpu[0] + ReduceWords(percpu[1..])) % WORD_RANGE
  }

  predicate KeyShaped(e: Entry, keySize: nat) {
    |e.key| == keySize + 8
  }

  function Prefix(e: Entry, keySize: nat): seq<byte>
    requires KeyShaped(e, keySize)
  {
    e.key[..keySize]
  }

  function Bucket(e: Entry, keySize: nat): nat
    requires KeyShaped(e, keySize)
  {
    FromLE(e.key[keySize..])
  }

  predicate AllShaped(entries: seq<Entry>, keySize: nat) {
    forall i :: 0 <= i < |entries| ==> KeyShaped(entries[i], keySize)
  }

  function EntryError(e: Entry, keySize: nat, width: nat): Option<CollectError>
    requires KeyShaped(e, keySize)
  {
    match e.lookup
    case Gone => None
    case Failed => Some(LookupFailed)
    case Found(_) => if Bucket(e, keySize) < width then None else Some(BucketOutOfRange)
  }

  // The first error in the order of the entries.
  function FirstError(entries: seq<Entry>, keySize: nat, width: nat): Option<CollectError>
    requires AllShaped(entries, keySize)
  {
    if entries == [] then None
    else
      var before := FirstError(entries[..|entries| - 1], keySize, width);
      if before.Some? then before else EntryError(entries[|entries| - 1], keySize, width)
  }

  predicate Contributes(e: Entry, keySize: nat, p: seq<byte>)
    requires KeyShaped(e, keySize)
  {
    e.lookup.Found? && Prefix(e, keySize) == p
  }

  predicate HasPrefix(entries: seq<Entry>, keySize: nat, p: seq<byte>)
    requires AllShaped(entries, keySize)
  {
    exists i :: 0 <= i < |entries| && Contributes(entries[i], keySize, p)
  }

  // The last counter found for bucket b of key p.
  function Cell(entries: seq<Entry>, keySize: nat, p: seq<byte>, b: nat): nat
    requires AllShaped(entries, keySize)
  {
    if entries == [] then 0
    else
      var e := entries[|entries| - 1];
      if Contributes(e, keySize, p) && Bucket(e, keySize) == b then ReduceWords(e.lookup.percpu)
      else Cell(entries[..|entries| - 1], keySize, p, b)
  }

  // All counters found for key p.
  function PrefixTotal(entries: seq<Entry>, keySize: nat, p: seq<byte>): nat
    requires AllShaped(entries, keySize)
  {
    if entries == [] then 0
    else
      var e := entries[|entries| - 1];
      PrefixTotal(entries[..|entries| - 1], keySize, p)
      + if Contributes(e, keySize, p) then ReduceWords(e.lookup.percpu) else 0
  }

  function Cells(entries: seq<Entry>, keySize: nat, width: nat, p: seq<byte>): (cells: seq<nat>)
    requires AllShaped(entries, keySize)
    ensures |cells| == width
  {
    seq(width, b requires 0 <= b < width => Cell(entries, keySize, p, b))
  }

  function Zeros(width: nat): (zeros: seq<nat>)
    ensures |zeros| == width && forall b :: 0 <= b < width ==> zeros[b] == 0
  {
    seq(width, _ => 0)
  }

  // The map holds exactly the dense vectors of the entries' prefixes.
  predicate Collected(m: map<seq<byte>, seq<nat>>, entries: seq<Entry>, keySize: nat, width: nat)
    requires AllShaped(entries, keySize)
  {
    && (forall p :: p in m ==> HasPrefix(entries, keySize, p) && m[p] == Cells(entries, keySize, width, p))
    && (forall i :: 0 <= i < |entries| && entries[i].lookup.Found? ==> Prefix(entries[i], keySize) in m)
  }

  method CollectHistogram(entries: seq<Entry>, keySize: nat, width: nat)
    returns (r: Result<map<seq<byte>, seq<nat>>, CollectError>)
    requires AllShaped(entries, keySize)
    ensures match FirstError(entries, keySize, width)
            case Some(e) => r == Err(e)
            case None => r.Ok? && Collected(r.value, entries, keySize, width)
  {
    var valuesByKey: map<seq<byte>, seq<nat>> := map[];
    for n := 0 to |entries|
      invariant FirstError(entries[..n], keySize, width).None?
      invariant Collected(valuesByKey, entries[..n], keySize, width)
    {
      var e := entries[n];
      ghost var done := entries[..n];
      ghost var was := valuesByKey;
      assert entries[..n + 1][..n] == done && entries[..n + 1][n] == e;
      if EntryError(e, keySize, width).Some? {
        FirstErrorStays(entries, n + 1, keySize, width);
        return Err(EntryError(e, keySize, width).value);
      }
      if e.lookup.Found? {
        var prefix, idx := Prefix(e, keySize), Bucket(e, keySize);
        if prefix !in valuesByKey {
          valuesByKey := valuesByKey[prefix := Zeros(width)];
          NoCells(done, keySize, width, prefix);
        }
        var counts: seq<nat> := valuesByKey[prefix][idx := ReduceWords(e.lookup.percpu)];
        valuesByKey := valuesByKey[prefix := counts];
      }
      Extend(was, valuesByKey, done, e, keySize, width);
      assert done + [e] == entries[..n + 1];
    }
    assert entries[..|entries|] == entries;
    r := Ok(valuesByKey);
  }

  lemma {:induction false} FirstErrorStays(entries: seq<Entry>, n: nat, keySize: nat, width: nat)
    requires AllShaped(entries, keySize) && n <= |entries|
    requires FirstError(entries[..n], keySize, width).Some?
    ensures FirstError(entries, keySize, width) == FirstError(entries[..n], keySize, width)
    decreases |entries|
  {
    if n < |entries| {
      var init := entries[..|entries| - 1];
      assert init[..n] == entries[..n];
      FirstErrorStays(init, n, keySize, width);
    } else {
      assert entries[..n] == entries;
    }
  }

  lemma {:induction false} NoCells(entries: seq<Entry>, keySize: nat, width: nat, p: seq<byte>)
    requires AllShaped(entries, keySize) && !HasPrefix(entries, keySize, p)
    ensures Cells(entries, keySize, width, p) == Zeros(width)
  {
    forall b | 0 <= b < width ensures Cell(entries, keySize, p, b) == 0 {
      NoCell(entries, keySize, p, b);
    }
  }

  lemma {:induction false} NoCell(entries: seq<Entry>, keySize: nat, p: seq<byte>, b: nat)
    requires AllShaped(entries, keySize)
    requires forall i :: 0 <= i < |entries| && Contributes(entries[i], keySize, p) ==> Bucket(entries[i], keySize) != b
    ensures Cell(entries, keySize, p, b) == 0
  {
    if entries != [] {
      NoCell(entries[..|entries| - 1], keySize, p, b);
    }
  }

  // One more entry changes one cell of one vector.
  lemma Extend(was: map<seq<byte>, seq<nat>>, now: map<seq<byte>, seq<nat>>, done: seq<Entry>, e: Entry,
               keySize: nat, width: nat)
    requires AllShaped(done, keySize) && KeyShaped(e, keySize)
    requires Collected(was, done, keySize, width) && EntryError(e, keySize, width).None?
    requires !e.lookup.Found? ==> now == was
    requires e.lookup.Found? ==>
               var p := Prefix(e, keySize);
               now == was[p := Cells(done, keySize, width, p)[Bucket(e, keySize) := ReduceWords(e.lookup.percpu)]]
    ensures Collected(now, done + [e], keySize, width)
  {
    var all := done + [e];
    assert all[..|all| - 1] == done;
    forall p | p in now ensures HasPrefix(all, keySize, p) && now[p] == Cells(all, keySize, width, p) {
      if e.lookup.Found? && p == Prefix(e, keySize) {
        assert Contributes(all[|done|], keySize, p);
      } else {
        var i :| 0 <= i < |done| && Contributes(done[i], keySize, p);
        assert Contributes(all[i], keySize, p);
      }
    }
    forall i | 0 <= i < |all| && all[i].lookup.Found? ensures Prefix(all[i], keySize) in now {
      if i < |done| {
        assert all[i] == done[i];
      }
    }
  }

  // Conservation: with distinct keys, as in any map, the dense vector of a key has the total of
  // the key's entries.

  predicate DistinctKeys(entries: seq<Entry>) {
    forall i, j :: 0 <= i < j < |entries| ==> entries[i].key != entries[j].key
  }

  lemma {:induction false} SumUpdate(s: seq<nat>, i: nat, v: nat)
    requires i < |s|
    ensures Sum(s[i := v]) + s[i] == Sum(s) + v
  {
    var t := s[i := v];
    assert s == s[..i] + ([s[i]] + s[i + 1..]) && t == s[..i] + ([v] + s[i + 1..]);
    SumConcat(s[..i], [s[i]] + s[i + 1..]);
    SumConcat(s[..i], [v] + s[i + 1..]);
    assert ([s[i]] + s[i + 1..])[1..] == s[i + 1..] && ([v] + s[i + 1..])[1..] == s[i + 1..];
  }

  lemma {:induction false} CollectionConserves(entries: seq<Entry>, keySize: nat, width: nat, p: seq<byte>)
    requires AllShaped(entries, keySize) && DistinctKeys(entries)
    requires FirstError(entries, keySize, width).None?
    ensures Sum(Cells(entries, keySize, width, p)) == PrefixTotal(entries, keySize, p)
  {
    if entries == [] {
      SumZeroIff(Cells(entries, keySize, width, p));
    } else {
      var init, e := entries[..|entries| - 1], entries[|entries| - 1];
      CollectionConserves(init, keySize, width, p);
      var cells := Cells(init, keySize, width, p);
      if Contributes(e, keySize, p) {
        var b := Bucket(e, keySize);
        forall i | 0 <= i < |init| && Contributes(init[i], keySize, p) ensures Bucket(init[i], keySize) != b {
          assert entries[i].key != entries[|init|].key;
          SameKey(init[i], e, keySize);
        }
        NoCell(init, keySize, p, b);
        assert Cells(entries, keySize, width, p) == cells[b := ReduceWords(e.lookup.percpu)];
        SumUpdate(cells, b, ReduceWords(e.lookup.percpu));
      } else {
        assert Cells(entries, keySize, width, p) == cells;
      }
    }
  }

  // A key is determined by its prefix and its bucket.
  lemma SameKey(d: Entry, e: Entry, keySize: nat)
    requires KeyShaped(d, keySize) && KeyShaped(e, keySize)
    requires Prefix(d, keySize) == Prefix(e, keySize)
    ensures Bucket(d, keySize) == Bucket(e, keySize) ==> d.key == e.key
  {
    if Bucket(d, keySize) == Bucket(e, keySize) {
      WriteBack(d.key[keySize..]);
      WriteBack(e.key[keySize..]);
      assert d.key == d.key[..keySize] + d.key[keySize..];
      assert e.key == e.key[..keySize] + e.key[keySize..];
    }
  }
}
