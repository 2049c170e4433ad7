/**
 The greatest entries of signed minimum and maximum maps (src/types_format.cpp:213-228, 656-660).  The
 entries are ranked by the extreme of the processors' values read as unsigned numbers, and printed
 with the extreme of the values read as signed ones.
 */
module SignedExtremes {
  import opened Prelude
  import opened Bytes
  import opened SizedTypes
  import opened Codec
  import opened Aggregates
  import opened RankedMaps
  import T = TopEntries

  predicate IsSignedExtreme(t: SizedType) {
    IsExtremeType(t) && t.signed
  }

  predicate Negative(w: Word) {
    2 * w >= Range(8)
  }

  predicate HasNegative(cells: seq<Cell>) {
    exists i :: 0 <= i < |cells| && IsSet(cells[i]) && Negative(cells[i].val)
  }

  predicate HasOther(cells: seq<Cell>) {
    exists i :: 0 <= i < |cells| && IsSet(cells[i]) && !Negative(cells[i].val)
  }

  // All values set have the same sign.
  predicate OneSign(cells: seq<Cell>) {
    !HasNegative(cells) || !HasOther(cells)
  }

  lemma SetHasSign(cells: seq<Cell>)
    ensures AnySet(cells) <==> HasNegative(cells) || HasOther(cells)
  {
    if i :| 0 <= i < |cells| && IsSet(cells[i]) {
      assert Negative(cells[i].val) || !Negative(cells[i].val);
    }
  }

  lemma {:induction false} ExtremeIsWord(cells: seq<Cell>, isMax: bool)
    ensures 0 <= Extreme(cells, isMax, false) < Range(8)
  {
    hide Range;
    if cells != [] {
      ExtremeIsWord(cells[..|cells| - 1], isMax);
    }
  }

  // The rank, read as signed, is the printed value exactly when the values have one sign.
  lemma RankIsValueIff(cells: seq<Cell>, isMax: bool)
    ensures 0 <= Extreme(cells, isMax, false) < Range(8)
    ensures ToSigned(8, Extreme(cells, isMax, false)) == Extreme(cells, isMax, true) <==> OneSign(cells)
  {
    hide Range, Extreme;
    ExtremeIsWord(cells, isMax);
    ExtremeIsBest(cells, isMax, false);
    ExtremeIsBest(cells, isMax, true);
    SetHasSign(cells);
    var rank, value := Extreme(cells, isMax, false), Extreme(cells, isMax, true);
    if AnySet(cells) {
      var i :| 0 <= i < |cells| && IsSet(cells[i]) && Read(cells[i].val, false) == rank;
      var j :| 0 <= j < |cells| && IsSet(cells[j]) && Read(cells[j].val, true) == value;
      assert AtLeast(isMax, rank, Read(cells[j].val, false)) && AtLeast(isMax, value, Read(cells[i].val, true));
      if !OneSign(cells) {
        var p :| 0 <= p < |cells| && IsSet(cells[p]) && Negative(cells[p].val);
        var q :| 0 <= q < |cells| && IsSet(cells[q]) && !Negative(cells[q].val);
        assert AtLeast(isMax, rank, Read(cells[p].val, false)) && AtLeast(isMax, rank, Read(cells[q].val, false));
        assert AtLeast(isMax, value, Read(cells[p].val, true)) && AtLeast(isMax, value, Read(cells[q].val, true));
      } else if HasNegative(cells) {
        assert Negative(cells[i].val) && Negative(cells[j].val);
      } else {
        assert !Negative(cells[i].val) && !Negative(cells[j].val);
      }
    }
  }

  // One pair of entries.

  // A value that a maximum has at least: 0 if none is set, or one that is not negative.
  predicate Offers(cells: seq<Cell>, x: int) {
    if !AnySet(cells) then x == 0
    else exists i :: 0 <= i < |cells| && IsSet(cells[i]) && !Negative(cells[i].val) && cells[i].val == x
  }

  // Of two entries that are ranked in this order, the first has the greater value.  For a maximum, the
  // second has a negative cell, and the first offers more than all other cells of the second.  For a
  // minimum, the second has a negative cell below all negative cells of the first.
  ghost predicate Overtakes(first: seq<Cell>, second: seq<Cell>, isMax: bool) {
    if isMax then
      HasNegative(second) && exists x :: Offers(first, x) && IsAbove(x, second)
    else
      exists i :: 0 <= i < |second| && IsSet(second[i]) && Negative(second[i].val) && IsBelow(second[i].val, first)
  }

  // Above all values that are not negative.
  predicate IsAbove(x: int, cells: seq<Cell>) {
    forall i :: 0 <= i < |cells| && IsSet(cells[i]) && !Negative(cells[i].val) ==> cells[i].val < x
  }

  // Below all negative values.
  predicate IsBelow(x: int, cells: seq<Cell>) {
    forall i :: 0 <= i < |cells| && IsSet(cells[i]) && Negative(cells[i].val) ==> x < cells[i].val
  }

  lemma OvertakesIff(first: seq<Cell>, second: seq<Cell>, isMax: bool)
    requires Extreme(first, isMax, false) <= Extreme(second, isMax, false)
    ensures Extreme(first, isMax, true) > Extreme(second, isMax, true) <==> Overtakes(first, second, isMax)
  {
    if isMax {
      MaxOvertakesIff(first, second);
    } else {
      MinOvertakesIff(first, second);
    }
  }

  // The greatest value as a signed number: the greatest that is not negative, if there is one.
  lemma SignedMax(cells: seq<Cell>)
    ensures var v := Extreme(cells, true, true);
      && (!AnySet(cells) || HasOther(cells) ==> v >= 0 && Offers(cells, v) && forall x :: Offers(cells, x) ==> x <= v)
      && (AnySet(cells) && !HasOther(cells) ==> v < 0 && v == Extreme(cells, true, false) - Range(8)
                                                && forall x :: !Offers(cells, x))
  {
    hide Range, Extreme;
    ExtremeIsBest(cells, true, true);
    ExtremeIsBest(cells, true, false);
    var v, r := Extreme(cells, true, true), Extreme(cells, true, false);
    if AnySet(cells) {
      var i :| 0 <= i < |cells| && IsSet(cells[i]) && Read(cells[i].val, true) == v;
      if HasOther(cells) {
        var q :| 0 <= q < |cells| && IsSet(cells[q]) && !Negative(cells[q].val);
        assert AtLeast(true, v, Read(cells[q].val, true));
        forall x | Offers(cells, x) ensures x <= v {
          var k :| 0 <= k < |cells| && IsSet(cells[k]) && !Negative(cells[k].val) && cells[k].val == x;
          assert AtLeast(true, v, Read(cells[k].val, true));
        }
      } else {
        var j :| 0 <= j < |cells| && IsSet(cells[j]) && Read(cells[j].val, false) == r;
        assert Negative(cells[i].val) && Negative(cells[j].val);
        assert AtLeast(true, r, Read(cells[i].val, false)) && AtLeast(true, v, Read(cells[j].val, true));
      }
    }
  }

  // The greatest value as an unsigned number is that of a negative one, if there is one.
  lemma UnsignedMax(cells: seq<Cell>)
    ensures var r := Extreme(cells, true, false);
      && (HasNegative(cells) <==> 2 * r >= Range(8)) && (!HasNegative(cells) ==> Offers(cells, r))
      && forall x :: Offers(cells, x) ==> x <= r
  {
    hide Range, Extreme;
    ExtremeIsBest(cells, true, false);
    RangePositive();
    var r := Extreme(cells, true, false);
    if AnySet(cells) {
      var i :| 0 <= i < |cells| && IsSet(cells[i]) && Read(cells[i].val, false) == r;
      forall x | Offers(cells, x) ensures x <= r {
        var k :| 0 <= k < |cells| && IsSet(cells[k]) && !Negative(cells[k].val) && cells[k].val == x;
        assert AtLeast(true, r, Read(cells[k].val, false));
      }
      if HasNegative(cells) {
        var p :| 0 <= p < |cells| && IsSet(cells[p]) && Negative(cells[p].val);
        assert AtLeast(true, r, Read(cells[p].val, false));
      } else {
        assert !Negative(cells[i].val);
      }
    }
  }

  lemma RangePositive()
    ensures Range(8) > 0
  {
  }

  lemma MaxOvertakesIff(first: seq<Cell>, second: seq<Cell>)
    requires Extreme(first, true, false) <= Extreme(second, true, false)
    ensures Extreme(first, true, true) > Extreme(second, true, true) <==> Overtakes(first, second, true)
  {
    SignedMax(first);
    SignedMax(second);
    UnsignedMax(first);
    UnsignedMax(second);
    SetHasSign(first);
    SetHasSign(second);
    hide Range, Extreme, HasNegative, HasOther, AnySet;
    var v, w := Extreme(first, true, true), Extreme(second, true, true);
    if HasNegative(second) {
      forall x ensures IsAbove(x, second) <==> (HasOther(second) ==> w < x) {
        AboveIff(x, second);
      }
    }
    hide Offers, IsAbove;
    if v > w && HasNegative(second) && v >= 0 {
      assert Offers(first, v) && IsAbove(v, second);
    }
  }

  lemma AboveIff(x: int, cells: seq<Cell>)
    requires HasNegative(cells)
    ensures IsAbove(x, cells) <==> (HasOther(cells) ==> Extreme(cells, true, true) < x)
  {
    SignedMax(cells);
    SetHasSign(cells);
    hide Range, Negative, Extreme, IsSet;
    if HasOther(cells) {
      forall i | 0 <= i < |cells| && IsSet(cells[i]) && !Negative(cells[i].val)
        ensures cells[i].val <= Extreme(cells, true, true)
      {
        assert Offers(cells, cells[i].val);
      }
    }
  }

  // The least value as a signed number is the least of the negative ones, if there is one.
  lemma SignedMin(cells: seq<Cell>)
    ensures var v := Extreme(cells, false, true);
      && (HasNegative(cells) <==> v < 0)
      && (v < 0 ==>
           exists i :: 0 <= i < |cells| && IsSet(cells[i]) && Negative(cells[i].val) && cells[i].val == v + Range(8))
      && (forall i :: 0 <= i < |cells| && IsSet(cells[i]) && Negative(cells[i].val) ==> v + Range(8) <= cells[i].val)
      && (!HasNegative(cells) ==> v == Extreme(cells, false, false))
  {
    hide Range, Extreme;
    ExtremeIsBest(cells, false, true);
    ExtremeIsBest(cells, false, false);
    RangePositive();
    var v, r := Extreme(cells, false, true), Extreme(cells, false, false);
    if AnySet(cells) {
      var i :| 0 <= i < |cells| && IsSet(cells[i]) && Read(cells[i].val, true) == v;
      var j :| 0 <= j < |cells| && IsSet(cells[j]) && Read(cells[j].val, false) == r;
      assert AtLeast(false, v, Read(cells[j].val, true)) && AtLeast(false, r, Read(cells[i].val, false));
      forall k | 0 <= k < |cells| && IsSet(cells[k]) && Negative(cells[k].val) ensures v + Range(8) <= cells[k].val {
        assert AtLeast(false, v, Read(cells[k].val, true));
      }
      if HasNegative(cells) {
        var p :| 0 <= p < |cells| && IsSet(cells[p]) && Negative(cells[p].val);
        assert AtLeast(false, v, Read(cells[p].val, true));
      } else {
        assert !Negative(cells[i].val) && !Negative(cells[j].val);
      }
    }
  }

  // With a value that is not negative, the least unsigned number is at most that.
  lemma UnsignedMin(cells: seq<Cell>)
    ensures var r := Extreme(cells, false, false);
      && 0 <= r && (HasOther(cells) || !AnySet(cells) ==> 2 * r < Range(8))
      && (HasNegative(cells) && !HasOther(cells) ==> r == Extreme(cells, false, true) + Range(8))
  {
    hide Range, Extreme;
    ExtremeIsBest(cells, false, false);
    ExtremeIsBest(cells, false, true);
    ExtremeIsWord(cells, false);
    var v, r := Extreme(cells, false, true), Extreme(cells, false, false);
    if AnySet(cells) {
      var i :| 0 <= i < |cells| && IsSet(cells[i]) && Read(cells[i].val, true) == v;
      var j :| 0 <= j < |cells| && IsSet(cells[j]) && Read(cells[j].val, false) == r;
      if HasOther(cells) {
        var q :| 0 <= q < |cells| && IsSet(cells[q]) && !Negative(cells[q].val);
        assert AtLeast(false, r, Read(cells[q].val, false));
      } else {
        assert Negative(cells[i].val) && Negative(cells[j].val);
        assert AtLeast(false, v, Read(cells[j].val, true)) && AtLeast(false, r, Read(cells[i].val, false));
      }
    }
  }

  lemma MinOvertakesIff(first: seq<Cell>, second: seq<Cell>)
    requires Extreme(first, false, false) <= Extreme(second, false, false)
    ensures Extreme(first, false, true) > Extreme(second, false, true) <==> Overtakes(first, second, false)
  {
    SignedMin(first);
    SignedMin(second);
    UnsignedMin(first);
    hide Range, Extreme;
    var v, w := Extreme(first, false, true), Extreme(second, false, true);
    if v > w {
      assert w < 0;
      var i :| 0 <= i < |second| && IsSet(second[i]) && Negative(second[i].val) && second[i].val == w + Range(8);
      assert IsBelow(second[i].val, first);
    }
  }

  // The entries of a map.

  ghost predicate IsSignedMap(t: SizedType, entries: seq<MapEntry>) {
    IsSignedExtreme(t) && IsSortedByNumber(t) && AllCollected(t, entries)
  }

  function ValueOf(t: SizedType, e: MapEntry): int
    requires IsSignedExtreme(t)
  {
    Extreme(Cells(e.value), t.kind == MaxTy, true)
  }

  lemma PrintedValue(t: SizedType, e: MapEntry, env: Env)
    requires IsSignedExtreme(t) && IsSortedByNumber(t) && IsCollected(t, e.value)
    ensures PrintedNumber(t, e.value, 1, env) == Some(ValueOf(t, e))
  {
    ExtremePrinted(t, e.value, 1, env);
    TruncateByOne(ValueOf(t, e));
  }

  // No value that is dropped is above one that is printed.
  ghost predicate KeepsGreatestValues(t: SizedType, dropped: seq<T.Entry<MapEntry>>, kept: seq<T.Entry<MapEntry>>)
    requires IsSignedExtreme(t)
  {
    forall d, e :: d in dropped && e in kept ==> ValueOf(t, d.key) <= ValueOf(t, e.key)
  }

  lemma PrintedAreValues(t: SizedType, entries: seq<MapEntry>, sorted: seq<T.Entry<MapEntry>>, top: nat, env: Env)
    requires IsSignedMap(t, entries) && T.Arrangement(RankedEntries(t, entries), sorted)
    ensures KeepsGreatest(t, sorted, top, 1, env)
            <==> KeepsGreatestValues(t, Dropped(sorted, top), T.Kept(sorted, top))
  {
    hide RankOf, IsCollected, PrintedNumber, ValueOf, T.Kept, T.Ascending, Dropped;
    KeptAreSorted(sorted, top);
    forall d, e | d in Dropped(sorted, top) && e in T.Kept(sorted, top)
      ensures NotBelow(t, d.key, e.key, 1, env) <==> ValueOf(t, d.key) <= ValueOf(t, e.key)
    {
      SortedMember(t, entries, sorted, d);
      SortedMember(t, entries, sorted, e);
      PrintedValue(t, d.key, env);
      PrintedValue(t, e.key, env);
    }
  }

  ghost predicate NoneOvertakes(t: SizedType, sorted: seq<T.Entry<MapEntry>>, top: nat)
    requires IsSignedExtreme(t)
  {
    forall d, e :: d in Dropped(sorted, top) && e in T.Kept(sorted, top) ==>
      !Overtakes(Cells(d.key.value), Cells(e.key.value), t.kind == MaxTy)
  }

  // Main result: whatever the processors' values are, the entries kept are those with the greatest
  // printed values exactly when no entry dropped overtakes one kept.
  lemma MixedTopIff(t: SizedType, entries: seq<MapEntry>, sorted: seq<T.Entry<MapEntry>>, top: nat, env: Env)
    requires IsSignedMap(t, entries) && T.Arrangement(RankedEntries(t, entries), sorted)
    ensures KeepsGreatest(t, sorted, top, 1, env) <==> NoneOvertakes(t, sorted, top)
  {
    PrintedAreValues(t, entries, sorted, top, env);
    T.KeptAreGreatest(RankedEntries(t, entries), sorted, top);
    KeptAreSorted(sorted, top);
    hide IsCollected, T.Kept, T.Arrangement, Overtakes, KeepsGreatest, ValueOf, Cells, RankedEntries, IsSignedMap, Dropped;
    forall d, e | d in Dropped(sorted, top) && e in T.Kept(sorted, top)
      ensures ValueOf(t, d.key) > ValueOf(t, e.key) <==> Overtakes(Cells(d.key.value), Cells(e.key.value), t.kind == MaxTy)
    {
      PairOvertakes(t, entries, sorted, d, e) by {
        assert d.rank <= e.rank by { RanksSplit(sorted, top, d, e); }
      }
    }
  }

  lemma RanksSplit(sorted: seq<T.Entry<MapEntry>>, top: nat, d: T.Entry<MapEntry>, e: T.Entry<MapEntry>)
    requires d in Dropped(sorted, top) && e in T.Kept(sorted, top)
    requires var kept := T.Kept(sorted, top);
      forall x, y :: x in sorted[..|sorted| - |kept|] && y in kept ==> x.rank <= y.rank
    ensures d.rank <= e.rank
  {
    hide T.Kept;
  }

  lemma PairOvertakes(t: SizedType, entries: seq<MapEntry>, sorted: seq<T.Entry<MapEntry>>, d: T.Entry<MapEntry>,
                      e: T.Entry<MapEntry>)
    requires IsSignedMap(t, entries) && T.Arrangement(RankedEntries(t, entries), sorted)
    requires d in sorted && e in sorted && d.rank <= e.rank
    ensures ValueOf(t, d.key) > ValueOf(t, e.key) <==> Overtakes(Cells(d.key.value), Cells(e.key.value), t.kind == MaxTy)
  {
    SortedMember(t, entries, sorted, d);
    SortedMember(t, entries, sorted, e);
    hide IsCollected, T.Arrangement, RankedEntries, Overtakes, Extreme, Cells;
    OvertakesIff(Cells(d.key.value), Cells(e.key.value), t.kind == MaxTy);
  }

  // Entries whose processors have values of one sign.

  ghost predicate OneSignEach(entries: seq<MapEntry>) {
    forall i :: 0 <= i < |entries| ==> OneSign(Cells(entries[i].value))
  }

  // All printed values have the same sign.
  ghost predicate SameSign(t: SizedType, es: seq<T.Entry<MapEntry>>)
    requires IsSignedExtreme(t)
  {
    (forall e :: e in es ==> ValueOf(t, e.key) >= 0) || (forall e :: e in es ==> ValueOf(t, e.key) < 0)
  }

  // The ranks are words, and read as signed they are the values.
  ghost predicate RanksAreValues(t: SizedType, es: seq<T.Entry<MapEntry>>)
    requires IsSignedExtreme(t)
  {
    forall e :: e in es ==> 0 <= e.rank < Range(8) && ValueOf(t, e.key) == ToSigned(8, e.rank)
  }

  lemma OneSignRanks(t: SizedType, entries: seq<MapEntry>, sorted: seq<T.Entry<MapEntry>>)
    requires IsSignedMap(t, entries) && T.Arrangement(RankedEntries(t, entries), sorted) && OneSignEach(entries)
    ensures RanksAreValues(t, sorted)
  {
    hide IsCollected, T.Ascending, Extreme, Cells, OneSign, Range;
    forall e | e in sorted ensures 0 <= e.rank < Range(8) && ValueOf(t, e.key) == ToSigned(8, e.rank) {
      SortedMember(t, entries, sorted, e);
      var i :| 0 <= i < |entries| && entries[i] == e.key;
      assert OneSign(Cells(entries[i].value));
      RankIsValueIff(Cells(e.key.value), t.kind == MaxTy);
    }
  }

  lemma OrderDiffers(a: int, b: int)
    requires 0 <= a <= b < Range(8)
    ensures ToSigned(8, a) > ToSigned(8, b) <==> 2 * a < Range(8) <= 2 * b
    ensures ToSigned(8, a) >= 0 <==> 2 * a < Range(8)
  {
    hide Range;
  }

  // Of ranks in ascending order, the ends decide whether the signs are the same.
  lemma EndsDecide(t: SizedType, es: seq<T.Entry<MapEntry>>)
    requires IsSignedExtreme(t) && RanksAreValues(t, es) && T.Ascending(es) && es != []
    ensures SameSign(t, es) <==> ValueOf(t, es[0].key) <= ValueOf(t, es[|es| - 1].key)
  {
    hide ValueOf, Range, ToSigned;
    var n := |es| - 1;
    assert es[0] in es && es[n] in es;
    OrderDiffers(es[0].rank, es[n].rank);
    OrderDiffers(es[n].rank, es[n].rank);
    forall e | e in es ensures (ValueOf(t, e.key) >= 0 <==> 2 * e.rank < Range(8)) && es[0].rank <= e.rank <= es[n].rank {
      OrderDiffers(e.rank, e.rank);
      var i :| 0 <= i < |es| && es[i] == e;
    }
  }

  lemma SplitAscends(sorted: seq<T.Entry<MapEntry>>, n: nat, d: T.Entry<MapEntry>, e: T.Entry<MapEntry>)
    requires T.Ascending(sorted) && n <= |sorted| && d in sorted[..n] && e in sorted[n..]
    ensures d.rank <= e.rank && d in sorted && e in sorted
  {
  }

  lemma SplitKeepsIff(t: SizedType, sorted: seq<T.Entry<MapEntry>>, n: nat)
    requires IsSignedExtreme(t) && RanksAreValues(t, sorted) && T.Ascending(sorted) && 0 < n < |sorted|
    ensures KeepsGreatestValues(t, sorted[..n], sorted[n..]) <==> SameSign(t, sorted)
  {
    EndsDecide(t, sorted);
    hide ValueOf, Range, ToSigned, T.Ascending;
    var last := |sorted| - 1;
    if KeepsGreatestValues(t, sorted[..n], sorted[n..]) {
      assert sorted[..n][0] in sorted[..n] && sorted[n..][last - n] in sorted[n..];
    } else {
      var d, e :| d in sorted[..n] && e in sorted[n..] && ValueOf(t, d.key) > ValueOf(t, e.key);
      SplitAscends(sorted, n, d, e);
      OrderDiffers(d.rank, e.rank);
      OrderDiffers(e.rank, e.rank);
    }
  }

  lemma KeptIsSuffix(sorted: seq<T.Entry<MapEntry>>, top: nat)
    ensures var n := |sorted| - |T.Kept(sorted, top)|;
      0 <= n <= |sorted| && Dropped(sorted, top) == sorted[..n] && T.Kept(sorted, top) == sorted[n..]
      && (sorted != [] ==> n < |sorted|)
  {
  }

  lemma SameSignOfAll(t: SizedType, entries: seq<MapEntry>, sorted: seq<T.Entry<MapEntry>>)
    requires IsSignedMap(t, entries) && T.Arrangement(RankedEntries(t, entries), sorted)
    ensures SameSign(t, sorted) <==> (forall e :: e in entries ==> ValueOf(t, e) >= 0)
                                     || (forall e :: e in entries ==> ValueOf(t, e) < 0)
  {
    hide ValueOf, RankOf, IsCollected, T.Ascending;
    forall e | e in sorted ensures e.key in entries {
      SortedMember(t, entries, sorted, e);
    }
    forall e | e in entries ensures exists x :: x in sorted && x.key == e {
      var i :| 0 <= i < |entries| && entries[i] == e;
      assert RankedEntries(t, entries)[i] in multiset(RankedEntries(t, entries));
      assert RankedEntries(t, entries)[i] in sorted;
    }
  }

  // Main result: where the processors of each entry have values of one sign, the entries kept are those
  // with the greatest printed values exactly when all are kept or all printed values have one sign.
  lemma OneSignTopIff(t: SizedType, entries: seq<MapEntry>, sorted: seq<T.Entry<MapEntry>>, top: nat, env: Env)
    requires IsSignedMap(t, entries) && T.Arrangement(RankedEntries(t, entries), sorted) && OneSignEach(entries)
    ensures KeepsGreatest(t, sorted, top, 1, env)
            <==> top == 0 || |entries| <= top
                 || (forall e :: e in entries ==> ValueOf(t, e) >= 0) || (forall e :: e in entries ==> ValueOf(t, e) < 0)
  {
    hide ValueOf, RankOf, IsCollected, T.Ascending, OneSign, RanksAreValues, KeepsGreatest, Range, ToSigned;
    T.SameSize(RankedEntries(t, entries), sorted);
    PrintedAreValues(t, entries, sorted, top, env);
    OneSignRanks(t, entries, sorted);
    SameSignOfAll(t, entries, sorted);
    KeptIsSuffix(sorted, top);
    var n := |sorted| - |T.Kept(sorted, top)|;
    if 0 < n < |sorted| {
      SplitKeepsIff(t, sorted, n);
    }
  }

  // Failing inputs.

  // The word that stands for -n.
  function Minus(n: nat): Word
    requires 0 < n < 256
  {
    Range(8) - n
  }

  function MaxOf(key: byte, cells: seq<Cell>): MapEntry {
    MapEntry([key], CellBytes(cells))
  }

  const SIGNED_MAX: SizedType := Scalar(MaxTy, 64, true, "")

  lemma PairExtremes(a: nat, b: nat, key: byte)
    requires 0 < a < 256 && b < 256
    ensures var e := MaxOf(key, [Cell(Minus(a), 1), Cell(b, 1)]);
      IsCollected(SIGNED_MAX, e.value) && RankOf(SIGNED_MAX, e.value) == Minus(a) && ValueOf(SIGNED_MAX, e) == b
  {
    var cells := [Cell(Minus(a), 1), Cell(b, 1)];
    CellsRoundTrip(cells);
    hide CellBytes, Cells;
    EightBytes();
    assert cells[..1] == [cells[0]] && [cells[0]][..0] == [];
    assert AnySet([cells[0]]);
    hide Range;
    assert Extreme([cells[0]], true, true) == 0 - a && Extreme([cells[0]], true, false) == Minus(a);
  }

  // One processor had -1 and another 5; for another key they had -2 and 7.  The first is ranked higher,
  // so print(@, 1) shows 5 and drops 7, although both printed values are positive.
  lemma MixedTopFails(env: Env)
    ensures var a, b := MaxOf(1, [Cell(Minus(1), 1), Cell(5, 1)]), MaxOf(2, [Cell(Minus(2), 1), Cell(7, 1)]);
      var sorted := RankedEntries(SIGNED_MAX, [b, a]);
      && T.Arrangement(RankedEntries(SIGNED_MAX, [a, b]), sorted)
      && T.Kept(sorted, 1) == [sorted[1]] && sorted[1].key == a && Dropped(sorted, 1) == [sorted[0]] && sorted[0].key == b
      && PrintedNumber(SIGNED_MAX, a.value, 1, env) == Some(5) && PrintedNumber(SIGNED_MAX, b.value, 1, env) == Some(7)
  {
    var a, b := MaxOf(1, [Cell(Minus(1), 1), Cell(5, 1)]), MaxOf(2, [Cell(Minus(2), 1), Cell(7, 1)]);
    PairExtremes(1, 5, 1);
    PairExtremes(2, 7, 2);
    PrintedValue(SIGNED_MAX, a, env);
    PrintedValue(SIGNED_MAX, b, env);
    hide PrintedNumber, RankOf, ValueOf, CellBytes, MaxOf, Minus, IsCollected;
    TwoRanked(SIGNED_MAX, b, a);
  }

  // Two entries in the order of their ranks, whichever was collected first.
  lemma TwoRanked(t: SizedType, low: MapEntry, high: MapEntry)
    requires IsSortedByNumber(t) && RankOf(t, low.value) <= RankOf(t, high.value)
    ensures var sorted := RankedEntries(t, [low, high]);
      && T.Arrangement(RankedEntries(t, [high, low]), sorted)
      && T.Kept(sorted, 1) == [sorted[1]] && sorted[1].key == high
      && Dropped(sorted, 1) == [sorted[0]] && sorted[0].key == low
  {
    hide RankOf;
    var sorted, ranked := RankedEntries(t, [low, high]), RankedEntries(t, [high, low]);
    assert sorted == [ranked[1], ranked[0]] && ranked == [ranked[0], ranked[1]];
    assert sorted[1..] == [sorted[1]] && sorted[..1] == [sorted[0]];
  }
}
