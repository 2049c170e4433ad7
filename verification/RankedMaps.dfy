/**
 The numbers that the entries of a map are sorted by, taken from their bytes, and the numbers that are
 printed for them (src/types_format.cpp:145-275, 646-706; src/util/stats.h).
 */
module RankedMaps {
  import opened Prelude
  import opened Arithmetic
  import opened Bytes
  import opened SizedTypes
  import opened Codec
  import opened Aggregates
  import RoundTrip
  import T = TopEntries

  // A key and a value as collected from the kernel; a per-CPU value holds all processors' parts.
  datatype MapEntry = MapEntry(key: seq<byte>, value: seq<byte>)

  predicate IsExtremeType(t: SizedType) {
    t.Scalar? && (t.kind == MinTy || t.kind == MaxTy)
  }

  predicate IsSortedByNumber(t: SizedType) {
    t.Scalar? && t.kind in {IntegerTy, CountTy, SumTy, AvgTy, StatsTy, MinTy, MaxTy}
  }

  // The number that the sort takes from the value: 64-bit words, whatever the width of the type.
  function RankOf(t: SizedType, value: seq<byte>): int
    requires IsSortedByNumber(t)
  {
    if t.kind in {IntegerTy, CountTy, SumTy} then Read(Reduce(value, 8), t.signed)
    else if IsExtremeType(t) then Extreme(Cells(value), t.kind == MaxTy, false)
    else StatsOf(Cells(value), t.signed).avg
  }

  // The number printed for a value, of statistics the average.
  function Number(p: Primitive): Option<int> {
    match p
    case Int(i) => Some(i)
    case UInt(n) => Some(n)
    case Symbolic(_, n) => Some(n)
    case RecordOf(_, values) => if |values| == 3 && values[1].Int? then Some(values[1].i)
                                else if |values| == 3 && values[1].UInt? then Some(values[1].n)
                                else None
    case _ => None
  }

  function PrintedNumber(t: SizedType, value: seq<byte>, div: nat, env: Env): Option<int>
    requires IsSortedByNumber(t)
  {
    match Format(t, value, div, env)
    case Ok(p) => Number(p)
    case Err(_) => None
  }

  // The values of a map: an integer has the bytes of its width, an aggregate a part of 8 or 16 bytes
  // for each processor.  Enums and counts are unsigned (src/types.cpp:311-316, 408-411).
  predicate IsCollected(t: SizedType, value: seq<byte>)
    requires IsSortedByNumber(t)
  {
    if t.kind == IntegerTy then StorableWidth(t.bits) && |value| == t.bits / 8 && (t.name != "" ==> !t.signed)
    else if t.kind == CountTy then !t.signed
    else if t.kind == SumTy then true
    else |value| >= 16
  }

  predicate AllCollected(t: SizedType, entries: seq<MapEntry>)
    requires IsSortedByNumber(t)
  {
    forall i :: 0 <= i < |entries| ==> IsCollected(t, entries[i].value)
  }

  // All but narrow integers and signed extremes.
  predicate IsRankedAsPrinted(t: SizedType) {
    IsSortedByNumber(t) && (t.kind == IntegerTy ==> t.bits == 64) && !(IsExtremeType(t) && t.signed)
  }

  predicate IsDivided(t: SizedType)
    requires t.Scalar?
  {
    t.kind != IntegerTy || t.name == ""
  }

  const DIV_LIMIT: nat := 0x1_0000_0000

  // The rank is the number printed, divided when a divisor is given.
  lemma RankIsPrinted(t: SizedType, value: seq<byte>, div: nat, env: Env)
    requires IsRankedAsPrinted(t) && IsCollected(t, value) && 1 <= div < DIV_LIMIT
    ensures PrintedNumber(t, value, div, env)
         == Some(if IsDivided(t) then Truncate(RankOf(t, value), div) else RankOf(t, value))
  {
    if t.kind == IntegerTy {
      IntegerRank(t, value, div, env);
    } else if t.kind == CountTy || t.kind == SumTy {
      SumRank(t, value, div, env);
    } else if IsExtremeType(t) {
      ExtremePrinted(t, value, div, env);
    } else {
      AverageRank(t, value, div, env);
    }
  }

  lemma QuotientNumber(i: int, signed: bool, div: nat)
    requires (signed || i >= 0) && div >= 1
    ensures DivideWide(i, signed, div).Ok? && Number(DivideWide(i, signed, div).value) == Some(Truncate(i, div))
  {
  }

  lemma IntegerRank(t: SizedType, value: seq<byte>, div: nat, env: Env)
    requires t.Scalar? && t.kind == IntegerTy && t.bits == 64 && IsCollected(t, value) && 1 <= div < DIV_LIMIT
    ensures PrintedNumber(t, value, div, env)
         == Some(if IsDivided(t) then Truncate(RankOf(t, value), div) else RankOf(t, value))
  {
    IntegerFormat(t, value, div, env);
    hide Format, RankOf, Truncate, DivideSigned, DivideUnsigned;
    RankOfInteger(t, value);
    if t.name == "" {
      if t.signed {
        DivisorKept(RankOf(t, value), div);
      } else {
        UnsignedQuotient(RankOf(t, value), div);
      }
    }
  }

  lemma IntegerFormat(t: SizedType, value: seq<byte>, div: nat, env: Env)
    requires t.Scalar? && t.kind == IntegerTy && t.bits == 64 && |value| == 8
    ensures Format(t, value, div, env)
         == if t.name != "" then Ok(Symbolic(EnumLabel(env, t.name, FromLE(value)), FromLE(value)))
            else if t.signed then DivideSigned(8, ToSigned(8, Reduce(value, 8)), div)
            else DivideUnsigned(Reduce(value, 8), div)
  {
    hide Range, Reduce, FromLE, EnumLabel, DivideSigned, DivideUnsigned;
    assert value[..8] == value;
  }

  lemma RankOfInteger(t: SizedType, value: seq<byte>)
    requires t.Scalar? && t.kind == IntegerTy && t.bits == 64 && IsCollected(t, value)
    ensures RankOf(t, value) == (if t.signed then ToSigned(8, Reduce(value, 8)) else Reduce(value, 8))
    ensures Reduce(value, 8) == FromLE(value) && (t.name != "" ==> RankOf(t, value) == FromLE(value))
  {
    RoundTrip.ReduceOne(value, 8);
    hide Range, Reduce, FromLE;
  }

  // A divisor of 32 bits is the same as a signed number of 64 bits.
  lemma DivisorKept(i: int, div: nat)
    requires 1 <= div < DIV_LIMIT
    ensures DivideSigned(8, i, div) == Ok(Int(Truncate(i, div)))
  {
    EightBytes();
    hide Range, Truncate;
    assert div % Range(8) == div && ToSigned(8, div) == div;
  }

  lemma UnsignedQuotient(i: nat, div: nat)
    requires div >= 1
    ensures DivideUnsigned(i, div) == Ok(UInt(i / div)) && i / div == Truncate(i, div)
  {
  }

  lemma SumRank(t: SizedType, value: seq<byte>, div: nat, env: Env)
    requires t.Scalar? && (t.kind == CountTy || t.kind == SumTy) && IsCollected(t, value) && div >= 1
    ensures PrintedNumber(t, value, div, env) == Some(Truncate(RankOf(t, value), div))
  {
    FormattedSum(t, value, div, env);
    QuotientNumber(RankOf(t, value), t.signed, div);
    hide Reduce, DivideWide, Truncate, Format;
  }

  lemma FormattedSum(t: SizedType, value: seq<byte>, div: nat, env: Env)
    requires t.Scalar? && (t.kind == CountTy || t.kind == SumTy) && IsCollected(t, value)
    ensures t.signed || RankOf(t, value) >= 0
    ensures Format(t, value, div, env) == DivideWide(RankOf(t, value), t.signed, div)
  {
    hide Reduce, DivideWide, FormatInteger, FormatString, FormatExtreme, FormatAverage, Range;
  }

  // What is printed for a minimum or maximum, signed or not.
  lemma ExtremePrinted(t: SizedType, value: seq<byte>, div: nat, env: Env)
    requires IsExtremeType(t) && |value| >= 16 && div >= 1
    ensures PrintedNumber(t, value, div, env) == Some(Truncate(Extreme(Cells(value), t.kind == MaxTy, t.signed), div))
  {
    hide Extreme, Cells, DivideWide, Truncate;
    ExtremeNotNegative(Cells(value), t.kind == MaxTy);
    QuotientNumber(Extreme(Cells(value), t.kind == MaxTy, t.signed), t.signed, div);
    assert |value| / 8 != 1;
  }

  lemma AverageRank(t: SizedType, value: seq<byte>, div: nat, env: Env)
    requires t.Scalar? && (t.kind == AvgTy || t.kind == StatsTy) && |value| >= 16 && div >= 1
    ensures PrintedNumber(t, value, div, env) == Some(Truncate(RankOf(t, value), div))
  {
    hide Cells, Total, Count, Truncate;
    assert |value| / 8 != 1;
    var avg := StatsOf(Cells(value), t.signed).avg;
    if !t.signed {
      AverageNotNegative(Cells(value));
    }
    QuotientNumber(avg, t.signed, div);
    hide StatsOf;
  }

  lemma AverageNotNegative(cells: seq<Cell>)
    ensures StatsOf(cells, false).avg >= 0
  {
    hide Total, Count;
  }

  // The greatest entries.

  function RankedEntries(t: SizedType, entries: seq<MapEntry>): (r: seq<T.Entry<MapEntry>>)
    requires IsSortedByNumber(t)
    ensures |r| == |entries|
  {
    seq(|entries|, i requires 0 <= i < |entries| => T.Entry(entries[i], RankOf(t, entries[i].value)))
  }

  // Both numbers are printed, and the second is not below the first.
  predicate NotBelow(t: SizedType, d: MapEntry, e: MapEntry, div: nat, env: Env)
    requires IsSortedByNumber(t)
  {
    var x, y := PrintedNumber(t, d.value, div, env), PrintedNumber(t, e.value, div, env);
    x.Some? && y.Some? && x.value <= y.value
  }

  function Dropped(sorted: seq<T.Entry<MapEntry>>, top: nat): seq<T.Entry<MapEntry>> {
    sorted[..|sorted| - |T.Kept(sorted, top)|]
  }

  // No number that is dropped is above one that is printed.
  ghost predicate KeepsGreatest(t: SizedType, sorted: seq<T.Entry<MapEntry>>, top: nat, div: nat, env: Env)
    requires IsSortedByNumber(t)
  {
    forall d, e :: d in Dropped(sorted, top) && e in T.Kept(sorted, top) ==> NotBelow(t, d.key, e.key, div, env)
  }

  ghost predicate AscendingPrinted(t: SizedType, es: seq<T.Entry<MapEntry>>, div: nat, env: Env)
    requires IsSortedByNumber(t)
  {
    forall i, j :: 0 <= i < j < |es| ==> NotBelow(t, es[i].key, es[j].key, div, env)
  }

  function Quotient(a: nat, d: nat): nat
    requires d >= 1
  {
    a / d
  }

  lemma TruncateIs(a: int, d: nat)
    requires d >= 1
    ensures Truncate(a, d) == if a >= 0 then Quotient(a, d) else 0 - Quotient(-a, d)
  {
  }

  lemma QuotientMonotone(a: nat, b: nat, d: nat)
    requires a <= b && d >= 1
    ensures Quotient(a, d) <= Quotient(b, d)
  {
    if a / d > b / d {
      MulLeq(d, b / d + 1, a / d);
    }
  }

  lemma TruncateMonotone(a: int, b: int, d: nat)
    requires a <= b && d >= 1
    ensures Truncate(a, d) <= Truncate(b, d)
  {
    TruncateIs(a, d);
    TruncateIs(b, d);
    hide Truncate, Quotient;
    if a >= 0 {
      QuotientMonotone(a, b, d);
    } else if b < 0 {
      QuotientMonotone(-b, -a, d);
    }
  }

  lemma RanksOrder(t: SizedType, d: MapEntry, e: MapEntry, div: nat, env: Env)
    requires IsSortedByNumber(t) && IsRankedAsPrinted(t) && 1 <= div < DIV_LIMIT
    requires IsCollected(t, d.value) && IsCollected(t, e.value)
    requires RankOf(t, d.value) <= RankOf(t, e.value)
    ensures NotBelow(t, d, e, div, env)
  {
    hide IsRankedAsPrinted, IsCollected, PrintedNumber, RankOf, Truncate;
    RankIsPrinted(t, d.value, div, env);
    RankIsPrinted(t, e.value, div, env);
    TruncateMonotone(RankOf(t, d.value), RankOf(t, e.value), div);
  }

  // Every sorted entry is one of the map's, with its rank.
  lemma SortedMember(t: SizedType, entries: seq<MapEntry>, sorted: seq<T.Entry<MapEntry>>, e: T.Entry<MapEntry>)
    requires IsSortedByNumber(t) && AllCollected(t, entries) && T.Arrangement(RankedEntries(t, entries), sorted)
    requires e in sorted
    ensures e.rank == RankOf(t, e.key.value) && IsCollected(t, e.key.value) && e.key in entries
  {
    hide RankOf, IsCollected, T.Ascending;
    assert e in multiset(sorted);
    assert e in RankedEntries(t, entries);
    var i :| 0 <= i < |entries| && RankedEntries(t, entries)[i] == e;
  }

  // Main result: of counts, sums, averages, statistics, unsigned extremes and integers of 64 bits, the
  // entries kept are those with the greatest printed numbers, in ascending order, for every divisor.
  lemma GreatestPrinted(
      t: SizedType, entries: seq<MapEntry>, sorted: seq<T.Entry<MapEntry>>, top: nat, div: nat, env: Env)
    requires IsSortedByNumber(t) && IsRankedAsPrinted(t) && AllCollected(t, entries)
    requires T.Arrangement(RankedEntries(t, entries), sorted)
    requires 1 <= div < DIV_LIMIT
    ensures KeepsGreatest(t, sorted, top, div, env) && AscendingPrinted(t, T.Kept(sorted, top), div, env)
  {
    hide IsRankedAsPrinted, IsCollected, NotBelow, RankOf, T.Kept;
    T.KeptAreGreatest(RankedEntries(t, entries), sorted, top);
    var kept := T.Kept(sorted, top);
    KeptAreSorted(sorted, top);
    forall d, e | d in Dropped(sorted, top) && e in kept ensures NotBelow(t, d.key, e.key, div, env) {
      SortedMember(t, entries, sorted, d);
      SortedMember(t, entries, sorted, e);
      RanksOrder(t, d.key, e.key, div, env);
    }
    forall i, j | 0 <= i < j < |kept| ensures NotBelow(t, kept[i].key, kept[j].key, div, env) {
      SortedMember(t, entries, sorted, kept[i]);
      SortedMember(t, entries, sorted, kept[j]);
      RanksOrder(t, kept[i].key, kept[j].key, div, env);
    }
  }

  lemma KeptAreSorted(sorted: seq<T.Entry<MapEntry>>, top: nat)
    ensures forall e :: e in Dropped(sorted, top) || e in T.Kept(sorted, top) ==> e in sorted
    ensures |T.Kept(sorted, top)| == |sorted| ==> Dropped(sorted, top) == []
  {
  }

  // Narrow integers.

  // The sort reads whole words, of which a narrow integer has none.
  lemma NarrowRank(t: SizedType, value: seq<byte>)
    requires t.Scalar? && t.kind == IntegerTy && IsCollected(t, value) && t.bits < 64
    ensures RankOf(t, value) == 0
  {
  }

  lemma IntegerPrinted(t: SizedType, value: seq<byte>, env: Env)
    requires t.Scalar? && t.kind == IntegerTy && IsCollected(t, value)
    ensures PrintedNumber(t, value, 1, env).Some?
  {
    RoundTrip.DivideByOne(t.bits / 8, ToSigned(t.bits / 8, Reduce(value, t.bits / 8)));
    hide Reduce, FromLE, Range, EnumLabel, DivideSigned, ToSigned;
  }

  ghost predicate AllSame(t: SizedType, entries: seq<MapEntry>, env: Env)
    requires IsSortedByNumber(t)
  {
    forall i, j :: 0 <= i < |entries| && 0 <= j < |entries| ==>
      PrintedNumber(t, entries[i].value, 1, env) == PrintedNumber(t, entries[j].value, 1, env)
  }

  // However the sort leaves entries of the same rank, the greatest are kept.
  ghost predicate AlwaysKeepsGreatest(t: SizedType, entries: seq<MapEntry>, top: nat, env: Env)
    requires IsSortedByNumber(t)
  {
    forall sorted :: T.Arrangement(RankedEntries(t, entries), sorted) ==> KeepsGreatest(t, sorted, top, 1, env)
  }

  lemma MoveToFront<E>(s: seq<E>, i: nat) returns (r: seq<E>)
    requires i < |s|
    ensures multiset(r) == multiset(s) && |r| == |s| && r[0] == s[i]
    ensures forall k :: i < k < |s| ==> r[k] == s[k]
    ensures forall k :: 0 <= k < i ==> r[k + 1] == s[k]
  {
    r := [s[i]] + s[..i] + s[i + 1..];
    assert s == s[..i] + [s[i]] + s[i + 1..];
  }

  lemma MoveToEnd<E>(s: seq<E>, i: nat) returns (r: seq<E>)
    requires i < |s|
    ensures multiset(r) == multiset(s) && |r| == |s| && r[|s| - 1] == s[i]
    ensures i > 0 ==> r[0] == s[0]
  {
    r := s[..i] + s[i + 1..] + [s[i]];
    assert s == s[..i] + [s[i]] + s[i + 1..];
  }

  lemma MoveToEnds<E>(s: seq<E>, first: nat, last: nat) returns (r: seq<E>)
    requires first < |s| && last < |s| && first != last
    ensures multiset(r) == multiset(s) && |r| == |s| && r[0] == s[first] && r[|r| - 1] == s[last]
  {
    var front := MoveToFront(s, first);
    r := MoveToEnd(front, if last < first then last + 1 else last);
  }

  // An arrangement of entries of one rank that prints a lesser number and drops a greater one.
  lemma WrongArrangement(t: SizedType, entries: seq<MapEntry>, top: nat, env: Env, i: nat, j: nat)
    requires t.Scalar? && t.kind == IntegerTy && AllCollected(t, entries) && t.bits < 64 && 0 < top < |entries|
    requires i < |entries| && j < |entries| && !NotBelow(t, entries[j], entries[i], 1, env)
    requires NotBelow(t, entries[i], entries[j], 1, env)
    ensures !AlwaysKeepsGreatest(t, entries, top, env)
  {
    hide IsCollected, NotBelow, RankOf;
    var ranked := RankedEntries(t, entries);
    forall k | 0 <= k < |entries| ensures RankOf(t, entries[k].value) == 0 {
      NarrowRank(t, entries[k].value);
    }
    assert i != j;
    var sorted := MoveToEnds(ranked, j, i);
    SameRanks(ranked, sorted);
    EndsOfSorted(sorted, top);
    assert !KeepsGreatest(t, sorted, top, 1, env);
  }

  lemma SameRanks(ranked: seq<T.Entry<MapEntry>>, sorted: seq<T.Entry<MapEntry>>)
    requires multiset(ranked) == multiset(sorted) && forall i :: 0 <= i < |ranked| ==> ranked[i].rank == 0
    ensures T.Arrangement(ranked, sorted)
  {
    forall k | 0 <= k < |sorted| ensures sorted[k].rank == 0 {
      assert sorted[k] in multiset(sorted);
      assert sorted[k] in ranked;
    }
  }

  lemma EndsOfSorted(sorted: seq<T.Entry<MapEntry>>, top: nat)
    requires 0 < top < |sorted|
    ensures sorted[0] in Dropped(sorted, top) && sorted[|sorted| - 1] in T.Kept(sorted, top)
  {
    assert Dropped(sorted, top)[0] == sorted[0];
    assert T.Kept(sorted, top)[top - 1] == sorted[|sorted| - 1];
  }

  // Main result: of integers, the entries kept are always the greatest exactly when they have 64 bits,
  // nothing is dropped, or all are the same.
  lemma NarrowTopIff(t: SizedType, entries: seq<MapEntry>, top: nat, env: Env)
    requires t.Scalar? && t.kind == IntegerTy && AllCollected(t, entries)
    ensures AlwaysKeepsGreatest(t, entries, top, env)
            <==> t.bits == 64 || top == 0 || |entries| <= top || AllSame(t, entries, env)
  {
    hide IsCollected, PrintedNumber, RankOf, T.Ascending, T.Kept;
    forall k | 0 <= k < |entries| ensures PrintedNumber(t, entries[k].value, 1, env).Some? {
      IntegerPrinted(t, entries[k].value, env);
    }
    if t.bits == 64 {
      forall sorted | T.Arrangement(RankedEntries(t, entries), sorted) ensures KeepsGreatest(t, sorted, top, 1, env) {
        GreatestPrinted(t, entries, sorted, top, 1, env);
      }
    } else if top == 0 || |entries| <= top || AllSame(t, entries, env) {
      forall sorted | T.Arrangement(RankedEntries(t, entries), sorted) ensures KeepsGreatest(t, sorted, top, 1, env) {
        NothingLost(t, entries, sorted, top, env);
      }
    } else {
      var i, j :| 0 <= i < |entries| && 0 <= j < |entries|
        && PrintedNumber(t, entries[i].value, 1, env) != PrintedNumber(t, entries[j].value, 1, env);
      WidthOf(t, entries[i].value);
      if PrintedNumber(t, entries[i].value, 1, env).value < PrintedNumber(t, entries[j].value, 1, env).value {
        WrongArrangement(t, entries, top, env, i, j);
      } else {
        WrongArrangement(t, entries, top, env, j, i);
      }
    }
  }

  lemma WidthOf(t: SizedType, value: seq<byte>)
    requires t.Scalar? && t.kind == IntegerTy && IsCollected(t, value)
    ensures t.bits <= 64
  {
  }

  lemma NothingLost(t: SizedType, entries: seq<MapEntry>, sorted: seq<T.Entry<MapEntry>>, top: nat, env: Env)
    requires t.Scalar? && t.kind == IntegerTy && AllCollected(t, entries)
    requires T.Arrangement(RankedEntries(t, entries), sorted)
    requires forall k :: 0 <= k < |entries| ==> PrintedNumber(t, entries[k].value, 1, env).Some?
    requires top == 0 || |entries| <= top || AllSame(t, entries, env)
    ensures KeepsGreatest(t, sorted, top, 1, env)
  {
    hide IsCollected, PrintedNumber, RankOf, T.Ascending, T.Kept;
    T.SameSize(RankedEntries(t, entries), sorted);
    KeptAreSorted(sorted, top);
    forall d, e | d in Dropped(sorted, top) && e in T.Kept(sorted, top) ensures NotBelow(t, d.key, e.key, 1, env) {
      SortedMember(t, entries, sorted, d);
      SortedMember(t, entries, sorted, e);
    }
  }

  // @x[1] = 3; @x[2] = 1; print(@x, 1): the values take a byte each, and the 1 may be printed.
  lemma NarrowTopFails(env: Env)
    ensures var t, a, b := CreateInteger(8, false), MapEntry([1], [3]), MapEntry([2], [1]);
      var sorted := RankedEntries(t, [a, b]);
      && AllCollected(t, [a, b]) && T.Arrangement(sorted, sorted)
      && T.Kept(sorted, 1) == [T.Entry(b, 0)] && Dropped(sorted, 1) == [T.Entry(a, 0)]
      && PrintedNumber(t, a.value, 1, env) == Some(3) && PrintedNumber(t, b.value, 1, env) == Some(1)
  {
    var t, a, b := CreateInteger(8, false), MapEntry([1], [3]), MapEntry([2], [1]);
    PrintedByte(3, env);
    PrintedByte(1, env);
    hide PrintedNumber, RankOf;
    var sorted := RankedEntries(t, [a, b]);
    assert sorted == [T.Entry(a, 0), T.Entry(b, 0)];
    assert sorted[..1] == [T.Entry(a, 0)] && sorted[1..] == [T.Entry(b, 0)];
  }

  lemma PrintedByte(v: byte, env: Env)
    ensures var t := CreateInteger(8, false);
      IsCollected(t, [v]) && RankOf(t, [v]) == 0 && PrintedNumber(t, [v], 1, env) == Some(v)
  {
    NarrowRank(CreateInteger(8, false), [v]);
    OneByte(v);
  }

  lemma OneByte(v: byte)
    ensures Reduce([v], 1) == v
  {
    RoundTrip.ReduceOne([v], 1);
    assert [v][1..] == [];
  }
}
