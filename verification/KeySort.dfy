/**
 Sorting map entries by key (`sort_by_key` in src/types_format.cpp): one stable sort per tuple
 field, last field first.
 */
module KeySort {
  import opened SizedTypes
  import opened Bytes
  import opened Codec

  datatype Row = Row(key: seq<byte>, value: seq<byte>)

  // What one stable sort compares: a signed integer of the key, a fixed run of its bytes, or
  // the whole key.
  datatype SortField = IntAt(offset: int, width: nat) | BytesAt(offset: int, size: int) | WholeKey

  function Part(row: Row, offset: int, size: int): seq<byte> {
    if 0 <= offset <= offset + size <= |row.key| then row.key[offset..offset + size] else []
  }

  // memcmp over the common length, then the shorter one first.
  function CompareBytes(a: seq<byte>, b: seq<byte>): Ordering {
    if a == [] || b == [] then CompareInt(|a|, |b|)
    else Then(CompareInt(a[0], b[0]), CompareBytes(a[1..], b[1..]))
  }

  function SignedAt(row: Row, offset: int, width: nat): int {
    var bytes := Part(row, offset, width);
    ToSigned(|bytes|, FromLE(bytes))
  }

  function CompareBy(f: SortField, a: Row, b: Row): Ordering {
    match f
    case IntAt(offset, width) => CompareInt(SignedAt(a, offset, width), SignedAt(b, offset, width))
    case BytesAt(offset, size) => CompareBytes(Part(a, offset, size), Part(b, offset, size))
    case WholeKey => CompareBytes(a.key, b.key)
  }

  // Lexicographic order by several fields, the first field first.
  function Lexicographic(fs: seq<SortField>, a: Row, b: Row): Ordering {
    if fs == [] then Equal else Then(CompareBy(fs[0], a, b), Lexicographic(fs[1..], a, b))
  }

  // The comparisons are total preorders.

  lemma {:induction false} CompareBytesFlip(a: seq<byte>, b: seq<byte>)
    ensures CompareBytes(b, a) == Flip(CompareBytes(a, b))
  {
    if a != [] && b != [] {
      CompareBytesFlip(a[1..], b[1..]);
    }
  }

  lemma {:induction false} CompareBytesTransitive(a: seq<byte>, b: seq<byte>, c: seq<byte>)
    requires CompareBytes(a, b) != Greater && CompareBytes(b, c) != Greater
    ensures CompareBytes(a, c) == Then(CompareBytes(a, b), CompareBytes(b, c))
  {
    if a != [] && b != [] && c != [] && a[0] == b[0] == c[0] {
      CompareBytesTransitive(a[1..], b[1..], c[1..]);
    }
  }

  lemma {:induction false} LexicographicFlip(fs: seq<SortField>, a: Row, b: Row)
    ensures Lexicographic(fs, b, a) == Flip(Lexicographic(fs, a, b))
  {
    if fs != [] {
      if fs[0].BytesAt? {
        CompareBytesFlip(Part(a, fs[0].offset, fs[0].size), Part(b, fs[0].offset, fs[0].size));
      } else if fs[0].WholeKey? {
        CompareBytesFlip(a.key, b.key);
      }
      LexicographicFlip(fs[1..], a, b);
    }
  }

  lemma CompareByTransitive(f: SortField, a: Row, b: Row, c: Row)
    requires CompareBy(f, a, b) != Greater && CompareBy(f, b, c) != Greater
    ensures CompareBy(f, a, c) == Then(CompareBy(f, a, b), CompareBy(f, b, c))
  {
    if f.BytesAt? {
      CompareBytesTransitive(Part(a, f.offset, f.size), Part(b, f.offset, f.size), Part(c, f.offset, f.size));
    } else if f.WholeKey? {
      CompareBytesTransitive(a.key, b.key, c.key);
    }
  }

  lemma {:induction false} LexicographicTransitive(fs: seq<SortField>, a: Row, b: Row, c: Row)
    requires Lexicographic(fs, a, b) != Greater && Lexicographic(fs, b, c) != Greater
    ensures Lexicographic(fs, a, c) == Then(Lexicographic(fs, a, b), Lexicographic(fs, b, c))
  {
    if fs != [] {
      CompareByTransitive(fs[0], a, b, c);
      if CompareBy(fs[0], a, b) == Equal && CompareBy(fs[0], b, c) == Equal {
        LexicographicTransitive(fs[1..], a, b, c);
      }
    }
  }

  // Stable sorting.

  predicate Sorted(fs: seq<SortField>, s: seq<Row>) {
    forall i, j :: 0 <= i < j < |s| ==> Lexicographic(fs, s[i], s[j]) != Greater
  }

  // The rows of s that tie with x, in their order.
  function Ties(fs: seq<SortField>, x: Row, s: seq<Row>): seq<Row> {
    if s == [] then []
    else (if Lexicographic(fs, s[0], x) == Equal then [s[0]] else []) + Ties(fs, x, s[1..])
  }

  // r is s sorted, with the rows of every tie class in the order they had in s.
  ghost predicate IsStableSort(fs: seq<SortField>, s: seq<Row>, r: seq<Row>) {
    Sorted(fs, r) && forall x :: Ties(fs, x, r) == Ties(fs, x, s)
  }

  // Main result: sorting by the later fields and then, stably, by the first one is a stable
  // sort by all of them.
  lemma LastToFirst(f: SortField, fs: seq<SortField>, s: seq<Row>, t: seq<Row>, r: seq<Row>)
    requires IsStableSort(fs, s, t) && IsStableSort([f], t, r)
    ensures IsStableSort([f] + fs, s, r)
  {
    forall x ensures Ties([f] + fs, x, r) == Ties([f] + fs, x, s) {
      TiesOfBoth(f, fs, x, r);
      TiesOfBoth(f, fs, x, s);
      TiesOfBoth(f, fs, x, t);
      assert Ties([f], x, r) == Ties([f], x, t);
    }
    forall i, j | 0 <= i < j < |r| ensures Lexicographic([f] + fs, r[i], r[j]) != Greater {
      OrderWithinTies(f, fs, t, r, i, j);
    }
  }

  lemma OneField(f: SortField, a: Row, b: Row)
    ensures Lexicographic([f], a, b) == CompareBy(f, a, b)
  {
    assert [f][1..] == [];
  }

  lemma Several(f: SortField, fs: seq<SortField>, a: Row, b: Row)
    ensures Lexicographic([f] + fs, a, b) == Then(CompareBy(f, a, b), Lexicographic(fs, a, b))
  {
    assert ([f] + fs)[1..] == fs;
  }

  // Ties under both are the ties of ties, in either order.
  lemma {:induction false} TiesOfBoth(f: SortField, fs: seq<SortField>, x: Row, s: seq<Row>)
    ensures Ties([f] + fs, x, s) == Ties(fs, x, Ties([f], x, s)) == Ties([f], x, Ties(fs, x, s))
  {
    if s != [] {
      OneField(f, s[0], x);
      Several(f, fs, s[0], x);
      TiesOfBoth(f, fs, x, s[1..]);
      TiesCons([f], fs, x, s);
      TiesCons(fs, [f], x, s);
    }
  }

  lemma TiesCons(gs: seq<SortField>, fs: seq<SortField>, x: Row, s: seq<Row>)
    requires s != []
    ensures Ties(fs, x, Ties(gs, x, s)) ==
            (if Lexicographic(gs, s[0], x) == Equal && Lexicographic(fs, s[0], x) == Equal then [s[0]] else [])
            + Ties(fs, x, Ties(gs, x, s[1..]))
  {
    if Lexicographic(gs, s[0], x) == Equal {
      assert Ties(gs, x, s)[1..] == Ties(gs, x, s[1..]);
    } else {
      assert Ties(gs, x, s) == Ties(gs, x, s[1..]);
    }
  }

  lemma OrderWithinTies(f: SortField, fs: seq<SortField>, t: seq<Row>, r: seq<Row>, i: nat, j: nat)
    requires Sorted(fs, t) && IsStableSort([f], t, r) && i < j < |r|
    ensures Lexicographic([f] + fs, r[i], r[j]) != Greater
  {
    OneField(f, r[i], r[j]);
    Several(f, fs, r[i], r[j]);
    if CompareBy(f, r[i], r[j]) == Equal {
      LexicographicFlip([f], r[i], r[j]);
      LexicographicFlip([f], r[i], r[i]);
      TiesSorted([f], fs, r[i], t);
      SortedTiesInOrder([f], fs, r[i], r, i, j);
    }
  }

  // When the ties are sorted, any two members of the tie class are in order.
  lemma {:induction false} SortedTiesInOrder(gs: seq<SortField>, fs: seq<SortField>, x: Row, s: seq<Row>,
                                             i: nat, j: nat)
    requires Sorted(fs, Ties(gs, x, s))
    requires i < j < |s| && Lexicographic(gs, s[i], x) == Equal && Lexicographic(gs, s[j], x) == Equal
    ensures Lexicographic(fs, s[i], s[j]) != Greater
  {
    hide Lexicographic;
    var ts := Ties(gs, x, s);
    if i == 0 {
      var p := AmongTies(gs, x, s[1..], j - 1);
      assert ts[0] == s[0] && ts[p + 1] == s[j];
    } else {
      SortedRest(gs, fs, x, s);
      SortedTiesInOrder(gs, fs, x, s[1..], i - 1, j - 1);
    }
  }

  lemma SortedRest(gs: seq<SortField>, fs: seq<SortField>, x: Row, s: seq<Row>)
    requires s != [] && Sorted(fs, Ties(gs, x, s))
    ensures Sorted(fs, Ties(gs, x, s[1..]))
  {
    var ts := Ties(gs, x, s[1..]);
    if Lexicographic(gs, s[0], x) == Equal {
      SortedTail(fs, s[0], ts);
    } else {
      assert [] + ts == ts;
    }
  }

  lemma SortedTail(fs: seq<SortField>, a: Row, ts: seq<Row>)
    requires Sorted(fs, [a] + ts)
    ensures Sorted(fs, ts)
  {
    forall i, j | 0 <= i < j < |ts| ensures Lexicographic(fs, ts[i], ts[j]) != Greater {
      var all := [a] + ts;
      assert all[i + 1] == ts[i] && all[j + 1] == ts[j];
    }
  }

  lemma {:induction false} AmongTies(fs: seq<SortField>, x: Row, s: seq<Row>, i: nat) returns (p: nat)
    requires i < |s| && Lexicographic(fs, s[i], x) == Equal
    ensures p < |Ties(fs, x, s)| && Ties(fs, x, s)[p] == s[i]
  {
    hide Lexicographic;
    if i == 0 {
      p := 0;
    } else {
      p := AmongTies(fs, x, s[1..], i - 1);
      if Lexicographic(fs, s[0], x) == Equal {
        p := p + 1;
      }
    }
  }

  lemma {:induction false} TiesComeFrom(fs: seq<SortField>, x: Row, s: seq<Row>, p: nat) returns (i: nat)
    requires p < |Ties(fs, x, s)|
    ensures i < |s| && s[i] == Ties(fs, x, s)[p] && Lexicographic(fs, s[i], x) == Equal
  {
    hide Lexicographic;
    if Lexicographic(fs, s[0], x) == Equal && p == 0 {
      i := 0;
    } else {
      i := TiesComeFrom(fs, x, s[1..], if Lexicographic(fs, s[0], x) == Equal then p - 1 else p);
      i := i + 1;
    }
  }

  // Ties of a sorted sequence are sorted.
  lemma {:induction false} TiesSorted(gs: seq<SortField>, fs: seq<SortField>, x: Row, s: seq<Row>)
    requires Sorted(fs, s)
    ensures Sorted(fs, Ties(gs, x, s))
  {
    hide Lexicographic;
    if s != [] {
      TiesSorted(gs, fs, x, s[1..]);
      var ts := Ties(gs, x, s[1..]);
      forall p | 0 <= p < |ts| ensures Lexicographic(fs, s[0], ts[p]) != Greater {
        var i := TiesComeFrom(gs, x, s[1..], p);
        assert s[i + 1] == ts[p];
      }
    }
  }

  // A stable sort is a permutation, and there is only one.

  lemma {:induction false} TiesCountSelf(fs: seq<SortField>, x: Row, s: seq<Row>)
    ensures multiset(Ties(fs, x, s))[x] == multiset(s)[x]
  {
    if s != [] {
      LexicographicFlip(fs, x, x);
      TiesCountSelf(fs, x, s[1..]);
      assert s == [s[0]] + s[1..];
    }
  }

  lemma StableSortPermutes(fs: seq<SortField>, s: seq<Row>, r: seq<Row>)
    requires IsStableSort(fs, s, r)
    ensures multiset(r) == multiset(s)
  {
    forall x ensures multiset(r)[x] == multiset(s)[x] {
      TiesCountSelf(fs, x, r);
      TiesCountSelf(fs, x, s);
      assert Ties(fs, x, r) == Ties(fs, x, s);
    }
  }

  lemma {:induction false} StableSortUnique(fs: seq<SortField>, q: seq<Row>, r: seq<Row>)
    requires Sorted(fs, q) && Sorted(fs, r)
    requires forall x :: Ties(fs, x, q) == Ties(fs, x, r)
    ensures q == r
  {
    if q != [] && r != [] {
      SameHead(fs, q, r);
      forall x ensures Ties(fs, x, q[1..]) == Ties(fs, x, r[1..]) {
        assert Ties(fs, x, q) == Ties(fs, x, r);
        TiesTail(fs, x, q);
        TiesTail(fs, x, r);
      }
      StableSortUnique(fs, q[1..], r[1..]);
      assert q == [q[0]] + q[1..] && r == [r[0]] + r[1..];
    } else if q != [] {
      HeadTies(fs, q);
    } else if r != [] {
      HeadTies(fs, r);
    }
  }

  lemma HeadTies(fs: seq<SortField>, s: seq<Row>)
    requires s != []
    ensures Ties(fs, s[0], s) != []
  {
    LexicographicFlip(fs, s[0], s[0]);
  }

  lemma TiesTail(fs: seq<SortField>, x: Row, s: seq<Row>)
    requires s != []
    ensures Ties(fs, x, s[1..]) ==
            if Lexicographic(fs, s[0], x) == Equal then Ties(fs, x, s)[1..] else Ties(fs, x, s)
  {
  }

  lemma SameHead(fs: seq<SortField>, q: seq<Row>, r: seq<Row>)
    requires Sorted(fs, q) && Sorted(fs, r) && q != [] && r != []
    requires forall x :: Ties(fs, x, q) == Ties(fs, x, r)
    ensures q[0] == r[0]
  {
    HeadNotAfter(fs, q, r);
    HeadNotAfter(fs, r, q);
    LexicographicFlip(fs, q[0], r[0]);
    LexicographicFlip(fs, q[0], q[0]);
    assert Ties(fs, q[0], q)[0] == q[0] && Ties(fs, q[0], r)[0] == r[0];
  }

  lemma HeadNotAfter(fs: seq<SortField>, q: seq<Row>, r: seq<Row>)
    requires Sorted(fs, r) && q != [] && r != []
    requires forall x :: Ties(fs, x, q) == Ties(fs, x, r)
    ensures Lexicographic(fs, r[0], q[0]) != Greater
  {
    LexicographicFlip(fs, q[0], q[0]);
    assert Ties(fs, q[0], q)[0] == q[0];
    assert Ties(fs, q[0], r) == Ties(fs, q[0], q);
    var i := TiesComeFrom(fs, q[0], r, 0);
    LexicographicFlip(fs, r[0], r[0]);
  }

  // A stable sort by insertion, standing for the library's.

  function Insert(f: SortField, x: Row, s: seq<Row>): (r: seq<Row>)
    ensures |r| == |s| + 1
  {
    if s == [] || CompareBy(f, x, s[0]) != Greater then [x] + s
    else [s[0]] + Insert(f, x, s[1..])
  }

  function InsertionSort(f: SortField, s: seq<Row>): (r: seq<Row>)
    ensures |r| == |s|
  {
    if s == [] then [] else Insert(f, s[0], InsertionSort(f, s[1..]))
  }

  lemma {:induction false} InsertKeepsTies(f: SortField, x: Row, s: seq<Row>, y: Row)
    ensures Ties([f], y, Insert(f, x, s)) == Ties([f], y, [x] + s)
  {
    if s != [] && CompareBy(f, x, s[0]) == Greater {
      var r := Insert(f, x, s);
      assert r[1..] == Insert(f, x, s[1..]);
      InsertKeepsTies(f, x, s[1..], y);
      assert ([x] + s)[1..] == s && ([x] + s[1..])[1..] == s[1..];
      OneField(f, x, s[0]);
      OneField(f, x, y);
      OneField(f, s[0], y);
      LexicographicFlip([f], x, s[0]);
      LexicographicFlip([f], x, y);
      if CompareBy(f, x, y) == Equal && CompareBy(f, s[0], y) == Equal {
        OneField(f, y, s[0]);
        LexicographicFlip([f], s[0], y);
        LexicographicTransitive([f], x, y, s[0]);
      }
    }
  }

  lemma {:induction false} InsertSorted(f: SortField, x: Row, s: seq<Row>)
    requires Sorted([f], s)
    ensures Sorted([f], Insert(f, x, s))
    ensures forall i :: 0 <= i <= |s| ==> Insert(f, x, s)[i] == x || Insert(f, x, s)[i] in s
  {
    if s != [] {
      OneField(f, x, s[0]);
      if CompareBy(f, x, s[0]) != Greater {
        forall i | 0 <= i < |s| ensures Lexicographic([f], x, s[i]) != Greater {
          if i > 0 {
            LexicographicTransitive([f], x, s[0], s[i]);
          }
        }
      } else {
        InsertSorted(f, x, s[1..]);
        LexicographicFlip([f], x, s[0]);
        var r := Insert(f, x, s[1..]);
        forall i | 0 <= i < |r| ensures Lexicographic([f], s[0], r[i]) != Greater {
        }
      }
    }
  }

  lemma {:induction false} InsertionSortStable(f: SortField, s: seq<Row>)
    ensures IsStableSort([f], s, InsertionSort(f, s))
  {
    if s != [] {
      var t := InsertionSort(f, s[1..]);
      InsertionSortStable(f, s[1..]);
      InsertSorted(f, s[0], t);
      forall x ensures Ties([f], x, InsertionSort(f, s)) == Ties([f], x, s) {
        InsertKeepsTies(f, s[0], t, x);
        assert ([s[0]] + t)[1..] == t;
        assert Ties([f], x, t) == Ties([f], x, s[1..]);
      }
    }
  }

  // The fields a key is sorted by.  Fields that are neither integers nor strings are skipped.

  predicate SortableInteger(t: SizedType) {
    IsInteger(t) && Size(t) in {1, 2, 4, 8}
  }

  function FieldOrder(field: Field): seq<SortField> {
    if IsInteger(field.ty) then [IntAt(field.offset, field.ty.bits / 8)]
    else if IsString(field.ty) then [BytesAt(field.offset, Size(field.ty))]
    else []
  }

  function TupleOrder(fs: seq<Field>): seq<SortField> {
    if fs == [] then [] else FieldOrder(fs[0]) + TupleOrder(fs[1..])
  }

  function KeyOrder(key: SizedType): seq<SortField> {
    if key.Tuple? then TupleOrder(key.inner.fields)
    else if IsInteger(key) then [IntAt(0, key.bits / 8)]
    else if IsString(key) then [WholeKey]
    else []
  }

  // An integer of another size stops the program with an internal error.
  predicate NoBadInteger(key: SizedType) {
    if key.Tuple? then forall i :: 0 <= i < |key.inner.fields| && IsInteger(key.inner.fields[i].ty) ==>
                         SortableInteger(key.inner.fields[i].ty)
    else IsInteger(key) ==> SortableInteger(key)
  }

  // The entries collected from a map, sorted in place.
  class Entries {
    var rows: seq<Row>

    constructor (rows: seq<Row>)
      ensures this.rows == rows
    {
      this.rows := rows;
    }

    method StableSort(f: SortField)
      modifies this
      ensures IsStableSort([f], old(rows), rows)
    {
      InsertionSortStable(f, rows);
      rows := InsertionSort(f, rows);
    }

    // `bug` is the internal error.  Every slice of a key lies inside it.
    method SortByKey(key: SizedType) returns (bug: bool)
      requires WellLaid(key) && forall i :: 0 <= i < |rows| ==> |rows[i].key| >= Size(key)
      modifies this
      ensures bug <==> !NoBadInteger(key)
      ensures !bug ==> IsStableSort(KeyOrder(key), old(rows), rows)
    {
      bug := false;
      if key.Tuple? {
        var fields := key.inner.fields;
        var i := |fields|;
        assert fields[i..] == [];
        while i > 0
          invariant 0 <= i <= |fields|
          invariant IsStableSort(TupleOrder(fields[i..]), old(rows), rows)
          invariant forall j :: i <= j < |fields| && IsInteger(fields[j].ty) ==> SortableInteger(fields[j].ty)
        {
          i := i - 1;
          var field := fields[i];
          assert fields[i..][1..] == fields[i + 1..];
          ghost var before := rows;
          if IsInteger(field.ty) {
            if Size(field.ty) !in {1, 2, 4, 8} {
              bug := true;
              return;
            }
            StableSort(IntAt(field.offset, field.ty.bits / 8));
            LastToFirst(IntAt(field.offset, field.ty.bits / 8), TupleOrder(fields[i + 1..]), old(rows), before, rows);
          } else if IsString(field.ty) {
            StableSort(BytesAt(field.offset, Size(field.ty)));
            LastToFirst(BytesAt(field.offset, Size(field.ty)), TupleOrder(fields[i + 1..]), old(rows), before, rows);
          } else {
            assert [] + TupleOrder(fields[i + 1..]) == TupleOrder(fields[i + 1..]);
          }
        }
        assert fields[0..] == fields;
      } else if IsInteger(key) {
        if Size(key) !in {1, 2, 4, 8} {
          bug := true;
          return;
        }
        StableSort(IntAt(0, key.bits / 8));
      } else if IsString(key) {
        StableSort(WholeKey);
      }
    }
  }
}
