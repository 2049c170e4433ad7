/**
 The allocator of records and tuples (src/struct.cpp:63-101) and what makes its layout right:
 in order, aligned, disjoint, in bounds, and least among all layouts with these properties.
 */
module Layout {
  import opened Arithmetic
  import opened SizedTypes

  const INT_RANGE: int := 0x1_0000_0000

  // Conversion of a signed 64-bit value to `int`, the type of a struct's size and alignment.
  function Narrow(n: int): int {
    var m := n % INT_RANGE;
    if m < INT_RANGE / 2 then m else m - INT_RANGE
  }

  // Bytes to add to offset to reach the next multiple of align.
  function Padding(align: int, offset: int): int
    requires align > 0
  {
    (align - (offset % align)) % align
  }

  function Max(a: int, b: int): int {
    if a < b then b else a
  }

  // The allocator divides by the alignment; `ZeroAlignmentIff` says when that is zero.
  predicate Placeable(t: SizedType) {
    InTupleAlignment(t) > 0 && Size(t) >= 0
  }

  predicate AllPlaceable(tys: seq<SizedType>) {
    forall i :: 0 <= i < |tys| ==> Placeable(tys[i])
  }

  // The type, or the element of an array of it, is no record or tuple without an alignment.
  predicate StructsAligned(t: SizedType) {
    match t
    case Array(_, elem) => StructsAligned(elem)
    case Record(_, inner) => inner.align > 0
    case Tuple(inner) => inner.align > 0
    case Scalar(_, _, _, _) => true
    case Pointer(_) => true
  }

  // An in-tuple alignment is zero exactly for types of size zero other than byte arrays, records and
  // tuples: empty scalars and empty arrays, but no empty string and no empty tuple.
  lemma {:induction false} ZeroAlignmentIff(t: SizedType)
    requires StructsAligned(t)
    ensures InTupleAlignment(t) == 0 <==> Size(t) == 0 && !IsByteArray(t) && !t.Record? && !t.Tuple?
  {
    if t.Array? && Size(t) > 2 {
      PositiveElement(t.count, Size(t.elem));
      ZeroAlignmentIff(t.elem);
    }
  }

  lemma PositiveElement(count: nat, size: int)
    requires count * size > 0
    ensures size > 0
  {
  }

  lemma EmptyTypes(elem: SizedType)
    ensures InTupleAlignment(Array(0, elem)) == 0 && InTupleAlignment(Scalar(NoneTy, 0, false, "")) == 0
    ensures InTupleAlignment(CreateString(0)) == 1 && InTupleAlignment(Tuple(Struct(0, 1, false, []))) == 1
  {
    assert Size(Array(0, elem)) == 0;
  }

  // Greedy placement of the first i types: where type i goes, and where the first i end.
  function PlaceAt(tys: seq<SizedType>, i: nat): int
    requires i < |tys| && AllPlaceable(tys)
    decreases i, 1
  {
    EndAfter(tys, i) + Padding(InTupleAlignment(tys[i]), EndAfter(tys, i))
  }

  function EndAfter(tys: seq<SizedType>, i: nat): int
    requires i <= |tys| && AllPlaceable(tys)
    decreases i, 0
  {
    if i == 0 then 0 else PlaceAt(tys, i - 1) + Size(tys[i - 1])
  }

  function AlignOfFirst(tys: seq<SizedType>, i: nat): int
    requires i <= |tys|
  {
    if i == 0 then 1 else Max(InTupleAlignment(tys[i - 1]), AlignOfFirst(tys, i - 1))
  }

  function TotalSize(tys: seq<SizedType>): int
    requires AllPlaceable(tys)
  {
    AlignPositive(tys, |tys|);
    EndAfter(tys, |tys|) + Padding(AlignOfFirst(tys, |tys|), EndAfter(tys, |tys|))
  }

  lemma AlignPositive(tys: seq<SizedType>, i: nat)
    requires i <= |tys|
    ensures AlignOfFirst(tys, i) >= 1
  {
  }

  // The greatest alignment of the types, and 1 if there are none.
  ghost predicate IsGreatestAlignment(tys: seq<SizedType>, align: int) {
    && align >= 1 && (forall i :: 0 <= i < |tys| ==> InTupleAlignment(tys[i]) <= align)
    && (align == 1 || exists i :: 0 <= i < |tys| && InTupleAlignment(tys[i]) == align)
  }

  lemma {:induction false} AlignIsGreatest(tys: seq<SizedType>, i: nat)
    requires i <= |tys|
    ensures IsGreatestAlignment(tys[..i], AlignOfFirst(tys, i))
  {
    hide InTupleAlignment;
    if i > 0 {
      AlignIsGreatest(tys, i - 1);
      assert tys[..i][..i - 1] == tys[..i - 1];
      assert tys[..i][i - 1] == tys[i - 1];
      forall j | 0 <= j < i ensures InTupleAlignment(tys[..i][j]) <= AlignOfFirst(tys, i) {
        if j < i - 1 {
          assert tys[..i][j] == tys[..i - 1][j];
        }
      }
      var before := AlignOfFirst(tys, i - 1);
      if before > 1 && AlignOfFirst(tys, i) == before {
        var j :| 0 <= j < i - 1 && InTupleAlignment(tys[..i - 1][j]) == before;
        assert tys[..i][j] == tys[..i - 1][j];
      }
    }
  }

  // Field i begins after the end of the field before it.
  predicate HasGap(fs: seq<Field>, i: nat)
    requires i < |fs|
  {
    fs[i].offset != if i == 0 then 0 else fs[i - 1].offset + Size(fs[i - 1].ty)
  }

  predicate IsPlaced(f: Field, tys: seq<SizedType>, names: seq<string>, i: nat)
    requires i < |tys| && AllPlaceable(tys) && (names == [] || |names| == |tys|)
  {
    f.name == (if names == [] then "" else names[i]) && f.ty == tys[i] && f.offset == PlaceAt(tys, i)
  }

  lemma SameGaps(before: seq<Field>, fields: seq<Field>)
    requires |fields| == |before| + 1 && fields[..|before|] == before
    ensures forall j :: 0 <= j < |before| ==> (HasGap(fields, j) <==> HasGap(before, j))
  {
    assert forall j :: 0 <= j < |before| ==> fields[j] == before[j];
  }

  lemma GapIsPadding(fields: seq<Field>, end: int, padding: int)
    requires fields != [] && fields[|fields| - 1].offset == end + padding
    requires end == if |fields| == 1 then 0 else fields[|fields| - 2].offset + Size(fields[|fields| - 2].ty)
    ensures HasGap(fields, |fields| - 1) <==> padding != 0
  {
  }

  method CreateRecord(tys: seq<SizedType>, names: seq<string>) returns (record: Struct)
    requires names == [] || |names| == |tys|
    requires AllPlaceable(tys)
    ensures |record.fields| == |tys|
    ensures forall i :: 0 <= i < |tys| ==>
      record.fields[i].name == (if names == [] then "" else names[i]) && record.fields[i].ty == tys[i]
    ensures forall i :: 0 <= i < |tys| ==> record.fields[i].offset == PlaceAt(tys, i)
    ensures IsLeastLayout(tys, Offsets(record.fields))
    ensures record.align == Narrow(AlignOfFirst(tys, |tys|))
    ensures exists a :: IsGreatestAlignment(tys, a) && record.align == Narrow(a)
    ensures record.size == Narrow(TotalSize(tys))
    ensures record.padded <==> exists i :: 0 <= i < |tys| && HasGap(record.fields, i)
  {
    hide InTupleAlignment, Padding, Size, Narrow, IsGreatestAlignment, IsLeastLayout, HasGap;
    var fields, padded, offset, structAlign := [], false, 0, 1;
    for i := 0 to |tys|
      invariant offset == EndAfter(tys, i)
      invariant structAlign == AlignOfFirst(tys, i) >= 1
      invariant |fields| == i
      invariant forall j :: 0 <= j < i ==> IsPlaced(fields[j], tys, names, j)
      invariant padded <==> exists j :: 0 <= j < i && HasGap(fields, j)
    {
      var align := InTupleAlignment(tys[i]);
      structAlign := Max(align, structAlign);
      var padding := Padding(align, offset);
      if padding != 0 {
        padded := true;
      }
      ghost var before := fields;
      fields := fields + [Field(if names == [] then "" else names[i], tys[i], offset + padding)];
      SameGaps(before, fields);
      assert i > 0 ==> IsPlaced(fields[i - 1], tys, names, i - 1);
      GapIsPadding(fields, offset, padding);
      offset := offset + padding + Size(tys[i]);
    }
    var total := offset + Padding(structAlign, offset);
    assert total == TotalSize(tys);
    AlignIsGreatest(tys, |tys|);
    assert tys[..|tys|] == tys;
    record := Struct(Narrow(total), Narrow(structAlign), padded, fields);
    GreedyIsLeastLayout(tys, Offsets(record.fields));
  }

  // Layouts in general.

  function Offsets(fs: seq<Field>): (os: seq<int>)
    ensures |os| == |fs| && forall i :: 0 <= i < |fs| ==> os[i] == fs[i].offset
  {
    seq(|fs|, i requires 0 <= i < |fs| => fs[i].offset)
  }

  function Types(fs: seq<Field>): (tys: seq<SizedType>)
    ensures |tys| == |fs| && forall i :: 0 <= i < |fs| ==> tys[i] == fs[i].ty
  {
    seq(|fs|, i requires 0 <= i < |fs| => fs[i].ty)
  }

  // Offsets that place the types in order, aligned and without overlap.
  predicate IsLayout(tys: seq<SizedType>, os: seq<int>)
    requires AllPlaceable(tys)
  {
    && |os| == |tys|
    && (forall i :: 0 <= i < |os| ==> os[i] >= 0 && os[i] % InTupleAlignment(tys[i]) == 0)
    && (forall i, j :: 0 <= i < j < |os| ==> os[i] + Size(tys[i]) <= os[j])
  }

  // Where the fields of a layout end.
  function LayoutEnd(tys: seq<SizedType>, os: seq<int>): int
    requires |tys| == |os|
  {
    if os == [] then 0 else os[|os| - 1] + Size(tys[|os| - 1])
  }

  predicate NoLaterThan(os: seq<int>, ps: seq<int>) {
    |os| == |ps| && forall i :: 0 <= i < |os| ==> os[i] <= ps[i]
  }

  ghost predicate IsLeastLayout(tys: seq<SizedType>, os: seq<int>)
    requires AllPlaceable(tys)
  {
    IsLayout(tys, os) && forall ps :: IsLayout(tys, ps) ==> NoLaterThan(os, ps)
  }

  // Rounding up gives the least multiple that is not below.
  lemma RoundUp(align: int, x: int)
    requires align > 0
    ensures 0 <= Padding(align, x) < align
    ensures (x + Padding(align, x)) % align == 0
    ensures forall y :: y >= x && y % align == 0 ==> y >= x + Padding(align, x)
  {
    var up := RoundedUp(align, x);
    DivModOf(align, up, 0);
    forall y | y >= x && y % align == 0 ensures y >= x + Padding(align, x) {
      MultipleNotBelow(align, x, up, y / align);
    }
  }

  lemma RoundedUp(align: int, x: int) returns (up: int)
    requires align > 0
    ensures 0 <= Padding(align, x) < align
    ensures x + Padding(align, x) == up * align
    ensures (up - 1) * align < x
  {
    var q, r := x / align, x % align;
    if r == 0 {
      DivModOf(align, 1, 0);
      up := q;
    } else {
      DivModOf(align, 0, align - r);
      up := q + 1;
    }
  }

  lemma MultipleNotBelow(align: int, x: int, up: int, k: int)
    requires align > 0 && (up - 1) * align < x <= k * align
    ensures up * align <= k * align
  {
    if k < up {
      MulLeq(align, k, up - 1);
    } else {
      MulLeq(align, up, k);
    }
  }

  lemma {:induction false} EndsGrow(tys: seq<SizedType>, i: nat, j: nat)
    requires AllPlaceable(tys) && i <= j <= |tys|
    ensures 0 <= EndAfter(tys, i) <= EndAfter(tys, j)
    ensures j < |tys| ==> EndAfter(tys, i) <= PlaceAt(tys, j)
    decreases j
  {
    if j < |tys| {
      RoundUp(InTupleAlignment(tys[j]), EndAfter(tys, j));
    }
    if i < j {
      EndsGrow(tys, i, j - 1);
    } else if i > 0 {
      EndsGrow(tys, i - 1, i - 1);
    }
  }

  // The greedy placement is a layout.
  lemma GreedyIsLayout(tys: seq<SizedType>, os: seq<int>)
    requires AllPlaceable(tys) && |os| == |tys|
    requires forall i :: 0 <= i < |os| ==> os[i] == PlaceAt(tys, i)
    ensures IsLayout(tys, os)
  {
    forall i | 0 <= i < |os| ensures os[i] >= 0 && os[i] % InTupleAlignment(tys[i]) == 0 {
      EndsGrow(tys, i, i);
      RoundUp(InTupleAlignment(tys[i]), EndAfter(tys, i));
    }
    forall i, j | 0 <= i < j < |os| ensures os[i] + Size(tys[i]) <= os[j] {
      EndsGrow(tys, i + 1, j);
    }
  }

  // No layout places any field earlier, or ends earlier, than the greedy one.
  lemma {:induction false} GreedyIsLeast(tys: seq<SizedType>, os: seq<int>, n: nat)
    requires AllPlaceable(tys) && IsLayout(tys, os) && n <= |tys|
    ensures forall i :: 0 <= i < n ==> PlaceAt(tys, i) <= os[i]
    ensures EndAfter(tys, n) <= LayoutEnd(tys[..n], os[..n])
  {
    if n > 0 {
      GreedyIsLeast(tys, os, n - 1);
      RoundUp(InTupleAlignment(tys[n - 1]), EndAfter(tys, n - 1));
      if n > 1 {
        assert os[n - 2] + Size(tys[n - 2]) <= os[n - 1];
      }
    }
  }

  lemma GreedyIsLeastLayout(tys: seq<SizedType>, os: seq<int>)
    requires AllPlaceable(tys) && |os| == |tys|
    requires forall i :: 0 <= i < |os| ==> os[i] == PlaceAt(tys, i)
    ensures IsLeastLayout(tys, os)
  {
    GreedyIsLayout(tys, os);
    forall ps | IsLayout(tys, ps) ensures NoLaterThan(os, ps) {
      GreedyIsLeast(tys, ps, |tys|);
    }
  }

  // A record's total size is the least multiple of its alignment that holds any layout of its
  // fields.
  lemma TotalSizeIsLeast(tys: seq<SizedType>, os: seq<int>, size: int)
    requires AllPlaceable(tys) && IsLayout(tys, os)
    requires size >= LayoutEnd(tys, os)
    requires AlignOfFirst(tys, |tys|) > 0 && size % AlignOfFirst(tys, |tys|) == 0
    ensures TotalSize(tys) <= size
    ensures TotalSize(tys) % AlignOfFirst(tys, |tys|) == 0 && TotalSize(tys) >= EndAfter(tys, |tys|)
  {
    assert tys[..|tys|] == tys && os[..|tys|] == os;
    GreedyIsLeast(tys, os, |tys|);
    RoundUp(AlignOfFirst(tys, |tys|), EndAfter(tys, |tys|));
  }

  // Types as the constructors of src/types.cpp build them, with records and tuples laid out by
  // CreateRecord and no total size beyond the range of `int`.

  predicate NormalAlign(a: int) {
    a == 1 || a == 2 || a == 4 || a == 8
  }

  // Kinds that are read byte by byte, and may lie anywhere.
  predicate IsReadByByte(kind: Kind) {
    kind in {StringTy, BufferTy, InetTy, MacAddressTy, UsymTy, CgroupPathTy, TimestampTy}
  }

  predicate WellBuilt(t: SizedType)
    decreases t, 1
  {
    match t
    case Scalar(kind, bits, _, _) =>
      bits % 8 == 0 && bits > 0 && (IsReadByByte(kind) || bits in {8, 16, 32, 64, 128, 192})
    case Pointer(_) => true
    case Array(count, elem) => WellBuilt(elem) && Size(t) > 0
    case Record(_, inner) => AllWellBuilt(inner.fields) && Built(inner)
    case Tuple(inner) => AllWellBuilt(inner.fields) && Built(inner)
  }

  predicate AllWellBuilt(fs: seq<Field>)
    decreases fs, 0
  {
    fs == [] || (WellBuilt(fs[0].ty) && AllWellBuilt(fs[1..]))
  }

  // The struct is what CreateRecord makes of its field types.
  predicate Built(s: Struct) {
    var tys := Types(s.fields);
    && AllPlaceable(tys)
    && (forall i :: 0 <= i < |tys| ==> s.fields[i].offset == PlaceAt(tys, i))
    && s.align == AlignOfFirst(tys, |tys|)
    && s.size == TotalSize(tys) < INT_RANGE / 2
  }

  lemma {:induction false} AllWellBuiltAt(fs: seq<Field>, i: nat)
    requires AllWellBuilt(fs) && i < |fs|
    ensures WellBuilt(fs[i].ty)
  {
    if i > 0 {
      AllWellBuiltAt(fs[1..], i - 1);
    }
  }

  lemma {:induction false} RunningAlign(tys: seq<SizedType>, n: nat)
    requires n <= |tys|
    requires forall i :: 0 <= i < n ==> NormalAlign(InTupleAlignment(tys[i]))
    ensures NormalAlign(AlignOfFirst(tys, n))
    ensures forall i :: 0 <= i < n ==> InTupleAlignment(tys[i]) <= AlignOfFirst(tys, n)
  {
    if n > 0 {
      RunningAlign(tys, n - 1);
    }
  }

  // Every alignment is one of 1, 2, 4 and 8, and divides the size of its type.
  lemma {:induction false} AlignmentNormal(t: SizedType)
    requires WellBuilt(t)
    ensures NormalAlign(InTupleAlignment(t)) && Size(t) >= 0
    ensures !IsByteArray(t) ==> Size(t) % InTupleAlignment(t) == 0
    decreases t, 1
  {
    match t
    case Scalar(_, _, _, _) =>
    case Pointer(_) =>
    case Array(count, elem) =>
      AlignmentNormal(elem);
      if Size(t) > 2 {
        if IsByteArray(elem) {
        } else {
          MultipleOfMultiple(InTupleAlignment(elem), Size(elem), count);
        }
      }
    case Record(_, inner) => StructAlignment(inner);
    case Tuple(inner) => StructAlignment(inner);
  }

  lemma MultipleOfMultiple(a: int, x: int, k: int)
    requires a > 0 && x % a == 0
    ensures (k * x) % a == 0
  {
    var q := x / a;
    assert k * x == (k * q) * a;
    DivModOf(a, k * q, 0);
  }

  lemma {:induction false} StructAlignment(s: Struct)
    requires AllWellBuilt(s.fields) && Built(s)
    ensures NormalAlign(s.align) && s.size >= 0 && s.size % s.align == 0
    ensures forall i :: 0 <= i < |s.fields| ==>
              NormalAlign(InTupleAlignment(s.fields[i].ty)) && InTupleAlignment(s.fields[i].ty) <= s.align
    decreases s.fields, 2
  {
    var tys := Types(s.fields);
    FieldsNormal(s.fields);
    RunningAlign(tys, |tys|);
    EndsGrow(tys, 0, |tys|);
    RoundUp(s.align, EndAfter(tys, |tys|));
  }

  lemma {:induction false} FieldsNormal(fs: seq<Field>)
    requires AllWellBuilt(fs)
    ensures forall i :: 0 <= i < |fs| ==> NormalAlign(InTupleAlignment(fs[i].ty))
    decreases fs, 0
  {
    if fs != [] {
      AlignmentNormal(fs[0].ty);
      FieldsNormal(fs[1..]);
    }
  }

  predicate Aligned(x: int, a: int) {
    NormalAlign(a) && x % a == 0
  }

  // The alignment that the parts of a type need: a number or an address of one, two, four or eight
  // bytes its own size, longer ones 8, and a record what the most demanding of its fields needs.  An
  // array needs what its elements need, except that two bytes are always kept together.
  function Natural(t: SizedType): int
    decreases t, 1
  {
    match t
    case Scalar(kind, bits, _, _) =>
      if IsReadByByte(kind) || bits == 8 then 1 else if bits == 16 then 2 else if bits == 32 then 4 else 8
    case Pointer(_) => 8
    case Array(count, elem) => if count * Size(elem) == 2 then 2 else Natural(elem)
    case Record(_, inner) => GreatestNatural(inner.fields)
    case Tuple(inner) => GreatestNatural(inner.fields)
  }

  function GreatestNatural(fs: seq<Field>): int
    decreases fs, 0
  {
    if fs == [] then 1
    else
      var first, rest := Natural(fs[0].ty), GreatestNatural(fs[1..]);
      if first > rest then first else rest
  }

  // What the allocator aligns by is what the parts need, at every depth.
  lemma {:induction false} AlignmentIsNatural(t: SizedType)
    requires WellBuilt(t)
    ensures InTupleAlignment(t) == Natural(t)
    decreases t, 1
  {
    match t
    case Scalar(_, _, _, _) =>
    case Pointer(_) =>
    case Array(count, elem) =>
      AlignmentIsNatural(elem);
      hide InTupleAlignment, Natural;
      ArrayIsNatural(t);
    case Record(_, inner) => StructIsNatural(inner);
    case Tuple(inner) => StructIsNatural(inner);
  }

  lemma {:induction false} ArrayIsNatural(t: SizedType)
    requires t.Array? && WellBuilt(t) && InTupleAlignment(t.elem) == Natural(t.elem)
    ensures InTupleAlignment(t) == Natural(t)
  {
    if Size(t) <= 2 {
      SmallArray(t.count, Size(t.elem));
      AlignmentNormal(t.elem);
      if Size(t) == 1 {
        assert Size(t.elem) == 1;
        OneByteAnywhere(t.elem);
      }
    }
  }

  lemma {:induction false} OneByteAnywhere(t: SizedType)
    requires WellBuilt(t) && Size(t) == 1
    ensures InTupleAlignment(t) == 1
  {
    hide InTupleAlignment, WellBuilt, Size, IsByteArray;
    AlignmentNormal(t);
    BytesAnywhere(t);
    if !IsByteArray(t) {
      DividesOne(InTupleAlignment(t));
    }
  }

  lemma BytesAnywhere(t: SizedType)
    ensures IsByteArray(t) ==> InTupleAlignment(t) == 1
  {
  }

  lemma DividesOne(a: int)
    requires NormalAlign(a) && 1 % a == 0
    ensures a == 1
  {
  }

  lemma {:induction false} StructIsNatural(s: Struct)
    requires AllWellBuilt(s.fields) && Built(s)
    ensures s.align == GreatestNatural(s.fields)
    decreases s.fields, 2
  {
    AllNatural(s.fields);
    GreatestIsReached(s.fields);
    AlignIsGreatest(Types(s.fields), |s.fields|);
    SameGreatest(s.fields, s.align);
  }

  lemma {:induction false} SameGreatest(fs: seq<Field>, align: int)
    requires IsGreatestAlignment(Types(fs)[..|fs|], align)
    requires forall i :: 0 <= i < |fs| ==> InTupleAlignment(fs[i].ty) == Natural(fs[i].ty)
    requires forall i :: 0 <= i < |fs| ==> Natural(fs[i].ty) <= GreatestNatural(fs)
    requires GreatestNatural(fs) == 1 || exists i :: 0 <= i < |fs| && Natural(fs[i].ty) == GreatestNatural(fs)
    requires GreatestNatural(fs) >= 1
    ensures align == GreatestNatural(fs)
  {
    hide InTupleAlignment, Natural, GreatestNatural;
    var tys := Types(fs)[..|fs|];
    if align != 1 {
      var i :| 0 <= i < |tys| && InTupleAlignment(tys[i]) == align;
      assert tys[i] == fs[i].ty && align <= GreatestNatural(fs);
    }
    if GreatestNatural(fs) != 1 {
      var i :| 0 <= i < |fs| && Natural(fs[i].ty) == GreatestNatural(fs);
      assert tys[i] == fs[i].ty && GreatestNatural(fs) <= align;
    }
  }

  lemma {:induction false} GreatestIsReached(fs: seq<Field>)
    ensures GreatestNatural(fs) >= 1
    ensures forall i :: 0 <= i < |fs| ==> Natural(fs[i].ty) <= GreatestNatural(fs)
    ensures GreatestNatural(fs) == 1 || exists i :: 0 <= i < |fs| && Natural(fs[i].ty) == GreatestNatural(fs)
  {
    hide Natural;
    if fs != [] {
      GreatestIsReached(fs[1..]);
      assert forall i :: 0 < i < |fs| ==> fs[i] == fs[1..][i - 1];
      if GreatestNatural(fs) != 1 && Natural(fs[0].ty) < GreatestNatural(fs) {
        var i :| 0 <= i < |fs[1..]| && Natural(fs[1..][i].ty) == GreatestNatural(fs[1..]);
        assert fs[i + 1] == fs[1..][i];
      }
    }
  }

  lemma {:induction false} AllNatural(fs: seq<Field>)
    requires AllWellBuilt(fs)
    ensures forall i :: 0 <= i < |fs| ==> InTupleAlignment(fs[i].ty) == Natural(fs[i].ty)
    decreases fs, 0
  {
    if fs != [] {
      AlignmentIsNatural(fs[0].ty);
      AllNatural(fs[1..]);
    }
  }

  // Every number and address inside a type placed at `base` lies at a multiple of its own size, and
  // at a multiple of 8 if it is longer.
  predicate LeavesAligned(t: SizedType, base: int)
    decreases t, 1
  {
    match t
    case Scalar(kind, bits, _, _) =>
      if IsReadByByte(kind) then true
      else if bits in {8, 16, 32, 64} then base % (bits / 8) == 0
      else base % 8 == 0
    case Pointer(_) => base % 8 == 0
    case Array(count, elem) => forall i :: 0 <= i < count ==> LeavesAligned(elem, ElementOffset(base, elem, i))
    case Record(_, inner) => FieldLeavesAligned(inner.fields, base)
    case Tuple(inner) => FieldLeavesAligned(inner.fields, base)
  }

  predicate FieldLeavesAligned(fs: seq<Field>, base: int)
    decreases fs, 0
  {
    fs == [] || (LeavesAligned(fs[0].ty, base + fs[0].offset) && FieldLeavesAligned(fs[1..], base))
  }

  function ElementOffset(base: int, elem: SizedType, i: int): int {
    base + i * Size(elem)
  }

  lemma AlignedSum(small: int, large: int, base: int, offset: int)
    requires NormalAlign(small) && small <= large
    requires Aligned(base, large) && Aligned(offset, small)
    ensures Aligned(base + offset, small)
  {
    AlignedSmaller(small, large, base);
    var j, k := base / small, offset / small;
    assert base + offset == (j + k) * small;
    DivModOf(small, j + k, 0);
  }

  lemma AlignedSmaller(small: int, large: int, x: int)
    requires NormalAlign(small) && small <= large && Aligned(x, large)
    ensures Aligned(x, small)
  {
    var k := if small == large then 1 else if 2 * small == large then 2 else if 4 * small == large then 4 else 8;
    assert x == (k * (x / large)) * small;
    DivModOf(small, k * (x / large), 0);
  }

  lemma {:induction false} LeavesAreAligned(t: SizedType, base: int)
    requires WellBuilt(t) && Aligned(base, InTupleAlignment(t))
    ensures LeavesAligned(t, base)
    decreases t, 1
  {
    match t
    case Scalar(_, _, _, _) =>
    case Pointer(_) =>
    case Array(count, elem) =>
      forall i | 0 <= i < count ensures LeavesAligned(elem, ElementOffset(base, elem, i)) {
        ElementAligned(t, base, i);
        LeavesAreAligned(elem, ElementOffset(base, elem, i));
      }
    case Record(_, inner) => StructFieldsAligned(inner, base);
    case Tuple(inner) => StructFieldsAligned(inner, base);
  }

  lemma ElementAligned(t: SizedType, base: int, i: nat)
    requires t.Array? && WellBuilt(t) && i < t.count
    requires Aligned(base, InTupleAlignment(t))
    ensures Aligned(ElementOffset(base, t.elem, i), InTupleAlignment(t.elem))
  {
    AlignmentNormal(t);
    AlignmentNormal(t.elem);
    var s, a := Size(t.elem), InTupleAlignment(t.elem);
    if IsByteArray(t.elem) {
    } else if Size(t) > 2 {
      MultipleOfMultiple(a, s, i);
      AlignedSum(a, a, base, i * s);
    } else {
      SmallArray(t.count, s);
      if s == 2 {
        assert i == 0;
        AlignedSmaller(a, 2, base);
      } else {
        assert a == 1;
      }
    }
  }

  lemma SmallArray(count: nat, s: int)
    requires s >= 0 && 0 < count * s <= 2
    ensures s == 1 || (s == 2 && count == 1)
  {
    if s >= 2 && count >= 2 {
      MulLeq(s, 2, count);
    } else if s >= 3 {
      MulLeq(s, 1, count);
    }
  }

  lemma PlacementAligned(tys: seq<SizedType>, i: nat)
    requires AllPlaceable(tys) && i < |tys| && NormalAlign(InTupleAlignment(tys[i]))
    ensures Aligned(PlaceAt(tys, i), InTupleAlignment(tys[i]))
  {
    RoundUp(InTupleAlignment(tys[i]), EndAfter(tys, i));
  }

  lemma {:induction false} StructFieldsAligned(s: Struct, base: int)
    requires AllWellBuilt(s.fields) && Built(s) && Aligned(base, s.align)
    ensures FieldLeavesAligned(s.fields, base)
    decreases s.fields, 2
  {
    StructAlignment(s);
    forall i | 0 <= i < |s.fields|
      ensures Aligned(base + s.fields[i].offset, InTupleAlignment(s.fields[i].ty))
    {
      PlacementAligned(Types(s.fields), i);
      AlignedSum(InTupleAlignment(s.fields[i].ty), s.align, base, s.fields[i].offset);
    }
    AllFieldLeavesAligned(s.fields, base);
  }

  lemma {:induction false} AllFieldLeavesAligned(fs: seq<Field>, base: int)
    requires AllWellBuilt(fs)
    requires forall i :: 0 <= i < |fs| ==> Aligned(base + fs[i].offset, InTupleAlignment(fs[i].ty))
    ensures FieldLeavesAligned(fs, base)
    decreases fs, 0
  {
    if fs != [] {
      LeavesAreAligned(fs[0].ty, base + fs[0].offset);
      AllFieldLeavesAligned(fs[1..], base);
    }
  }
}
