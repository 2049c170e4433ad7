/**
 When a value may be copied without conversion (`IsSameSizeRecursive`, src/types.cpp:581-599): of a
 type that fits into another one, exactly when nothing is widened, and then the layouts coincide.
 */
module SameSize {
  import opened SizedTypes
  import opened TypeOrder
  import opened Widening
  import opened Layout

  predicate IsSameSizeRecursive(a: SizedType, b: SizedType)
    decreases a, 1
  {
    Size(a) == Size(b) &&
    (a.Tuple? && b.Tuple? ==>
       |a.inner.fields| == |b.inner.fields| && AllSameSize(a.inner.fields, b.inner.fields))
  }

  predicate AllSameSize(fs: seq<Field>, gs: seq<Field>)
    requires |fs| == |gs|
    decreases fs, 0
  {
    fs == [] || (IsSameSizeRecursive(fs[0].ty, gs[0].ty) && AllSameSize(fs[1..], gs[1..]))
  }

  // Records of one name have one alignment, as they come from one table of records.
  predicate RecordsAgree(a: SizedType, b: SizedType)
    decreases a, 1
  {
    && (a.Record? && b.Record? && a.name == b.name ==> a.inner.align == b.inner.align)
    && (a.Array? && b.Array? ==> RecordsAgree(a.elem, b.elem))
    && (a.Tuple? && b.Tuple? && |a.inner.fields| == |b.inner.fields| ==>
          AllRecordsAgree(a.inner.fields, b.inner.fields))
  }

  predicate AllRecordsAgree(fs: seq<Field>, gs: seq<Field>)
    requires |fs| == |gs|
    decreases fs, 0
  {
    fs == [] || (RecordsAgree(fs[0].ty, gs[0].ty) && AllRecordsAgree(fs[1..], gs[1..]))
  }

  // The same size, and fields of the same layout at the same offsets.
  predicate SameLayout(a: SizedType, b: SizedType)
    decreases a, 1
  {
    && Size(a) == Size(b) && InTupleAlignment(a) == InTupleAlignment(b)
    && (a.Tuple? && b.Tuple? ==>
          |a.inner.fields| == |b.inner.fields| && SameFieldLayouts(a.inner.fields, b.inner.fields))
  }

  predicate SameFieldLayouts(fs: seq<Field>, gs: seq<Field>)
    requires |fs| == |gs|
    decreases fs, 0
  {
    fs == [] || (fs[0].offset == gs[0].offset && SameLayout(fs[0].ty, gs[0].ty) && SameFieldLayouts(fs[1..], gs[1..]))
  }

  // A fit that changes no size works in both directions, for types of any kind.
  lemma {:induction false} SameSizeFitsBack(a: SizedType, b: SizedType)
    requires FitsInto(a, b) && IsSameSizeRecursive(a, b)
    ensures FitsInto(b, a)
    decreases a, 1
  {
    SameTypeSymmetric(a, b);
    if IsString(a) || IsInteger(a) {
    } else if a.Tuple? {
      SameSizeFieldsFitBack(a.inner.fields, b.inner.fields);
    } else {
      CompareFlip(a, b);
    }
  }

  lemma {:induction false} SameSizeFieldsFitBack(fs: seq<Field>, gs: seq<Field>)
    requires |fs| == |gs| && FieldsFitInto(fs, gs) && AllSameSize(fs, gs)
    ensures FieldsFitInto(gs, fs)
    decreases fs, 0
  {
    if fs != [] {
      SameSizeFitsBack(fs[0].ty, gs[0].ty);
      SameSizeFieldsFitBack(fs[1..], gs[1..]);
    }
  }

  // Equal types have the same layout.

  lemma {:induction false} EqualLayout(a: SizedType, b: SizedType)
    requires IsEqual(a, b) && WellBuilt(a) && WellBuilt(b) && RecordsAgree(a, b)
    ensures SameLayout(a, b)
    decreases a, 1
  {
    if a.Scalar? && b.Scalar? {
      EqualScalars(a, b);
    } else if a.Array? && b.Array? {
      EqualLayout(a.elem, b.elem);
      hide SameFieldLayouts, AllWellBuilt, Built, AllRecordsAgree;
    } else if a.Tuple? && b.Tuple? {
      EqualFieldLayouts(a.inner.fields, b.inner.fields);
      SameStruct(a.inner, b.inner);
      hide AllWellBuilt, Built, AllRecordsAgree, Alike;
    } else {
      EqualLeaves(a, b);
    }
  }

  lemma EqualScalars(a: SizedType, b: SizedType)
    requires a.Scalar? && b.Scalar? && IsEqual(a, b)
    ensures SameLayout(a, b)
  {
    KindRankInjective(a.kind, b.kind);
  }

  lemma EqualLeaves(a: SizedType, b: SizedType)
    requires IsEqual(a, b) && RecordsAgree(a, b)
    requires !(a.Scalar? && b.Scalar?) && !(a.Array? && b.Array?) && !(a.Tuple? && b.Tuple?)
    ensures SameLayout(a, b)
  {
    EqualTypesAreSame(a, b);
    if a.Record? && b.Record? {
      CompareStringEqual(a.name, b.name);
    }
  }

  // Fields with layouts of the same size and alignment, wherever they are.
  predicate Alike(fs: seq<Field>, gs: seq<Field>)
    requires |fs| == |gs|
  {
    forall i :: 0 <= i < |fs| ==> SameLayout(fs[i].ty, gs[i].ty)
  }

  lemma {:induction false} EqualFieldLayouts(fs: seq<Field>, gs: seq<Field>)
    requires |fs| == |gs| && CompareFields(fs, gs) == Equal
    requires AllWellBuilt(fs) && AllWellBuilt(gs) && AllRecordsAgree(fs, gs)
    ensures Alike(fs, gs)
    decreases fs, 0
  {
    if fs != [] {
      EqualLayout(fs[0].ty, gs[0].ty);
      EqualFieldLayouts(fs[1..], gs[1..]);
      AlikeCons(fs, gs);
    }
  }

  lemma AlikeCons(fs: seq<Field>, gs: seq<Field>)
    requires |fs| == |gs| > 0 && SameLayout(fs[0].ty, gs[0].ty) && Alike(fs[1..], gs[1..])
    ensures Alike(fs, gs)
  {
    hide SameLayout;
    forall i | 0 <= i < |fs| ensures SameLayout(fs[i].ty, gs[i].ty) {
      if i > 0 {
        assert SameLayout(fs[1..][i - 1].ty, gs[1..][i - 1].ty);
      }
    }
  }

  // The allocator looks at sizes and alignments only.
  lemma SameStruct(s: Struct, t: Struct)
    requires Built(s) && Built(t) && |s.fields| == |t.fields| && Alike(s.fields, t.fields)
    ensures s.size == t.size && s.align == t.align && SameFieldLayouts(s.fields, t.fields)
  {
    var tys, uys := Types(s.fields), Types(t.fields);
    forall i | 0 <= i < |tys| ensures Size(tys[i]) == Size(uys[i]) && InTupleAlignment(tys[i]) == InTupleAlignment(uys[i]) {
      assert SameLayout(s.fields[i].ty, t.fields[i].ty);
    }
    SamePlacement(tys, uys, |tys|);
    OffsetsAgree(s.fields, t.fields);
  }

  lemma {:induction false} SamePlacement(tys: seq<SizedType>, uys: seq<SizedType>, n: nat)
    requires n <= |tys| == |uys| && AllPlaceable(tys) && AllPlaceable(uys)
    requires forall i :: 0 <= i < |tys| ==>
      Size(tys[i]) == Size(uys[i]) && InTupleAlignment(tys[i]) == InTupleAlignment(uys[i])
    ensures AlignOfFirst(tys, n) == AlignOfFirst(uys, n)
    ensures EndAfter(tys, n) == EndAfter(uys, n)
    ensures forall i :: 0 <= i < n ==> PlaceAt(tys, i) == PlaceAt(uys, i)
  {
    hide Size, InTupleAlignment;
    if n > 0 {
      SamePlacement(tys, uys, n - 1);
    }
  }

  lemma {:induction false} OffsetsAgree(fs: seq<Field>, gs: seq<Field>)
    requires |fs| == |gs| && Alike(fs, gs)
    requires forall i :: 0 <= i < |fs| ==> fs[i].offset == gs[i].offset
    ensures SameFieldLayouts(fs, gs)
  {
    if fs != [] {
      hide SameLayout;
      assert forall i :: 0 <= i < |fs| - 1 ==> fs[1..][i] == fs[i + 1] && gs[1..][i] == gs[i + 1];
      OffsetsAgree(fs[1..], gs[1..]);
    }
  }

  // Types that fit into each other have the same layout.

  lemma {:induction false} MutualFitLayout(a: SizedType, b: SizedType)
    requires FitsInto(a, b) && FitsInto(b, a)
    requires WellBuilt(a) && WellBuilt(b) && RecordsAgree(a, b)
    ensures SameLayout(a, b)
    decreases a, 1
  {
    if IsString(a) || IsInteger(a) {
      MutualScalars(a, b);
    } else if a.Tuple? {
      MutualFitFields(a.inner.fields, b.inner.fields);
      SameStruct(a.inner, b.inner);
    } else {
      EqualLayout(a, b);
    }
  }

  lemma MutualScalars(a: SizedType, b: SizedType)
    requires (IsString(a) || IsInteger(a)) && FitsInto(a, b) && FitsInto(b, a)
    ensures SameLayout(a, b)
  {
    KindRankInjective(a.kind, b.kind);
  }

  lemma {:induction false} MutualFitFields(fs: seq<Field>, gs: seq<Field>)
    requires |fs| == |gs| && FieldsFitInto(fs, gs) && FieldsFitInto(gs, fs)
    requires AllWellBuilt(fs) && AllWellBuilt(gs) && AllRecordsAgree(fs, gs)
    ensures Alike(fs, gs)
    decreases fs, 0
  {
    if fs != [] {
      MutualFitLayout(fs[0].ty, gs[0].ty);
      MutualFitFields(fs[1..], gs[1..]);
      AlikeCons(fs, gs);
    }
  }

  lemma {:induction false} LayoutHasSize(a: SizedType, b: SizedType)
    requires SameLayout(a, b)
    ensures IsSameSizeRecursive(a, b)
    decreases a, 1
  {
    if a.Tuple? && b.Tuple? {
      LayoutsHaveSizes(a.inner.fields, b.inner.fields);
    }
  }

  lemma {:induction false} LayoutsHaveSizes(fs: seq<Field>, gs: seq<Field>)
    requires |fs| == |gs| && SameFieldLayouts(fs, gs)
    ensures AllSameSize(fs, gs)
    decreases fs, 0
  {
    if fs != [] {
      LayoutHasSize(fs[0].ty, gs[0].ty);
      LayoutsHaveSizes(fs[1..], gs[1..]);
    }
  }

  // Main result: for a type that fits into another one, the sizes agree at every depth exactly when
  // the fit is mutual, and exactly when every field lies at the same offset in both.
  lemma CopyIffNothingWidens(a: SizedType, b: SizedType)
    requires FitsInto(a, b) && WellBuilt(a) && WellBuilt(b) && RecordsAgree(a, b)
    ensures IsSameSizeRecursive(a, b) <==> FitsInto(b, a)
    ensures IsSameSizeRecursive(a, b) <==> SameLayout(a, b)
  {
    if IsSameSizeRecursive(a, b) {
      SameSizeFitsBack(a, b);
    }
    if FitsInto(b, a) {
      MutualFitLayout(a, b);
      LayoutHasSize(a, b);
    }
    if SameLayout(a, b) {
      LayoutHasSize(a, b);
    }
  }
}
