/**
 The three-way comparison of types is a strict total order on what it compares, and its zero
 case, the same-type relation, and their connection (src/types.cpp:101-170).
 */
module TypeOrder {
  import opened SizedTypes

  // What the comparison looks at, and nothing else: a record's fields, a pointer's tags, field
  // names and offsets are absent.
  datatype TypeKey =
    | ScalarKey(kind: Kind, size: int, signed: bool)
    | PointerKey(pointee: TypeKey)
    | ArrayKey(count: nat, elem: TypeKey)
    | RecordKey(name: string, size: int)
    | TupleKey(elems: seq<TypeKey>)

  function Key(t: SizedType): TypeKey
    decreases t, 1
  {
    match t
    case Scalar(kind, _, signed, _) => ScalarKey(kind, Size(t), signed)
    case Pointer(pointee) => PointerKey(Key(pointee))
    case Array(count, elem) => ArrayKey(count, Key(elem))
    case Record(name, inner) => RecordKey(name, Size(t))
    case Tuple(inner) => TupleKey(FieldKeys(inner.fields))
  }

  function FieldKeys(fs: seq<Field>): (ks: seq<TypeKey>)
    ensures |ks| == |fs|
    decreases fs, 0
  {
    if fs == [] then [] else [Key(fs[0].ty)] + FieldKeys(fs[1..])
  }

  // What the same-type relation looks at: names of records, shapes of pointers and tuples,
  // and only the kind of everything else.
  datatype Skeleton =
    | KindOnly(rank: nat)
    | PointerTo(pointee: Skeleton)
    | Named(name: string)
    | TupleOf(elems: seq<Skeleton>)

  function SkeletonOf(t: SizedType): Skeleton
    decreases t, 1
  {
    match t
    case Pointer(pointee) => PointerTo(SkeletonOf(pointee))
    case Record(name, _) => Named(name)
    case Tuple(inner) => TupleOf(FieldSkeletons(inner.fields))
    case _ => KindOnly(TypeRank(t))
  }

  function FieldSkeletons(fs: seq<Field>): (ks: seq<Skeleton>)
    ensures |ks| == |fs|
    decreases fs, 0
  {
    if fs == [] then [] else [SkeletonOf(fs[0].ty)] + FieldSkeletons(fs[1..])
  }

  lemma KindRankInjective(j: Kind, k: Kind)
    requires KindRank(j) == KindRank(k)
    ensures j == k
  {
  }

  // The kinds in the order of their declaration; pointers, records, arrays and tuples stand between them.
  const KINDS: seq<Kind> :=
    [NoneTy, VoidTy, IntegerTy, BooleanTy, HistTy, LhistTy, TSeriesTy, CountTy, SumTy, MinTy, MaxTy, AvgTy,
     StatsTy, KstackTy, UstackTy, StringTy, KsymTy, UsymTy, UsernameTy, InetTy, StackModeTy, BufferTy,
     TimestampTy, MacAddressTy, CgroupPathTy, TimestampModeTy]

  lemma {:induction false} DeclarationOrder(i: nat, j: nat)
    requires i < j < |KINDS|
    ensures KindRank(KINDS[i]) < KindRank(KINDS[j])
    decreases j
  {
    assert KindRank(KINDS[j - 1]) < KindRank(KINDS[j]);
    if i < j - 1 {
      DeclarationOrder(i, j - 1);
    }
  }

  lemma ComponentsInOrder(p: SizedType, r: SizedType, a: SizedType, t: SizedType)
    requires p.Pointer? && r.Record? && a.Array? && t.Tuple?
    ensures KindRank(BooleanTy) < TypeRank(p) < TypeRank(r) < KindRank(HistTy)
    ensures KindRank(StackModeTy) < TypeRank(a) < KindRank(BufferTy) < TypeRank(t) < KindRank(TimestampTy)
  {
  }

  // Strings.

  lemma {:induction false} CompareStringEqual(a: string, b: string)
    ensures CompareString(a, b) == Equal <==> a == b
  {
    if a != [] && b != [] {
      CompareStringEqual(a[1..], b[1..]);
      assert a == [a[0]] + a[1..] && b == [b[0]] + b[1..];
    }
  }

  lemma {:induction false} CompareStringFlip(a: string, b: string)
    ensures CompareString(b, a) == Flip(CompareString(a, b))
  {
    if a != [] && b != [] {
      CompareStringFlip(a[1..], b[1..]);
    }
  }

  lemma {:induction false} CompareStringTransitive(a: string, b: string, c: string)
    requires CompareString(a, b) != Greater && CompareString(b, c) != Greater
    ensures CompareString(a, c) == Then(CompareString(a, b), CompareString(b, c))
  {
    if a != [] && b != [] && c != [] {
      if a[0] == b[0] == c[0] {
        CompareStringTransitive(a[1..], b[1..], c[1..]);
      }
    }
  }

  // The zero case: two types compare equal exactly when their compared parts are the same.

  lemma {:induction false} EqualIffSameKey(a: SizedType, b: SizedType)
    ensures IsEqual(a, b) <==> Key(a) == Key(b)
    decreases a, 1
  {
    if a.Scalar? && b.Scalar? && TypeRank(a) == TypeRank(b) {
      KindRankInjective(a.kind, b.kind);
    } else if a.Record? && b.Record? {
      CompareStringEqual(a.name, b.name);
    } else if a.Pointer? && b.Pointer? {
      EqualIffSameKey(a.pointee, b.pointee);
    } else if a.Array? && b.Array? {
      EqualIffSameKey(a.elem, b.elem);
    } else if a.Tuple? && b.Tuple? {
      if |a.inner.fields| == |b.inner.fields| {
        FieldsEqualIffSameKeys(a.inner.fields, b.inner.fields);
      } else {
        assert Key(a).elems != Key(b).elems;
      }
    }
  }

  lemma {:induction false} FieldsEqualIffSameKeys(fs: seq<Field>, gs: seq<Field>)
    requires |fs| == |gs|
    ensures CompareFields(fs, gs) == Equal <==> FieldKeys(fs) == FieldKeys(gs)
    decreases fs, 0
  {
    if fs != [] {
      EqualIffSameKey(fs[0].ty, gs[0].ty);
      FieldsEqualIffSameKeys(fs[1..], gs[1..]);
      var ks, ls := FieldKeys(fs), FieldKeys(gs);
      assert ks[0] == Key(fs[0].ty) && ks[1..] == FieldKeys(fs[1..]);
      assert ls[0] == Key(gs[0].ty) && ls[1..] == FieldKeys(gs[1..]);
      assert ks == [ks[0]] + ks[1..] && ls == [ls[0]] + ls[1..];
    }
  }

  // Antisymmetry: swapping the operands flips the result.

  lemma {:induction false} CompareFlip(a: SizedType, b: SizedType)
    ensures Compare(b, a) == Flip(Compare(a, b))
    decreases a, 1
  {
    if a.Record? && b.Record? {
      CompareStringFlip(a.name, b.name);
    } else if a.Pointer? && b.Pointer? {
      CompareFlip(a.pointee, b.pointee);
    } else if a.Array? && b.Array? {
      CompareFlip(a.elem, b.elem);
    } else if a.Tuple? && b.Tuple? {
      CompareFieldsFlip(a.inner.fields, b.inner.fields);
    }
  }

  lemma {:induction false} CompareFieldsFlip(fs: seq<Field>, gs: seq<Field>)
    ensures CompareFields(gs, fs) == Flip(CompareFields(fs, gs))
    decreases fs, 0
  {
    if fs != [] && gs != [] {
      CompareFlip(fs[0].ty, gs[0].ty);
      CompareFieldsFlip(fs[1..], gs[1..]);
    }
  }

  // Transitivity, with the exact result: a chain of non-Greater steps compares as its first
  // non-Equal step.

  lemma {:induction false} CompareTransitive(a: SizedType, b: SizedType, c: SizedType)
    requires Compare(a, b) != Greater && Compare(b, c) != Greater
    ensures Compare(a, c) == Then(Compare(a, b), Compare(b, c))
    decreases a, 1
  {
    if TypeRank(a) == TypeRank(b) == TypeRank(c) {
      if a.Record? && b.Record? && c.Record? {
        CompareStringTransitive(a.name, b.name, c.name);
      } else if a.Pointer? && b.Pointer? && c.Pointer? {
        CompareTransitive(a.pointee, b.pointee, c.pointee);
      } else if a.Array? && b.Array? && c.Array? {
        if a.count == b.count == c.count {
          CompareTransitive(a.elem, b.elem, c.elem);
        }
      } else if a.Tuple? && b.Tuple? && c.Tuple? {
        if |a.inner.fields| == |b.inner.fields| == |c.inner.fields| {
          CompareFieldsTransitive(a.inner.fields, b.inner.fields, c.inner.fields);
        }
      }
    }
  }

  lemma {:induction false} CompareFieldsTransitive(fs: seq<Field>, gs: seq<Field>, hs: seq<Field>)
    requires |fs| == |gs| == |hs|
    requires CompareFields(fs, gs) != Greater && CompareFields(gs, hs) != Greater
    ensures CompareFields(fs, hs) == Then(CompareFields(fs, gs), CompareFields(gs, hs))
    decreases fs, 0
  {
    if fs != [] {
      CompareTransitive(fs[0].ty, gs[0].ty, hs[0].ty);
      if Compare(fs[0].ty, gs[0].ty) == Equal && Compare(gs[0].ty, hs[0].ty) == Equal {
        CompareFieldsTransitive(fs[1..], gs[1..], hs[1..]);
      }
    }
  }

  // The same-type relation is equality of skeletons, hence an equivalence.

  lemma {:induction false} SameTypeIffSameSkeleton(a: SizedType, b: SizedType)
    ensures IsSameType(a, b) <==> SkeletonOf(a) == SkeletonOf(b)
    decreases a, 1
  {
    if a.Pointer? && b.Pointer? {
      SameTypeIffSameSkeleton(a.pointee, b.pointee);
    } else if a.Tuple? && b.Tuple? {
      if |a.inner.fields| == |b.inner.fields| {
        SameFieldsIffSameSkeletons(a.inner.fields, b.inner.fields);
      } else {
        assert SkeletonOf(a).elems != SkeletonOf(b).elems;
      }
    }
  }

  lemma {:induction false} SameFieldsIffSameSkeletons(fs: seq<Field>, gs: seq<Field>)
    requires |fs| == |gs|
    ensures SameFieldTypes(fs, gs) <==> FieldSkeletons(fs) == FieldSkeletons(gs)
    decreases fs, 0
  {
    if fs != [] {
      SameTypeIffSameSkeleton(fs[0].ty, gs[0].ty);
      SameFieldsIffSameSkeletons(fs[1..], gs[1..]);
      var ks, ls := FieldSkeletons(fs), FieldSkeletons(gs);
      assert ks[0] == SkeletonOf(fs[0].ty) && ks[1..] == FieldSkeletons(fs[1..]);
      assert ls[0] == SkeletonOf(gs[0].ty) && ls[1..] == FieldSkeletons(gs[1..]);
      assert ks == [ks[0]] + ks[1..] && ls == [ls[0]] + ls[1..];
    }
  }

  // Types that compare equal are of the same type.

  lemma {:induction false} EqualTypesAreSame(a: SizedType, b: SizedType)
    requires IsEqual(a, b)
    ensures IsSameType(a, b)
    decreases a, 1
  {
    if a.Record? && b.Record? {
      CompareStringEqual(a.name, b.name);
    } else if a.Pointer? && b.Pointer? {
      EqualTypesAreSame(a.pointee, b.pointee);
    } else if a.Tuple? && b.Tuple? {
      EqualFieldsAreSame(a.inner.fields, b.inner.fields);
    }
  }

  lemma {:induction false} EqualFieldsAreSame(fs: seq<Field>, gs: seq<Field>)
    requires |fs| == |gs|
    requires CompareFields(fs, gs) == Equal
    ensures SameFieldTypes(fs, gs)
    decreases fs, 0
  {
    if fs != [] {
      EqualTypesAreSame(fs[0].ty, gs[0].ty);
      EqualFieldsAreSame(fs[1..], gs[1..]);
    }
  }
}
