/**
 Implicit widening: what `FitsInto` means for the values of the two types, its order laws, and
 the smallest integer types of src/ast/integer_types.cpp.
 */
module Widening {
  import opened Prelude
  import opened SizedTypes
  import opened TypeOrder

  // Values of integer, string and tuple types.
  datatype Value = IntValue(i: int) | StringValue(s: string) | TupleValue(elems: seq<Value>)

  // Integer, string and tuple types whose integers have one of the widths a program can store.
  predicate Widenable(t: SizedType)
    decreases t, 1
  {
    match t
    case Scalar(kind, bits, _, _) => kind == StringTy || (kind == IntegerTy && bits in {8, 16, 32, 64})
    case Tuple(inner) => AllWidenable(inner.fields)
    case _ => false
  }

  predicate AllWidenable(fs: seq<Field>)
    decreases fs, 0
  {
    fs == [] || (Widenable(fs[0].ty) && AllWidenable(fs[1..]))
  }

  // Number of values of an integer of the given width.
  function Cardinality(bits: nat): nat {
    if bits == 8 then 0x100
    else if bits == 16 then 0x1_0000
    else if bits == 32 then 0x1_0000_0000
    else 0x1_0000_0000_0000_0000
  }

  predicate InRange(i: int, bits: nat, signed: bool) {
    if signed then -(Cardinality(bits) / 2) <= i < Cardinality(bits) / 2
    else 0 <= i < Cardinality(bits)
  }

  // The value set of a type: integers by two's complement range, strings by their length in
  // bytes up to the first NUL.
  predicate Inhabits(v: Value, t: SizedType)
    requires Widenable(t)
    decreases t, 1
  {
    match t
    case Scalar(IntegerTy, bits, signed, _) => v.IntValue? && InRange(v.i, bits, signed)
    case Scalar(_, _, _, _) => v.StringValue? && '\0' !in v.s && |v.s| <= Size(t)
    case Tuple(inner) =>
      v.TupleValue? && |v.elems| == |inner.fields| && AllInhabit(v.elems, inner.fields)
    case _ => assert false; false
  }

  predicate AllInhabit(vs: seq<Value>, fs: seq<Field>)
    requires AllWidenable(fs) && |vs| == |fs|
    decreases fs, 0
  {
    fs == [] || (Inhabits(vs[0], fs[0].ty) && AllInhabit(vs[1..], fs[1..]))
  }

  // Soundness: a value of the source type is a value of the target type.

  lemma {:induction false} FitsIntoSound(a: SizedType, b: SizedType, v: Value)
    requires Widenable(a) && Widenable(b) && FitsInto(a, b)
    requires Inhabits(v, a)
    ensures Inhabits(v, b)
    decreases a, 1
  {
    if a.Tuple? {
      FieldsFitIntoSound(a.inner.fields, b.inner.fields, v.elems);
    } else {
      KindRankInjective(a.kind, b.kind);
    }
  }

  lemma {:induction false} FieldsFitIntoSound(fs: seq<Field>, gs: seq<Field>, vs: seq<Value>)
    requires |fs| == |gs| == |vs|
    requires AllWidenable(fs) && AllWidenable(gs) && FieldsFitInto(fs, gs)
    requires AllInhabit(vs, fs)
    ensures AllInhabit(vs, gs)
    decreases fs, 0
  {
    if fs != [] {
      FitsIntoSound(fs[0].ty, gs[0].ty, vs[0]);
      FieldsFitIntoSound(fs[1..], gs[1..], vs[1..]);
    }
  }

  // Completeness: when the source does not fit, some value of the source is not one of the target.

  lemma {:induction false} SomeValue(t: SizedType) returns (v: Value)
    requires Widenable(t)
    ensures Inhabits(v, t)
    decreases t, 1
  {
    match t
    case Scalar(kind, _, _, _) =>
      v := if kind == IntegerTy then IntValue(0) else StringValue("");
    case Tuple(inner) =>
      var vs := SomeValues(inner.fields);
      v := TupleValue(vs);
  }

  lemma {:induction false} SomeValues(fs: seq<Field>) returns (vs: seq<Value>)
    requires AllWidenable(fs)
    ensures |vs| == |fs| && AllInhabit(vs, fs)
    decreases fs, 0
  {
    if fs == [] {
      vs := [];
    } else {
      var v := SomeValue(fs[0].ty);
      var rest := SomeValues(fs[1..]);
      vs := [v] + rest;
    }
  }

  lemma {:induction false} MisfitWitness(a: SizedType, b: SizedType) returns (v: Value)
    requires Widenable(a) && Widenable(b) && !FitsInto(a, b)
    ensures Inhabits(v, a) && !Inhabits(v, b)
    decreases a, 1
  {
    if TypeRank(a) != TypeRank(b) {
      v := SomeValue(a);
    } else if a.Tuple? {
      if |a.inner.fields| != |b.inner.fields| {
        v := SomeValue(a);
      } else {
        SameTypeOfWidenable(a, b);
        var vs := FieldMisfitWitness(a.inner.fields, b.inner.fields);
        v := TupleValue(vs);
      }
    } else {
      KindRankInjective(a.kind, b.kind);
      if IsString(a) {
        v := StringValue(seq(Size(a), _ => 'a'));
      } else if Signed(a) {
        v := IntValue(-(Cardinality(a.bits) / 2));
      } else {
        v := IntValue(Cardinality(a.bits) - 1);
      }
    }
  }

  // A tuple of the same shape can only fail to fit because of some field.
  lemma {:induction false} SameTypeOfWidenable(a: SizedType, b: SizedType)
    requires a.Tuple? && b.Tuple? && |a.inner.fields| == |b.inner.fields|
    ensures FieldsFitInto(a.inner.fields, b.inner.fields) ==> FitsInto(a, b)
  {
    if FieldsFitInto(a.inner.fields, b.inner.fields) {
      FieldsThatFitAreSame(a.inner.fields, b.inner.fields);
    }
  }

  lemma {:induction false} FieldsThatFitAreSame(fs: seq<Field>, gs: seq<Field>)
    requires |fs| == |gs| && FieldsFitInto(fs, gs)
    ensures SameFieldTypes(fs, gs)
  {
    if fs != [] {
      FieldsThatFitAreSame(fs[1..], gs[1..]);
    }
  }

  lemma {:induction false} FieldMisfitWitness(fs: seq<Field>, gs: seq<Field>) returns (vs: seq<Value>)
    requires |fs| == |gs| && AllWidenable(fs) && AllWidenable(gs)
    requires !FieldsFitInto(fs, gs)
    ensures |vs| == |fs| && AllInhabit(vs, fs) && !AllInhabit(vs, gs)
    decreases fs, 0
  {
    if !FitsInto(fs[0].ty, gs[0].ty) {
      var v := MisfitWitness(fs[0].ty, gs[0].ty);
      var rest := SomeValues(fs[1..]);
      vs := [v] + rest;
    } else {
      var v := SomeValue(fs[0].ty);
      var rest := FieldMisfitWitness(fs[1..], gs[1..]);
      vs := [v] + rest;
    }
  }

  // Main result: on these types, fitting is inclusion of value sets.
  lemma FitsIntoIsInclusion(a: SizedType, b: SizedType)
    requires Widenable(a) && Widenable(b)
    ensures FitsInto(a, b) <==> forall v :: Inhabits(v, a) ==> Inhabits(v, b)
  {
    if FitsInto(a, b) {
      forall v | Inhabits(v, a) ensures Inhabits(v, b) {
        FitsIntoSound(a, b, v);
      }
    } else {
      var v := MisfitWitness(a, b);
    }
  }

  // Order laws, for every type.

  lemma {:induction false} FitsIntoReflexive(t: SizedType)
    ensures FitsInto(t, t)
    decreases t, 1
  {
    SameTypeIffSameSkeleton(t, t);
    EqualIffSameKey(t, t);
    if t.Tuple? {
      FieldsFitIntoReflexive(t.inner.fields);
    }
  }

  lemma {:induction false} FieldsFitIntoReflexive(fs: seq<Field>)
    ensures FieldsFitInto(fs, fs)
    decreases fs, 0
  {
    if fs != [] {
      FitsIntoReflexive(fs[0].ty);
      FieldsFitIntoReflexive(fs[1..]);
    }
  }

  lemma {:induction false} FitsIntoTransitive(a: SizedType, b: SizedType, c: SizedType)
    requires FitsInto(a, b) && FitsInto(b, c)
    ensures FitsInto(a, c)
    decreases a, 1
  {
    SameTypeIffSameSkeleton(a, b);
    SameTypeIffSameSkeleton(b, c);
    SameTypeIffSameSkeleton(a, c);
    if a.Scalar? && b.Scalar? && c.Scalar? {
      KindRankInjective(a.kind, b.kind);
      KindRankInjective(b.kind, c.kind);
    }
    if a.Tuple? && b.Tuple? && c.Tuple? {
      FieldsFitIntoTransitive(a.inner.fields, b.inner.fields, c.inner.fields);
    } else {
      EqualIffSameKey(a, b);
      EqualIffSameKey(b, c);
      EqualIffSameKey(a, c);
    }
  }

  lemma {:induction false} FieldsFitIntoTransitive(fs: seq<Field>, gs: seq<Field>, hs: seq<Field>)
    requires |fs| == |gs| == |hs|
    requires FieldsFitInto(fs, gs) && FieldsFitInto(gs, hs)
    ensures FieldsFitInto(fs, hs)
    decreases fs, 0
  {
    if fs != [] {
      FitsIntoTransitive(fs[0].ty, gs[0].ty, hs[0].ty);
      FieldsFitIntoTransitive(fs[1..], gs[1..], hs[1..]);
    }
  }

  // A type with the sign flag of its strings cleared; the string rule of `FitsInto` ignores it.
  function ClearStringSigns(t: SizedType): SizedType
    decreases t, 1
  {
    match t
    case Scalar(kind, bits, signed, name) => Scalar(kind, bits, if kind == StringTy then false else signed, name)
    case Tuple(inner) => Tuple(inner.(fields := ClearFieldSigns(inner.fields)))
    case _ => t
  }

  function ClearFieldSigns(fs: seq<Field>): (gs: seq<Field>)
    ensures |gs| == |fs|
    decreases fs, 0
  {
    if fs == [] then []
    else [fs[0].(ty := ClearStringSigns(fs[0].ty))] + ClearFieldSigns(fs[1..])
  }

  // Antisymmetry, exactly: two types fit into each other when they compare equal once the sign
  // flags of strings are cleared.
  lemma {:induction false} FitsIntoAntisymmetric(a: SizedType, b: SizedType)
    ensures FitsInto(a, b) && FitsInto(b, a) <==> IsEqual(ClearStringSigns(a), ClearStringSigns(b))
    decreases a, 1
  {
    SameTypeSymmetric(a, b);
    if a.Scalar? && b.Scalar? {
      ScalarFitsAntisymmetric(a, b);
    } else if a.Tuple? && b.Tuple? {
      if |a.inner.fields| == |b.inner.fields| {
        FieldsFitIntoAntisymmetric(a.inner.fields, b.inner.fields);
        SameTypeOfWidenable(a, b);
        SameTypeOfWidenable(b, a);
      }
    } else if !a.Tuple? && !b.Tuple? && !(a.Scalar? && b.Scalar?) {
      OtherFitsAntisymmetric(a, b);
    }
  }

  lemma OtherFitsAntisymmetric(a: SizedType, b: SizedType)
    requires !a.Tuple? && !b.Tuple? && !(a.Scalar? && b.Scalar?)
    ensures FitsInto(a, b) && FitsInto(b, a) <==> IsEqual(ClearStringSigns(a), ClearStringSigns(b))
  {
    CompareFlip(a, b);
    if IsEqual(a, b) {
      EqualTypesAreSame(a, b);
      EqualTypesAreSame(b, a);
    }
  }

  lemma SameTypeSymmetric(a: SizedType, b: SizedType)
    ensures IsSameType(a, b) <==> IsSameType(b, a)
  {
    SameTypeIffSameSkeleton(a, b);
    SameTypeIffSameSkeleton(b, a);
  }

  lemma ScalarFitsAntisymmetric(a: SizedType, b: SizedType)
    requires a.Scalar? && b.Scalar?
    ensures FitsInto(a, b) && FitsInto(b, a) <==> IsEqual(ClearStringSigns(a), ClearStringSigns(b))
  {
    if TypeRank(a) == TypeRank(b) {
      KindRankInjective(a.kind, b.kind);
    }
  }

  lemma {:induction false} FieldsFitIntoAntisymmetric(fs: seq<Field>, gs: seq<Field>)
    requires |fs| == |gs|
    ensures FieldsFitInto(fs, gs) && FieldsFitInto(gs, fs)
            <==> CompareFields(ClearFieldSigns(fs), ClearFieldSigns(gs)) == Equal
    decreases fs, 0
  {
    if fs != [] {
      FitsIntoAntisymmetric(fs[0].ty, gs[0].ty);
      FieldsFitIntoAntisymmetric(fs[1..], gs[1..]);
      assert ClearFieldSigns(fs)[1..] == ClearFieldSigns(fs[1..]);
      assert ClearFieldSigns(gs)[1..] == ClearFieldSigns(gs[1..]);
    }
  }

  // Strings are made without a sign (src/types.cpp:318-321), and then nothing is cleared.
  predicate UnsignedStrings(t: SizedType)
    decreases t, 1
  {
    match t
    case Scalar(kind, _, signed, _) => kind == StringTy ==> !signed
    case Tuple(inner) => UnsignedFieldStrings(inner.fields)
    case _ => true
  }

  predicate UnsignedFieldStrings(fs: seq<Field>)
    decreases fs, 0
  {
    fs == [] || (UnsignedStrings(fs[0].ty) && UnsignedFieldStrings(fs[1..]))
  }

  lemma {:induction false} NothingCleared(t: SizedType)
    requires UnsignedStrings(t)
    ensures ClearStringSigns(t) == t
    decreases t, 1
  {
    if t.Tuple? {
      NothingClearedInFields(t.inner.fields);
    }
  }

  lemma {:induction false} NothingClearedInFields(fs: seq<Field>)
    requires UnsignedFieldStrings(fs)
    ensures ClearFieldSigns(fs) == fs
    decreases fs, 0
  {
    if fs != [] {
      NothingCleared(fs[0].ty);
      NothingClearedInFields(fs[1..]);
    }
  }

  // On the types that the program builds, fitting into each other is equality.
  lemma MutualFitIsEqual(a: SizedType, b: SizedType)
    requires UnsignedStrings(a) && UnsignedStrings(b)
    ensures FitsInto(a, b) && FitsInto(b, a) <==> IsEqual(a, b)
  {
    NothingCleared(a);
    NothingCleared(b);
    FitsIntoAntisymmetric(a, b);
  }

  // The smallest integer types.

  const UINT8_MAX: nat := 0xFF
  const UINT16_MAX: nat := 0xFFFF
  const UINT32_MAX: nat := 0xFFFF_FFFF
  const UINT64_MAX: nat := 0xFFFF_FFFF_FFFF_FFFF

  function IntegerTypeFor(n: nat): SizedType {
    if n <= UINT8_MAX then CreateInteger(8, false)
    else if n <= UINT16_MAX then CreateInteger(16, false)
    else if n <= UINT32_MAX then CreateInteger(32, false)
    else CreateInteger(64, false)
  }

  // The overload for an unsigned literal: no signed type may be large enough.
  function SignedIntegerTypeForUnsigned(n: nat): Option<SizedType> {
    if n <= 0x7F then Some(CreateInteger(8, true))
    else if n <= 0x7FFF then Some(CreateInteger(16, true))
    else if n <= 0x7FFF_FFFF then Some(CreateInteger(32, true))
    else if n <= 0x7FFF_FFFF_FFFF_FFFF then Some(CreateInteger(64, true))
    else None
  }

  function SignedIntegerTypeFor(n: int): SizedType {
    if -0x80 <= n <= 0x7F then CreateInteger(8, true)
    else if -0x8000 <= n <= 0x7FFF then CreateInteger(16, true)
    else if -0x8000_0000 <= n <= 0x7FFF_FFFF then CreateInteger(32, true)
    else CreateInteger(64, true)
  }

  predicate IsIntegerOfSign(t: SizedType, signed: bool) {
    IsInteger(t) && Widenable(t) && Signed(t) == signed
  }

  // The chosen type contains n and fits into exactly the types of its sign that contain n; an
  // unsigned choice also fits into no signed type that misses n.
  lemma IntegerTypeIsLeast(n: nat, t: SizedType)
    requires n <= UINT64_MAX
    requires IsInteger(t) && Widenable(t)
    ensures IsIntegerOfSign(IntegerTypeFor(n), false) && Inhabits(IntValue(n), IntegerTypeFor(n))
    ensures FitsInto(IntegerTypeFor(n), t) ==> Inhabits(IntValue(n), t)
    ensures !Signed(t) && Inhabits(IntValue(n), t) ==> FitsInto(IntegerTypeFor(n), t)
  {
    assert IsSameType(IntegerTypeFor(n), t);
  }

  lemma SignedIntegerTypeIsLeast(n: int, t: SizedType)
    requires -0x8000_0000_0000_0000 <= n <= 0x7FFF_FFFF_FFFF_FFFF
    requires IsIntegerOfSign(t, true)
    ensures IsIntegerOfSign(SignedIntegerTypeFor(n), true)
    ensures Inhabits(IntValue(n), SignedIntegerTypeFor(n))
    ensures FitsInto(SignedIntegerTypeFor(n), t) <==> Inhabits(IntValue(n), t)
  {
    assert IsSameType(SignedIntegerTypeFor(n), t);
  }

  // The two signed overloads agree where both are defined, and the unsigned one fails exactly
  // when no signed type contains the literal.
  lemma SignedOverloadsAgree(n: nat)
    requires n <= UINT64_MAX
    ensures SignedIntegerTypeForUnsigned(n).Some? <==>
            exists t :: IsIntegerOfSign(t, true) && Inhabits(IntValue(n), t)
    ensures SignedIntegerTypeForUnsigned(n).Some? ==>
            SignedIntegerTypeForUnsigned(n).value == SignedIntegerTypeFor(n)
  {
    if n <= 0x7FFF_FFFF_FFFF_FFFF {
      assert IsIntegerOfSign(CreateInteger(64, true), true)
          && Inhabits(IntValue(n), CreateInteger(64, true));
    }
  }
}
