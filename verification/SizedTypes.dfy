/**
 The type tree of bpftrace's user-space half (src/types.h, src/types.cpp) as an algebraic
 datatype.  A record or tuple carries the layout (`Struct`) of its fields by value.
 */
module SizedTypes {
  // The kinds of src/types.h that have no component types.
  datatype Kind =
    | NoneTy | VoidTy | IntegerTy | BooleanTy | HistTy | LhistTy | TSeriesTy | CountTy | SumTy
    | MinTy | MaxTy | AvgTy | StatsTy | KstackTy | UstackTy | StringTy | KsymTy | UsymTy
    | UsernameTy | InetTy | StackModeTy | BufferTy | TimestampTy | MacAddressTy | CgroupPathTy
    | TimestampModeTy

  // `name` is the enum name of an integer, and empty for every other scalar.
  datatype SizedType =
    | Scalar(kind: Kind, bits: nat, signed: bool, name: string)
    | Pointer(pointee: SizedType)
    | Array(count: nat, elem: SizedType)
    | Record(name: string, inner: Struct)
    | Tuple(inner: Struct)

  datatype Field = Field(name: string, ty: SizedType, offset: int)

  // `size` is a 32-bit int in the program, see Layout.Narrow.
  datatype Struct = Struct(size: int, align: int, padded: bool, fields: seq<Field>)

  // The size in bytes of a type.
  function Size(t: SizedType): int {
    match t
    case Scalar(_, bits, _, _) => bits / 8
    case Pointer(_) => 8
    case Array(count, elem) => count * Size(elem)
    case Record(_, inner) => inner.size
    case Tuple(inner) => inner.size
  }

  // Position of a type's kind in the enumeration that the three-way comparison compares first.
  function KindRank(k: Kind): nat {
    match k
    case NoneTy => 0 case VoidTy => 1 case IntegerTy => 2 case BooleanTy => 3
    case HistTy => 6 case LhistTy => 7 case TSeriesTy => 8 case CountTy => 9 case SumTy => 10
    case MinTy => 11 case MaxTy => 12 case AvgTy => 13 case StatsTy => 14 case KstackTy => 15
    case UstackTy => 16 case StringTy => 17 case KsymTy => 18 case UsymTy => 19
    case UsernameTy => 20 case InetTy => 21 case StackModeTy => 22 case BufferTy => 24
    case TimestampTy => 26 case MacAddressTy => 27 case CgroupPathTy => 28
    case TimestampModeTy => 29
  }

  function TypeRank(t: SizedType): nat {
    match t
    case Scalar(kind, _, _, _) => KindRank(kind)
    case Pointer(_) => 4
    case Record(_, _) => 5
    case Array(_, _) => 23
    case Tuple(_) => 25
  }

  function Signed(t: SizedType): bool {
    t.Scalar? && t.signed
  }

  function CreateInteger(bits: nat, signed: bool): SizedType {
    Scalar(IntegerTy, if bits > 64 then 64 else bits, signed, "")
  }

  function CreateString(size: nat): SizedType {
    Scalar(StringTy, size * 8, false, "")
  }

  predicate IsInteger(t: SizedType) { t.Scalar? && t.kind == IntegerTy }

  predicate IsString(t: SizedType) { t.Scalar? && t.kind == StringTy }

  // Three-way comparison.

  datatype Ordering = Less | Equal | Greater

  function Flip(o: Ordering): Ordering {
    match o
    case Less => Greater
    case Equal => Equal
    case Greater => Less
  }

  // Lexicographic combination: the second result decides only when the first is Equal.
  function Then(o: Ordering, p: Ordering): Ordering {
    if o == Equal then p else o
  }

  function CompareInt(a: int, b: int): Ordering {
    if a < b then Less else if a == b then Equal else Greater
  }

  function CompareBool(a: bool, b: bool): Ordering {
    if a == b then Equal else if b then Less else Greater
  }

  function CompareString(a: string, b: string): Ordering {
    if a == [] || b == [] then CompareInt(|a|, |b|)
    else Then(CompareInt(a[0] as int, b[0] as int), CompareString(a[1..], b[1..]))
  }

  function Compare(a: SizedType, b: SizedType): Ordering
    decreases a, 1
  {
    var byKind := CompareInt(TypeRank(a), TypeRank(b));
    if byKind != Equal then byKind
    else if a.Record? && b.Record? then
      Then(CompareString(a.name, b.name), CompareInt(Size(a), Size(b)))
    else if a.Pointer? && b.Pointer? then
      Compare(a.pointee, b.pointee)
    else if a.Array? && b.Array? then
      Then(CompareInt(a.count, b.count), Compare(a.elem, b.elem))
    else if a.Tuple? && b.Tuple? then
      Then(CompareInt(|a.inner.fields|, |b.inner.fields|), CompareFields(a.inner.fields, b.inner.fields))
    else
      Then(CompareInt(Size(a), Size(b)), CompareBool(Signed(a), Signed(b)))
  }

  function CompareFields(fs: seq<Field>, gs: seq<Field>): Ordering
    decreases fs, 0
  {
    if fs == [] || gs == [] then Equal
    else Then(Compare(fs[0].ty, gs[0].ty), CompareFields(fs[1..], gs[1..]))
  }

  predicate IsEqual(a: SizedType, b: SizedType) {
    Compare(a, b) == Equal
  }

  predicate IsSameType(a: SizedType, b: SizedType)
    decreases a, 1
  {
    TypeRank(a) == TypeRank(b) &&
    if a.Record? && b.Record? then a.name == b.name
    else if a.Pointer? && b.Pointer? then IsSameType(a.pointee, b.pointee)
    else if a.Tuple? && b.Tuple? then
      |a.inner.fields| == |b.inner.fields| && SameFieldTypes(a.inner.fields, b.inner.fields)
    else true
  }

  predicate SameFieldTypes(fs: seq<Field>, gs: seq<Field>)
    requires |fs| == |gs|
    decreases fs, 0
  {
    fs == [] || (IsSameType(fs[0].ty, gs[0].ty) && SameFieldTypes(fs[1..], gs[1..]))
  }

  predicate FitsInto(a: SizedType, b: SizedType)
    decreases a, 1
  {
    if !IsSameType(a, b) then false
    else if IsString(a) && IsString(b) then Size(a) <= Size(b)
    else if IsInteger(a) then
      if Signed(a) == Signed(b) then Size(a) <= Size(b)
      else if !Signed(a) then Size(a) < Size(b)
      else false
    else if a.Tuple? && b.Tuple? then
      |a.inner.fields| == |b.inner.fields| && FieldsFitInto(a.inner.fields, b.inner.fields)
    else IsEqual(a, b)
  }

  predicate FieldsFitInto(fs: seq<Field>, gs: seq<Field>)
    requires |fs| == |gs|
    decreases fs, 0
  {
    fs == [] || (FitsInto(fs[0].ty, gs[0].ty) && FieldsFitInto(fs[1..], gs[1..]))
  }

  // Alignment inside a tuple.

  predicate IsByteArray(t: SizedType) {
    t.Scalar? && t.kind in {StringTy, UsymTy, InetTy, BufferTy, TimestampTy, MacAddressTy, CgroupPathTy}
  }

  function InTupleAlignment(t: SizedType): int {
    if IsByteArray(t) then 1
    else if t.Tuple? || t.Record? then t.inner.align
    else if Size(t) <= 2 then Size(t)
    else if t.Array? then InTupleAlignment(t.elem)
    else if Size(t) <= 4 then 4
    else 8
  }
}
