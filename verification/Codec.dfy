/**
 Decoding raw bytes by type (`format` in src/types_format.cpp) and its inverse: storing a value
 at the laid-out offsets.  Types whose decoding calls into symbol, stack, user, network or time
 resolution are outside `Decodable`.
 */
module Codec {
  import opened Prelude
  import opened SizedTypes
  import opened Layout
  import opened Bytes
  import opened Numerals
  import opened Aggregates

  datatype Primitive =
    | Unit
    | Bool(b: bool)
    | Int(i: int)
    | UInt(n: nat)
    | Str(bytes: seq<byte>)
    | Symbolic(symbol: string, numeric: nat)
    | ArrayOf(values: seq<Primitive>)
    | TupleOf(values: seq<Primitive>)
    | RecordOf(names: seq<string>, values: seq<Primitive>)

  // Unsupported is the program's own error.  OutOfBounds is the exception of a failed slice or
  // cast; DivideByZero and Overflow are the two undefined outcomes of an integer division.
  datatype FormatError = Unsupported | OutOfBounds | DivideByZero | Overflow

  // The truncation trailer of the configuration and the enum definitions of the program.
  datatype Env = Env(trailer: seq<byte>, enums: map<string, map<nat, string>>)

  predicate Decodable(t: SizedType)
    decreases t, 1
  {
    match t
    case Scalar(kind, _, _, _) =>
      kind in {NoneTy, VoidTy, BooleanTy, IntegerTy, StringTy, CountTy, SumTy, MinTy, MaxTy, AvgTy, StatsTy,
               StackModeTy, TimestampModeTy, HistTy, LhistTy, TSeriesTy}
    case Pointer(_) => true
    case Array(_, elem) => Decodable(elem)
    case Record(_, inner) => AllDecodable(inner.fields)
    case Tuple(inner) => AllDecodable(inner.fields)
  }

  predicate AllDecodable(fs: seq<Field>)
    decreases fs, 0
  {
    fs == [] || (Decodable(fs[0].ty) && AllDecodable(fs[1..]))
  }

  // OpaqueValue::slice with an explicit length.
  function Slice(buf: seq<byte>, offset: int, length: int): (r: Result<seq<byte>, FormatError>)
    ensures r.Ok? ==> |r.value| == length
  {
    if 0 <= offset && 0 <= length && offset + length <= |buf| then Ok(buf[offset..offset + length])
    else Err(OutOfBounds)
  }

  // The n-byte sum of the n-byte words of a buffer, one word per CPU.
  function Reduce(buf: seq<byte>, n: nat): (v: nat)
    requires n > 0
    ensures v < Range(n)
  {
    if |buf| < n then 0 else (FromLE(buf[..n]) + Reduce(buf[n..], n)) % Range(n)
  }

  function DivideSigned(n: nat, i: int, div: nat): Result<Primitive, FormatError>
    requires n > 0
  {
    var d := ToSigned(n, div % Range(n));
    if d == 0 then Err(DivideByZero)
    else if n == 4 && i == -0x8000_0000 && d == -1 then Err(Overflow)
    else Ok(Int(Truncate(i, d)))
  }

  function DivideUnsigned(v: nat, div: nat): Result<Primitive, FormatError> {
    if div == 0 then Err(DivideByZero) else Ok(UInt(v / div))
  }

  function DivideWide(i: int, signed: bool, div: nat): Result<Primitive, FormatError>
    requires signed || i >= 0
  {
    if div == 0 then Err(DivideByZero) else Ok(if signed then Int(Truncate(i, div)) else UInt(i / div))
  }

  // A value of one word is already combined.
  function FormatExtreme(t: SizedType, buf: seq<byte>, div: nat): Result<Primitive, FormatError>
    requires t.Scalar?
  {
    if |buf| / 8 == 1 then DivideWide(Read(FromLE(buf[..8]), t.signed), t.signed, div)
    else
      ExtremeNotNegative(Cells(buf), t.kind == MaxTy);
      DivideWide(Extreme(Cells(buf), t.kind == MaxTy, t.signed), t.signed, div)
  }

  lemma {:induction false} ExtremeNotNegative(cells: seq<Cell>, isMax: bool)
    ensures Extreme(cells, isMax, false) >= 0
  {
    if cells != [] {
      ExtremeNotNegative(cells[..|cells| - 1], isMax);
    }
  }

  function FormatAverage(t: SizedType, buf: seq<byte>, div: nat): Result<Primitive, FormatError>
    requires t.Scalar?
  {
    if t.kind == AvgTy && |buf| / 8 == 1 then DivideWide(Read(FromLE(buf[..8]), t.signed), t.signed, div)
    else
      var stats := StatsOf(Cells(buf), t.signed);
      match DivideWide(stats.avg, t.signed, div)
      case Err(e) => Err(e)
      case Ok(average) =>
        Ok(if t.kind == AvgTy then average
           else RecordOf(["count", "average", "total"],
                         [Wide(stats.count, t.signed), average, Wide(stats.total, t.signed)]))
  }

  function Wide(i: int, signed: bool): Primitive
    requires signed || i >= 0
  {
    if signed then Int(i) else UInt(i)
  }

  predicate StorableWidth(bits: nat) {
    bits == 8 || bits == 16 || bits == 32 || bits == 64
  }

  function EnumLabel(env: Env, name: string, v: nat): string {
    if name in env.enums && v in env.enums[name] then env.enums[name][v] else Numeral(v, 10)
  }

  // Length of the string before its NUL, if any.
  function StringLength(bs: seq<byte>): (n: nat)
    ensures n <= |bs|
    ensures forall i :: 0 <= i < n ==> bs[i] != 0
    ensures n < |bs| ==> bs[n] == 0
  {
    if bs == [] || bs[0] == 0 then 0 else 1 + StringLength(bs[1..])
  }

  function FormatString(size: nat, buf: seq<byte>, env: Env): Result<Primitive, FormatError> {
    if |buf| < size then Err(OutOfBounds)
    else
      var n := StringLength(buf[..size]);
      Ok(Str(buf[..n] + if n == size then env.trailer else []))
  }

  function FormatInteger(t: SizedType, buf: seq<byte>, div: nat, env: Env): Result<Primitive, FormatError>
    requires IsInteger(t)
  {
    if !StorableWidth(t.bits) then Err(Unsupported)
    else
      var n := t.bits / 8;
      if t.name != "" then
        if |buf| < n then Err(OutOfBounds)
        else Ok(Symbolic(EnumLabel(env, t.name, FromLE(buf[..n])), FromLE(buf[..n])))
      else if t.signed then DivideSigned(n, ToSigned(n, Reduce(buf, n)), div)
      else DivideUnsigned(Reduce(buf, n), div)
  }

  function FormatScalar(t: SizedType, buf: seq<byte>, div: nat, env: Env): Result<Primitive, FormatError>
    requires t.Scalar? && Decodable(t)
  {
    var kind := t.kind;
    if kind == NoneTy || kind == VoidTy then Ok(Unit)
    else if kind == BooleanTy then
      if |buf| < 1 then Err(OutOfBounds) else Ok(Bool(buf[0] != 0))
    else if kind == IntegerTy then FormatInteger(t, buf, div, env)
    else if kind == StringTy then FormatString(t.bits / 8, buf, env)
    else if kind == CountTy then DivideWide(Reduce(buf, 8), false, div)
    else if kind == SumTy then DivideWide(Read(Reduce(buf, 8), t.signed), t.signed, div)
    else if kind == MinTy || kind == MaxTy then FormatExtreme(t, buf, div)
    else if kind == AvgTy || kind == StatsTy then FormatAverage(t, buf, div)
    else Err(Unsupported)
  }

  function Format(t: SizedType, buf: seq<byte>, div: nat, env: Env): (r: Result<Primitive, FormatError>)
    requires Decodable(t)
    decreases t, 0, 0
  {
    match t
    case Scalar(_, _, _, _) => FormatScalar(t, buf, div, env)
    case Pointer(_) =>
      if |buf| < 8 then Err(OutOfBounds)
      else Ok(Symbolic("0x" + Numeral(FromLE(buf[..8]), 16), FromLE(buf[..8])))
    case Array(count, elem) =>
      (match FormatElements(elem, buf, 0, count, div, env)
       case Err(e) => Err(e)
       case Ok(vs) => Ok(ArrayOf(vs)))
    case Record(_, inner) =>
      (match FormatFields(inner.fields, buf, div, env)
       case Err(e) => Err(e)
       case Ok(vs) => Ok(RecordOf(FieldNames(inner.fields), vs)))
    case Tuple(inner) =>
      (match FormatFields(inner.fields, buf, div, env)
       case Err(e) => Err(e)
       case Ok(vs) => Ok(TupleOf(vs)))
  }

  // Elements i, i + 1, ..., count - 1 of an array, stopping at the first error.
  function FormatElements(elem: SizedType, buf: seq<byte>, i: nat, count: nat, div: nat, env: Env)
    : (r: Result<seq<Primitive>, FormatError>)
    requires Decodable(elem) && i <= count
    decreases elem, 1, count - i
  {
    if i == count then Ok([])
    else
      match Slice(buf, i * Size(elem), Size(elem))
      case Err(e) => Err(e)
      case Ok(part) =>
        match Format(elem, part, div, env)
        case Err(e) => Err(e)
        case Ok(v) =>
          match FormatElements(elem, buf, i + 1, count, div, env)
          case Err(e) => Err(e)
          case Ok(vs) => Ok([v] + vs)
  }

  function FormatFields(fs: seq<Field>, buf: seq<byte>, div: nat, env: Env)
    : (r: Result<seq<Primitive>, FormatError>)
    requires AllDecodable(fs)
    decreases fs, 0, 0
  {
    if fs == [] then Ok([])
    else
      match Slice(buf, fs[0].offset, Size(fs[0].ty))
      case Err(e) => Err(e)
      case Ok(part) =>
        match Format(fs[0].ty, part, div, env)
        case Err(e) => Err(e)
        case Ok(v) =>
          match FormatFields(fs[1..], buf, div, env)
          case Err(e) => Err(e)
          case Ok(vs) => Ok([v] + vs)
  }

  function FieldNames(fs: seq<Field>): (names: seq<string>)
    ensures |names| == |fs| && forall i :: 0 <= i < |fs| ==> names[i] == fs[i].name
  {
    seq(|fs|, i requires 0 <= i < |fs| => fs[i].name)
  }

  // Structs whose fields lie in order within the struct; CreateRecord only makes such structs.

  predicate InOrder(fs: seq<Field>, from: int, size: int) {
    fs == [] ||
    (from <= fs[0].offset && 0 <= Size(fs[0].ty) && fs[0].offset + Size(fs[0].ty) <= size
     && InOrder(fs[1..], fs[0].offset + Size(fs[0].ty), size))
  }

  predicate WellLaid(t: SizedType)
    decreases t, 1
  {
    match t
    case Scalar(_, _, _, _) => true
    case Pointer(_) => true
    case Array(_, elem) => Size(elem) >= 0 && WellLaid(elem)
    case Record(_, inner) => inner.size >= 0 && InOrder(inner.fields, 0, inner.size) && AllWellLaid(inner.fields)
    case Tuple(inner) => inner.size >= 0 && InOrder(inner.fields, 0, inner.size) && AllWellLaid(inner.fields)
  }

  predicate AllWellLaid(fs: seq<Field>)
    decreases fs, 0
  {
    fs == [] || (WellLaid(fs[0].ty) && AllWellLaid(fs[1..]))
  }

  lemma {:induction false} WellBuiltIsWellLaid(t: SizedType)
    requires WellBuilt(t)
    ensures WellLaid(t)
    decreases t, 1
  {
    match t
    case Scalar(_, _, _, _) =>
    case Pointer(_) =>
    case Array(_, elem) => AlignmentNormal(elem); WellBuiltIsWellLaid(elem);
    case Record(_, inner) => StructAlignment(inner); BuiltIsInOrder(inner, |inner.fields|); AllWellBuiltAreWellLaid(inner.fields);
    case Tuple(inner) => StructAlignment(inner); BuiltIsInOrder(inner, |inner.fields|); AllWellBuiltAreWellLaid(inner.fields);
  }

  lemma {:induction false} AllWellBuiltAreWellLaid(fs: seq<Field>)
    requires AllWellBuilt(fs)
    ensures AllWellLaid(fs)
    decreases fs, 0
  {
    if fs != [] {
      WellBuiltIsWellLaid(fs[0].ty);
      AllWellBuiltAreWellLaid(fs[1..]);
    }
  }

  // By induction on the number of fields left.
  lemma {:induction false} BuiltIsInOrder(s: Struct, left: nat)
    requires Built(s) && left <= |s.fields|
    requires NormalAlign(s.align)
    ensures InOrder(s.fields[|s.fields| - left..], EndAfter(Types(s.fields), |s.fields| - left), s.size)
    decreases left
  {
    hide Size, InTupleAlignment, AlignOfFirst, TotalSize;
    var tys, k := Types(s.fields), |s.fields| - left;
    if left > 0 {
      BuiltIsInOrder(s, left - 1);
      FieldWithin(tys, k);
      assert s.fields[k..][1..] == s.fields[k + 1..];
    }
  }

  lemma FieldWithin(tys: seq<SizedType>, k: nat)
    requires AllPlaceable(tys) && k < |tys|
    ensures EndAfter(tys, k) <= PlaceAt(tys, k) && Size(tys[k]) >= 0
    ensures PlaceAt(tys, k) + Size(tys[k]) == EndAfter(tys, k + 1) <= TotalSize(tys)
  {
    EndsGrow(tys, k, k);
    EndsGrow(tys, k + 1, |tys|);
    AlignPositive(tys, |tys|);
    RoundUp(AlignOfFirst(tys, |tys|), EndAfter(tys, |tys|));
    assert Placeable(tys[k]);
  }

  // Values that a buffer of the given type can store.  A minimum, maximum or average of one word is
  // stored combined; a string may fill its buffer, and then has no terminator.

  predicate Storable(v: Primitive, t: SizedType, env: Env)
    decreases t, 1
  {
    match t
    case Scalar(_, _, _, _) => StorableScalar(v, t, env)
    case Pointer(_) => v.Symbolic? && v.numeric < Range(8) && v.symbol == "0x" + Numeral(v.numeric, 16)
    case Array(count, elem) =>
      v.ArrayOf? && |v.values| == count && forall i :: 0 <= i < count ==> Storable(v.values[i], elem, env)
    case Record(_, inner) =>
      v.RecordOf? && v.names == FieldNames(inner.fields)
      && |v.values| == |inner.fields| && AllStorable(v.values, inner.fields, env)
    case Tuple(inner) =>
      v.TupleOf? && |v.values| == |inner.fields| && AllStorable(v.values, inner.fields, env)
  }

  predicate StorableScalar(v: Primitive, t: SizedType, env: Env)
    requires t.Scalar?
  {
    if t.kind == NoneTy || t.kind == VoidTy then v == Unit
    else if t.kind == BooleanTy then t.bits == 8 && v.Bool?
    else if t.kind == StringTy then v.Str? && |v.bytes| <= t.bits / 8 && 0 !in v.bytes
    else if t.kind == CountTy then t.bits == 64 && StorableNumber(v, 8, false)
    else if t.kind in {SumTy, MinTy, MaxTy, AvgTy} then t.bits == 64 && StorableNumber(v, 8, t.signed)
    else if t.kind == IntegerTy then
      StorableWidth(t.bits) &&
      if t.name == "" then StorableNumber(v, t.bits / 8, t.signed)
      else v.Symbolic? && v.numeric < Range(t.bits / 8) && v.symbol == EnumLabel(env, t.name, v.numeric)
    else false
  }

  predicate StorableNumber(v: Primitive, n: nat, signed: bool) {
    if signed then v.Int? && SignedFits(n, v.i) else v.UInt? && v.n < Range(n)
  }

  predicate AllStorable(vs: seq<Primitive>, fs: seq<Field>, env: Env)
    requires |vs| == |fs|
    decreases fs, 0
  {
    fs == [] || (Storable(vs[0], fs[0].ty, env) && AllStorable(vs[1..], fs[1..], env))
  }

  // How a stored value is decoded: a string that fills its buffer gains the truncation trailer.

  function Shown(v: Primitive, t: SizedType, env: Env): Primitive
    requires Storable(v, t, env)
    decreases t, 1, 0
  {
    match t
    case Scalar(kind, bits, _, _) => if kind == StringTy && |v.bytes| == bits / 8 then Str(v.bytes + env.trailer) else v
    case Pointer(_) => v
    case Array(_, elem) => ArrayOf(ShownElements(v.values, elem, env))
    case Record(_, inner) => RecordOf(v.names, ShownFields(v.values, inner.fields, env))
    case Tuple(inner) => TupleOf(ShownFields(v.values, inner.fields, env))
  }

  function ShownElements(vs: seq<Primitive>, elem: SizedType, env: Env): (r: seq<Primitive>)
    requires forall i :: 0 <= i < |vs| ==> Storable(vs[i], elem, env)
    ensures |r| == |vs|
    decreases elem, 2, |vs|
  {
    if vs == [] then [] else [Shown(vs[0], elem, env)] + ShownElements(vs[1..], elem, env)
  }

  function ShownFields(vs: seq<Primitive>, fs: seq<Field>, env: Env): (r: seq<Primitive>)
    requires |vs| == |fs| && AllStorable(vs, fs, env)
    ensures |r| == |vs|
    decreases fs, 0, 0
  {
    if fs == [] then [] else [Shown(vs[0], fs[0].ty, env)] + ShownFields(vs[1..], fs[1..], env)
  }

  // Some string fills its buffer.
  predicate HasFull(v: Primitive, t: SizedType, env: Env)
    requires Storable(v, t, env)
    decreases t, 1, 0
  {
    match t
    case Scalar(kind, bits, _, _) => kind == StringTy && |v.bytes| == bits / 8
    case Pointer(_) => false
    case Array(_, elem) => exists i :: 0 <= i < |v.values| && HasFull(v.values[i], elem, env)
    case Record(_, inner) => FieldsHaveFull(v.values, inner.fields, env)
    case Tuple(inner) => FieldsHaveFull(v.values, inner.fields, env)
  }

  predicate FieldsHaveFull(vs: seq<Primitive>, fs: seq<Field>, env: Env)
    requires |vs| == |fs| && AllStorable(vs, fs, env)
    decreases fs, 0, 0
  {
    fs != [] && (HasFull(vs[0], fs[0].ty, env) || FieldsHaveFull(vs[1..], fs[1..], env))
  }

  // Storing a value into a buffer.  `before` is what the buffer held: padding, the tail of a string
  // and everything else the value does not determine stays as it was.

  function Splice(buf: seq<byte>, offset: nat, part: seq<byte>): (r: seq<byte>)
    requires offset + |part| <= |buf|
    ensures |r| == |buf| && r[..offset] == buf[..offset] && r[offset..offset + |part|] == part
    ensures r[offset + |part|..] == buf[offset + |part|..]
  {
    buf[..offset] + part + buf[offset + |part|..]
  }

  function Store(v: Primitive, t: SizedType, before: seq<byte>, env: Env): (r: seq<byte>)
    requires Storable(v, t, env) && WellLaid(t) && |before| == Size(t)
    ensures |r| == |before|
    decreases t, 1, 0
  {
    match t
    case Scalar(_, bits, _, _) =>
      (match v
       case Bool(b) => [if b then 1 else 0]
       case Str(bytes) => if |bytes| == |before| then bytes else bytes + [0] + before[|bytes| + 1..]
       case Int(i) => ToLE(bits / 8, FromSigned(bits / 8, i))
       case UInt(n) => ToLE(bits / 8, n)
       case Symbolic(_, n) => ToLE(bits / 8, n)
       case _ => before)
    case Pointer(_) => ToLE(8, v.numeric)
    case Array(count, elem) => StoreElements(v.values, elem, before, env)
    case Record(_, inner) => StoreFields(v.values, inner.fields, 0, inner.size, before, env)
    case Tuple(inner) => StoreFields(v.values, inner.fields, 0, inner.size, before, env)
  }

  function StoreElements(vs: seq<Primitive>, elem: SizedType, before: seq<byte>, env: Env): (r: seq<byte>)
    requires forall i :: 0 <= i < |vs| ==> Storable(vs[i], elem, env)
    requires WellLaid(elem) && Size(elem) >= 0 && |before| == |vs| * Size(elem)
    ensures |r| == |before|
    decreases elem, 2, |vs|
  {
    if vs == [] then []
    else
      assert |before| == Size(elem) + (|vs| - 1) * Size(elem);
      Store(vs[0], elem, before[..Size(elem)], env) + StoreElements(vs[1..], elem, before[Size(elem)..], env)
  }

  function StoreFields(vs: seq<Primitive>, fs: seq<Field>, from: nat, size: int, before: seq<byte>, env: Env)
    : (r: seq<byte>)
    requires |vs| == |fs| && AllStorable(vs, fs, env) && AllWellLaid(fs)
    requires InOrder(fs, from, size) && from <= size == |before|
    ensures |r| == |before| && r[..from] == before[..from]
    decreases fs, 0, 0
  {
    if fs == [] then before
    else
      var o, e := fs[0].offset, fs[0].offset + Size(fs[0].ty);
      var placed := Splice(before, o, Store(vs[0], fs[0].ty, before[o..e], env));
      var r := StoreFields(vs[1..], fs[1..], e, size, placed, env);
      assert r[..from] == r[..e][..from] == placed[..e][..from] == placed[..o][..from] == before[..from];
      r
  }
}
