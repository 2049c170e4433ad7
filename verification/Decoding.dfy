/**
 The other direction of the round trip: decoding never fails on a buffer of the type's size, the decoded
 value is one that a program can store, and storing it again changes no byte.
 */
module Decoding {
  import opened Prelude
  import opened SizedTypes
  import opened Bytes
  import opened Aggregates
  import opened Codec
  import opened RoundTrip
  import Numerals
  import PerProcessor

  // Integers and booleans of their own widths, strings, and aggregates that are combined into one word.
  predicate IsWhole(t: SizedType)
    decreases t, 1
  {
    match t
    case Scalar(kind, bits, _, _) =>
      || kind in {NoneTy, VoidTy} || (kind == StringTy && bits % 8 == 0) || (kind == BooleanTy && bits == 8)
      || (kind == IntegerTy && bits in {8, 16, 32, 64})
      || (kind in {CountTy, SumTy, MinTy, MaxTy, AvgTy} && bits == 64)
    case Pointer(_) => true
    case Array(_, elem) => IsWhole(elem)
    case Record(_, inner) => AllWhole(inner.fields)
    case Tuple(inner) => AllWhole(inner.fields)
  }

  predicate AllWhole(fs: seq<Field>)
    decreases fs, 0
  {
    fs == [] || (IsWhole(fs[0].ty) && AllWhole(fs[1..]))
  }

  // A boolean is decoded from any byte, and stored as 0 or 1.
  predicate NoBooleans(t: SizedType)
    decreases t, 1
  {
    match t
    case Scalar(kind, _, _, _) => kind != BooleanTy
    case Pointer(_) => true
    case Array(_, elem) => NoBooleans(elem)
    case Record(_, inner) => NoFieldBooleans(inner.fields)
    case Tuple(inner) => NoFieldBooleans(inner.fields)
  }

  predicate NoFieldBooleans(fs: seq<Field>)
    decreases fs, 0
  {
    fs == [] || (NoBooleans(fs[0].ty) && NoFieldBooleans(fs[1..]))
  }

  // w is what the buffer holds.
  predicate IsHeld(w: Primitive, t: SizedType, buf: seq<byte>, env: Env)
    requires Decodable(t) && WellLaid(t) && |buf| == Size(t)
  {
    && Storable(w, t, env) && Format(t, buf, 1, env) == Ok(Shown(w, t, env))
    && (NoBooleans(t) ==> Store(w, t, buf, env) == buf)
  }

  // Scalars.

  lemma NumberHeld(n: nat, buf: seq<byte>, signed: bool) returns (w: Primitive)
    requires n > 0 && |buf| == n
    ensures StorableNumber(w, n, signed)
    ensures if signed then w == Int(ToSigned(n, FromLE(buf))) && ToLE(n, FromSigned(n, w.i)) == buf
            else w == UInt(FromLE(buf)) && ToLE(n, w.n) == buf
  {
    var v := FromLE(buf);
    WriteBack(buf);
    w := if signed then Int(ToSigned(n, v)) else UInt(v);
  }

  lemma IntegerHeld(t: SizedType, buf: seq<byte>, env: Env) returns (w: Primitive)
    requires IsInteger(t) && IsWhole(t) && |buf| == Size(t)
    ensures IsHeld(w, t, buf, env)
  {
    hide Range, FromLE, ToLE, Reduce, FromSigned, ToSigned, EnumLabel;
    var n := t.bits / 8;
    if t.name != "" {
      WriteBack(buf);
      assert buf[..n] == buf;
      w := Symbolic(EnumLabel(env, t.name, FromLE(buf)), FromLE(buf));
    } else {
      w := NumberHeld(n, buf, t.signed);
      ReduceOne(buf, n);
      PerProcessor.IntegerFormatted(t, buf, 1, env);
      DivideByOne(n, ToSigned(n, FromLE(buf)));
      assert DivideUnsigned(FromLE(buf), 1) == Ok(UInt(FromLE(buf)));
    }
  }

  lemma WordHeld(t: SizedType, buf: seq<byte>, env: Env) returns (w: Primitive)
    requires IsWord(t) && t.bits == 64 && |buf| == 8
    ensures Decodable(t) && IsHeld(w, t, buf, env)
  {
    hide Range, FromLE, ToLE, Reduce, FromSigned, ToSigned;
    w := NumberHeld(8, buf, ReadSigned(t));
    ReduceOne(buf, 8);
    assert buf[..8] == buf;
    ShownWord(t, buf, env);
    var v := Read(FromLE(buf), ReadSigned(t));
    TruncateByOne(v);
    assert DivideWide(v, ReadSigned(t), 1) == Ok(w);
    assert FormatScalar(t, buf, 1, env) == Ok(w);
    assert Format(t, buf, 1, env) == Ok(w);
    WordKept(t, w, buf, env);
  }

  lemma WordKept(t: SizedType, w: Primitive, buf: seq<byte>, env: Env)
    requires IsWord(t) && t.bits == 64 && StorableNumber(w, 8, ReadSigned(t)) && |buf| == 8
    ensures Storable(w, t, env) && Shown(w, t, env) == w && Store(w, t, buf, env) == WordOf(w, ReadSigned(t))
  {
    StoredWord(w, t, buf, env);
  }

  lemma StringHeld(t: SizedType, buf: seq<byte>, env: Env) returns (w: Primitive)
    requires IsString(t) && IsWhole(t) && |buf| == Size(t)
    ensures IsHeld(w, t, buf, env)
  {
    var n := StringLength(buf);
    assert buf[..t.bits / 8] == buf;
    w := Str(buf[..n]);
    if n < |buf| {
      assert buf[..n] + [] == buf[..n];
      assert buf == buf[..n] + [0] + buf[n + 1..];
    }
  }

  lemma ScalarHeld(t: SizedType, buf: seq<byte>, env: Env) returns (w: Primitive)
    requires t.Scalar? && IsWhole(t) && Decodable(t) && |buf| == Size(t)
    ensures IsHeld(w, t, buf, env)
  {
    if IsInteger(t) {
      w := IntegerHeld(t, buf, env);
    } else if IsString(t) {
      w := StringHeld(t, buf, env);
    } else if t.kind == BooleanTy {
      w := Bool(buf[0] != 0);
    } else if t.kind in {NoneTy, VoidTy} {
      w := Unit;
    } else {
      w := WordHeld(t, buf, env);
    }
  }

  lemma PointerHeld(t: SizedType, buf: seq<byte>, env: Env) returns (w: Primitive)
    requires t.Pointer? && |buf| == 8
    ensures IsHeld(w, t, buf, env)
  {
    hide FromLE, ToLE;
    WriteBack(buf);
    assert buf[..8] == buf;
    w := Symbolic("0x" + Numerals.Numeral(FromLE(buf), 16), FromLE(buf));
  }

  // Main result: every buffer of the type's size holds a value that can be stored.
  lemma {:induction false} FormatThenStore(t: SizedType, buf: seq<byte>, env: Env) returns (w: Primitive)
    requires Decodable(t) && WellLaid(t) && IsWhole(t) && |buf| == Size(t)
    ensures IsHeld(w, t, buf, env)
    decreases t, 1
  {
    match t
    case Scalar(_, _, _, _) => w := ScalarHeld(t, buf, env);
    case Pointer(_) => w := PointerHeld(t, buf, env);
    case Array(count, elem) =>
      assert buf[0..] == buf;
      var ws := ElementsHeld(elem, buf, 0, count, env);
      w := ArrayOf(ws);
    case Record(_, inner) =>
      var ws := FieldsHeld(inner.fields, 0, inner.size, buf, env);
      w := RecordOf(FieldNames(inner.fields), ws);
    case Tuple(inner) =>
      var ws := FieldsHeld(inner.fields, 0, inner.size, buf, env);
      w := TupleOf(ws);
  }

  lemma {:induction false} ElementsHeld(elem: SizedType, buf: seq<byte>, i: nat, count: nat, env: Env)
      returns (ws: seq<Primitive>)
    requires Decodable(elem) && WellLaid(elem) && IsWhole(elem) && Size(elem) >= 0 && i <= count
    requires |buf| == count * Size(elem) && 0 <= i * Size(elem) <= |buf|
    requires |buf[i * Size(elem)..]| == (count - i) * Size(elem)
    ensures |ws| == count - i && forall j :: 0 <= j < |ws| ==> Storable(ws[j], elem, env)
    ensures FormatElements(elem, buf, i, count, 1, env) == Ok(ShownElements(ws, elem, env))
    ensures NoBooleans(elem) ==> StoreElements(ws, elem, buf[i * Size(elem)..], env) == buf[i * Size(elem)..]
    decreases elem, 2, count - i
  {
    hide Format, Store, Storable, Shown, WellLaid, Decodable, Size, IsWhole, NoBooleans;
    if i == count {
      ws := [];
      assert buf[i * Size(elem)..] == [];
    } else {
      var n := Size(elem);
      ElementBounds(n, i, count);
      var rest := buf[i * n..];
      var part := rest[..n];
      assert part == buf[i * n..i * n + n] && rest[n..] == buf[(i + 1) * n..];
      var w := FormatThenStore(elem, part, env);
      var more := ElementsHeld(elem, buf, i + 1, count, env);
      ws := [w] + more;
      assert ws[1..] == more;
      assert rest == part + rest[n..];
    }
  }

  lemma {:induction false} FieldsHeld(fs: seq<Field>, from: nat, size: int, buf: seq<byte>, env: Env)
      returns (ws: seq<Primitive>)
    requires AllDecodable(fs) && AllWellLaid(fs) && AllWhole(fs)
    requires InOrder(fs, from, size) && from <= size == |buf|
    ensures |ws| == |fs| && AllStorable(ws, fs, env)
    ensures FormatFields(fs, buf, 1, env) == Ok(ShownFields(ws, fs, env))
    ensures NoFieldBooleans(fs) ==> StoreFields(ws, fs, from, size, buf, env) == buf
    decreases fs, 0
  {
    hide Format, Store, Storable, Shown, WellLaid, Decodable, Size, IsWhole, NoBooleans;
    if fs == [] {
      ws := [];
    } else {
      var o, e := fs[0].offset, fs[0].offset + Size(fs[0].ty);
      var w := FormatThenStore(fs[0].ty, buf[o..e], env);
      var more := FieldsHeld(fs[1..], e, size, buf, env);
      ws := [w] + more;
      assert ws[1..] == more;
      assert Splice(buf, o, buf[o..e]) == buf;
    }
  }
}
