/**
 Decoding returns what was stored, and never looks outside its buffer.
 */
module RoundTrip {
  import opened Arithmetic
  import opened Prelude
  import opened SizedTypes
  import opened Bytes
  import opened Numerals
  import opened Codec
  import opened Aggregates

  // Scalars.

  lemma ReduceOne(buf: seq<byte>, n: nat)
    requires n > 0 && |buf| == n
    ensures Reduce(buf, n) == FromLE(buf)
  {
    assert buf[..n] == buf;
    assert Reduce(buf[n..], n) == 0;
    DivModOf(Range(n), 0, FromLE(buf));
  }

  lemma DivideByOne(n: nat, i: int)
    requires n > 0
    ensures DivideSigned(n, i, 1) == Ok(Int(i))
  {
    assert Range(n) >= 256;
    DivModOf(Range(n), 0, 1);
    TruncateByOne(i);
  }

  lemma SignedRoundTrip(n: nat, i: int)
    requires n > 0 && SignedFits(n, i)
    ensures ToSigned(n, Reduce(ToLE(n, FromSigned(n, i)), n)) == i
  {
    ReadBack(n, FromSigned(n, i));
    ReduceOne(ToLE(n, FromSigned(n, i)), n);
  }

  lemma UnsignedRoundTrip(n: nat, v: nat)
    requires n > 0 && v < Range(n)
    ensures Reduce(ToLE(n, v), n) == v
  {
    ReadBack(n, v);
    ReduceOne(ToLE(n, v), n);
  }

  lemma {:induction false} StringLengthIs(bs: seq<byte>, k: nat)
    requires k < |bs| && bs[k] == 0 && 0 !in bs[..k]
    ensures StringLength(bs) == k
  {
    if k > 0 {
      assert bs[0] == bs[..k][0];
      assert bs[1..][..k - 1] == bs[..k][1..];
      StringLengthIs(bs[1..], k - 1);
    }
  }

  lemma StringRoundTrip(s: seq<byte>, size: nat, before: seq<byte>, env: Env)
    requires |s| < size == |before| && 0 !in s
    ensures FormatString(size, s + [0] + before[|s| + 1..], env) == Ok(Str(s))
  {
    var bs := s + [0] + before[|s| + 1..];
    assert bs[..size] == bs && bs[..|s|] == s && bs[|s|] == 0;
    StringLengthIs(bs, |s|);
    assert bs[..|s|] + [] == s;
  }

  // A string that fills its buffer has no terminator there, and is decoded with the trailer.
  lemma FullStringShown(s: seq<byte>, env: Env)
    requires 0 !in s
    ensures FormatString(|s|, s, env) == Ok(Str(s + env.trailer))
  {
    NoTerminator(s);
    assert s[..|s|] == s;
  }

  function WordOf(v: Primitive, signed: bool): (buf: seq<byte>)
    requires StorableNumber(v, 8, signed)
    ensures |buf| == 8
  {
    if v.Int? then ToLE(8, FromSigned(8, v.i)) else ToLE(8, v.n)
  }

  // One stored word, as the number that it stands for.
  lemma WordRoundTrip(v: Primitive, signed: bool)
    requires StorableNumber(v, 8, signed)
    ensures var buf := WordOf(v, signed);
      && Reduce(buf, 8) == FromLE(buf[..8])
      && DivideWide(Read(Reduce(buf, 8), signed), signed, 1) == Ok(v)
  {
    var buf := WordOf(v, signed);
    ReduceOne(buf, 8);
    assert buf[..8] == buf;
    ReadBack(8, if v.Int? then FromSigned(8, v.i) else v.n);
    hide ToLE, FromLE, Range, Reduce;
    TruncateByOne(if v.Int? then v.i else v.n);
  }

  // Sums, counts and combined values.
  predicate IsWord(t: SizedType) {
    t.Scalar? && t.kind in {SumTy, CountTy, MinTy, MaxTy, AvgTy}
  }

  predicate ReadSigned(t: SizedType) {
    t.Scalar? && t.kind != CountTy && t.signed
  }

  lemma StoredWord(v: Primitive, t: SizedType, before: seq<byte>, env: Env)
    requires IsWord(t) && Storable(v, t, env) && |before| == Size(t)
    ensures StorableNumber(v, 8, ReadSigned(t)) && Store(v, t, before, env) == WordOf(v, ReadSigned(t))
    ensures Shown(v, t, env) == v
  {
    hide ToLE, FromSigned, Range, SignedFits;
  }

  lemma ShownWord(t: SizedType, buf: seq<byte>, env: Env)
    requires IsWord(t) && |buf| == 8 && Reduce(buf, 8) == FromLE(buf[..8])
    ensures FormatScalar(t, buf, 1, env) == DivideWide(Read(Reduce(buf, 8), ReadSigned(t)), ReadSigned(t), 1)
  {
    hide Reduce, FromLE, DivideWide, Extreme, StatsOf, Cells;
    assert |buf| / 8 == 1;
  }

  lemma WordValueRoundTrip(v: Primitive, t: SizedType, before: seq<byte>, env: Env)
    requires IsWord(t) && Decodable(t) && Storable(v, t, env) && |before| == Size(t)
    ensures FormatScalar(t, Store(v, t, before, env), 1, env) == Ok(Shown(v, t, env))
  {
    StoredWord(v, t, before, env);
    hide *;
    WordRoundTrip(v, ReadSigned(t));
    ShownWord(t, WordOf(v, ReadSigned(t)), env);
  }

  lemma IntegerRoundTrip(v: Primitive, t: SizedType, before: seq<byte>, env: Env)
    requires IsInteger(t) && t.name == "" && Storable(v, t, env) && |before| == Size(t)
    ensures FormatInteger(t, Store(v, t, before, env), 1, env) == Ok(v)
  {
    var n := t.bits / 8;
    if v.Int? {
      SignedRoundTrip(n, v.i);
      DivideByOne(n, v.i);
    } else {
      UnsignedRoundTrip(n, v.n);
    }
  }

  lemma EnumRoundTrip(v: Primitive, t: SizedType, before: seq<byte>, env: Env)
    requires IsInteger(t) && t.name != "" && Storable(v, t, env) && |before| == Size(t)
    ensures FormatInteger(t, Store(v, t, before, env), 1, env) == Ok(v)
  {
    var n := t.bits / 8;
    ReadBack(n, v.numeric);
    assert ToLE(n, v.numeric)[..n] == ToLE(n, v.numeric);
  }

  // A value of an enum is shown by the name that the program defines for it, or else in decimal.
  lemma EnumShown(t: SizedType, buf: seq<byte>, div: nat, env: Env)
    requires IsInteger(t) && t.name != "" && t.bits in {8, 16, 32, 64} && |buf| >= t.bits / 8
    ensures var v := FromLE(buf[..t.bits / 8]);
      exists text :: Format(t, buf, div, env) == Ok(Symbolic(text, v))
        && if t.name in env.enums && v in env.enums[t.name] then text == env.enums[t.name][v]
           else AllDecimal(text) && NumeralValue(text, 10) == v
  {
    var v := FromLE(buf[..t.bits / 8]);
    NumeralDenotes(v, 10);
    var text := EnumLabel(env, t.name, v);
    hide FromLE, Numeral, NumeralValue;
    assert Format(t, buf, div, env) == Ok(Symbolic(text, v));
  }

  lemma StringValueRoundTrip(v: Primitive, t: SizedType, before: seq<byte>, env: Env)
    requires IsString(t) && Storable(v, t, env) && |before| == Size(t)
    ensures FormatScalar(t, Store(v, t, before, env), 1, env) == Ok(Shown(v, t, env))
  {
    hide FormatString;
    if |v.bytes| < t.bits / 8 {
      StringRoundTrip(v.bytes, t.bits / 8, before, env);
    } else {
      FullStringShown(v.bytes, env);
    }
  }

  lemma ScalarRoundTrip(v: Primitive, t: SizedType, before: seq<byte>, env: Env)
    requires t.Scalar? && Decodable(t) && Storable(v, t, env) && |before| == Size(t)
    ensures FormatScalar(t, Store(v, t, before, env), 1, env) == Ok(Shown(v, t, env))
  {
    if t.kind == StringTy {
      StringValueRoundTrip(v, t, before, env);
    } else if IsWord(t) {
      WordValueRoundTrip(v, t, before, env);
    } else {
      hide FormatString, FormatExtreme, FormatAverage, DivideWide, FormatInteger, Range, ToLE, FromLE;
      if t.kind == IntegerTy && t.name == "" {
        IntegerRoundTrip(v, t, before, env);
      } else if t.kind == IntegerTy {
        EnumRoundTrip(v, t, before, env);
      }
    }
  }

  lemma PointerRoundTrip(n: nat)
    requires n < Range(8)
    ensures FromLE(ToLE(8, n)[..8]) == n
  {
    ReadBack(8, n);
    assert ToLE(8, n)[..8] == ToLE(8, n);
  }

  // Main result: for every type laid out in order, every value of the type and every previous
  // content of the buffer, decoding with divisor 1 returns the stored value, its full strings with
  // the trailer.
  lemma {:induction false} StoreThenFormat(v: Primitive, t: SizedType, before: seq<byte>, env: Env)
    requires Decodable(t) && WellLaid(t) && Storable(v, t, env) && |before| == Size(t)
    ensures Format(t, Store(v, t, before, env), 1, env) == Ok(Shown(v, t, env))
    decreases t, 1, 0
  {
    match t
    case Scalar(_, _, _, _) => ScalarRoundTrip(v, t, before, env);
    case Pointer(_) => PointerRoundTrip(v.numeric);
    case Array(count, elem) =>
      var buf := Store(v, t, before, env);
      assert buf[0..] == buf && before[0..] == before && v.values[0..] == v.values;
      ElementsRoundTrip(v.values, elem, buf, before, 0, env);
    case Record(_, inner) => FieldsRoundTrip(v.values, inner.fields, 0, inner.size, before, env);
    case Tuple(inner) => FieldsRoundTrip(v.values, inner.fields, 0, inner.size, before, env);
  }

  lemma {:induction false} ElementsRoundTrip(vs: seq<Primitive>, elem: SizedType, buf: seq<byte>,
                                             before: seq<byte>, i: nat, env: Env)
    requires i <= |vs| && Decodable(elem) && WellLaid(elem) && Size(elem) >= 0
    requires forall j :: 0 <= j < |vs| ==> Storable(vs[j], elem, env)
    requires |before| == |buf| == |vs| * Size(elem) && 0 <= i * Size(elem) <= |buf|
    requires |before[i * Size(elem)..]| == |vs[i..]| * Size(elem)
    requires buf[i * Size(elem)..] == StoreElements(vs[i..], elem, before[i * Size(elem)..], env)
    ensures FormatElements(elem, buf, i, |vs|, 1, env) == Ok(ShownElements(vs[i..], elem, env))
    decreases elem, 2, |vs| - i
  {
    hide Format, Store, StoreElements, Storable, Shown, WellLaid, Decodable, Size;
    if i < |vs| {
      var s, lo, hi := Size(elem), i * Size(elem), (i + 1) * Size(elem);
      ElementBounds(s, i, |vs|);
      var rest, was := buf[lo..], before[lo..];
      assert vs[i..][0] == vs[i] && vs[i..][1..] == vs[i + 1..];
      StoreElementsSplit(vs[i..], elem, was, env);
      assert rest[..s] == buf[lo..hi];
      StoreThenFormat(vs[i], elem, was[..s], env);
      assert rest[s..] == buf[hi..] && was[s..] == before[hi..];
      ElementsRoundTrip(vs, elem, buf, before, i + 1, env);
      FormatElementsStep(vs, elem, buf, i, env);
    }
  }

  lemma FormatElementsStep(vs: seq<Primitive>, elem: SizedType, buf: seq<byte>, i: nat, env: Env)
    requires Decodable(elem) && Size(elem) >= 0 && i < |vs|
    requires forall j :: 0 <= j < |vs| ==> Storable(vs[j], elem, env)
    requires 0 <= i * Size(elem) <= i * Size(elem) + Size(elem) <= |buf|
    requires Format(elem, buf[i * Size(elem)..i * Size(elem) + Size(elem)], 1, env) == Ok(Shown(vs[i], elem, env))
    requires FormatElements(elem, buf, i + 1, |vs|, 1, env) == Ok(ShownElements(vs[i + 1..], elem, env))
    ensures FormatElements(elem, buf, i, |vs|, 1, env) == Ok(ShownElements(vs[i..], elem, env))
  {
    hide Format, Decodable, Size, Storable, Shown;
    var lo := i * Size(elem);
    assert Slice(buf, lo, Size(elem)) == Ok(buf[lo..lo + Size(elem)]);
    assert vs[i..][0] == vs[i] && vs[i..][1..] == vs[i + 1..];
  }

  lemma StoreElementsSplit(vs: seq<Primitive>, elem: SizedType, before: seq<byte>, env: Env)
    requires vs != [] && forall i :: 0 <= i < |vs| ==> Storable(vs[i], elem, env)
    requires WellLaid(elem) && Size(elem) >= 0 && |before| == |vs| * Size(elem)
    ensures Size(elem) <= |before| && |before[Size(elem)..]| == |vs[1..]| * Size(elem)
    ensures var r := StoreElements(vs, elem, before, env);
            r[..Size(elem)] == Store(vs[0], elem, before[..Size(elem)], env)
            && r[Size(elem)..] == StoreElements(vs[1..], elem, before[Size(elem)..], env)
  {
    ElementBounds(Size(elem), 0, |vs|);
  }

  lemma ElementBounds(s: nat, i: nat, count: nat)
    requires i < count
    ensures 0 <= i * s && i * s + s == (i + 1) * s <= count * s
    ensures count * s - (i + 1) * s == (count - i - 1) * s
  {
    MulLeq(s, i + 1, count);
  }

  lemma {:induction false} FieldsRoundTrip(vs: seq<Primitive>, fs: seq<Field>, from: nat, size: int,
                                           before: seq<byte>, env: Env)
    requires |vs| == |fs| && AllStorable(vs, fs, env) && AllWellLaid(fs) && AllDecodable(fs)
    requires InOrder(fs, from, size) && from <= size == |before|
    ensures FormatFields(fs, StoreFields(vs, fs, from, size, before, env), 1, env) == Ok(ShownFields(vs, fs, env))
    decreases fs, 0, 0
  {
    hide Format, Store, Storable, Shown, WellLaid, Decodable, Size;
    if fs != [] {
      var o, e := fs[0].offset, fs[0].offset + Size(fs[0].ty);
      var part := Store(vs[0], fs[0].ty, before[o..e], env);
      var placed := Splice(before, o, part);
      var buf := StoreFields(vs, fs, from, size, before, env);
      assert buf == StoreFields(vs[1..], fs[1..], e, size, placed, env);
      assert buf[o..e] == buf[..e][o..] == placed[..e][o..] == placed[o..e] == part;
      StoreThenFormat(vs[0], fs[0].ty, before[o..e], env);
      FieldsRoundTrip(vs[1..], fs[1..], e, size, placed, env);
    }
  }

  lemma {:induction false} NoTerminator(bs: seq<byte>)
    requires 0 !in bs
    ensures StringLength(bs) == |bs|
  {
    if bs != [] {
      assert bs[0] in bs;
      NoTerminator(bs[1..]);
    }
  }

  // A string that fills its buffer is decoded with the truncation trailer, so it comes back
  // unchanged exactly when it is shorter than the buffer or the trailer is empty.
  lemma FullStringGainsTrailer(s: seq<byte>, buf: seq<byte>, env: Env)
    requires |s| <= |buf| && 0 !in s && buf[..|s|] == s
    requires |s| < |buf| ==> buf[|s|] == 0
    ensures FormatString(|buf|, buf, env) == Ok(Str(s)) <==> |s| < |buf| || env.trailer == []
  {
    assert buf[..|buf|] == buf;
    if |s| < |buf| {
      StringLengthIs(buf, |s|);
      assert buf[..|s|] + [] == s;
    } else {
      assert s == buf;
      NoTerminator(buf);
      assert FormatString(|buf|, buf, env) == Ok(Str(s + env.trailer));
      assert |s + env.trailer| == |s| + |env.trailer|;
      if env.trailer == [] {
        assert s + env.trailer == s;
      }
    }
  }

  // A stored value comes back unchanged exactly when the trailer is empty or no string in it fills
  // its buffer.
  lemma {:induction false} ShownIff(v: Primitive, t: SizedType, env: Env)
    requires Storable(v, t, env)
    ensures Shown(v, t, env) == v <==> env.trailer == [] || !HasFull(v, t, env)
    decreases t, 1, 0
  {
    match t
    case Scalar(kind, bits, _, _) =>
      if kind == StringTy && |v.bytes| == bits / 8 {
        assert |v.bytes + env.trailer| == |v.bytes| + |env.trailer|;
        if env.trailer == [] {
          assert v.bytes + env.trailer == v.bytes;
        }
      }
    case Pointer(_) =>
    case Array(_, elem) => ElementsShownIff(v.values, elem, env);
    case Record(_, inner) => FieldsShownIff(v.values, inner.fields, env);
    case Tuple(inner) => FieldsShownIff(v.values, inner.fields, env);
  }

  lemma {:induction false} ElementsShownIff(vs: seq<Primitive>, elem: SizedType, env: Env)
    requires forall i :: 0 <= i < |vs| ==> Storable(vs[i], elem, env)
    ensures ShownElements(vs, elem, env) == vs
            <==> env.trailer == [] || !exists i :: 0 <= i < |vs| && HasFull(vs[i], elem, env)
    decreases elem, 2, |vs|
  {
    hide Shown, HasFull, Storable;
    if vs != [] {
      ShownIff(vs[0], elem, env);
      ElementsShownIff(vs[1..], elem, env);
      SameHeadAndTail(ShownElements(vs, elem, env), vs);
      if i :| 0 <= i < |vs| && HasFull(vs[i], elem, env) {
        assert i > 0 ==> HasFull(vs[1..][i - 1], elem, env);
      }
      if i :| 0 <= i < |vs[1..]| && HasFull(vs[1..][i], elem, env) {
        assert HasFull(vs[i + 1], elem, env);
      }
    }
  }

  lemma SameHeadAndTail(a: seq<Primitive>, b: seq<Primitive>)
    requires |a| == |b| > 0
    ensures a == b <==> a[0] == b[0] && a[1..] == b[1..]
  {
    assert a == [a[0]] + a[1..] && b == [b[0]] + b[1..];
  }

  lemma {:induction false} FieldsShownIff(vs: seq<Primitive>, fs: seq<Field>, env: Env)
    requires |vs| == |fs| && AllStorable(vs, fs, env)
    ensures ShownFields(vs, fs, env) == vs <==> env.trailer == [] || !FieldsHaveFull(vs, fs, env)
    decreases fs, 0, 0
  {
    hide Shown, HasFull, Storable;
    if fs != [] {
      ShownIff(vs[0], fs[0].ty, env);
      FieldsShownIff(vs[1..], fs[1..], env);
      SameHeadAndTail(ShownFields(vs, fs, env), vs);
    }
  }

  // Booleans have the one byte their constructor gives them.
  predicate BooleansWhole(t: SizedType)
    decreases t, 1
  {
    match t
    case Scalar(kind, bits, _, _) => kind == BooleanTy ==> bits == 8
    case Pointer(_) => true
    case Array(_, elem) => BooleansWhole(elem)
    case Record(_, inner) => AllBooleansWhole(inner.fields)
    case Tuple(inner) => AllBooleansWhole(inner.fields)
  }

  predicate AllBooleansWhole(fs: seq<Field>)
    decreases fs, 0
  {
    fs == [] || (BooleansWhole(fs[0].ty) && AllBooleansWhole(fs[1..]))
  }

  // A buffer of the type's size is large enough for every slice and cast: nothing escapes it,
  // whatever the bytes and the divisor are.
  lemma {:induction false} NoSliceEscapes(t: SizedType, buf: seq<byte>, div: nat, env: Env)
    requires Decodable(t) && WellLaid(t) && BooleansWhole(t) && |buf| >= Size(t)
    ensures Format(t, buf, div, env) != Err(OutOfBounds)
    decreases t, 1, 0
  {
    match t
    case Scalar(_, _, _, _) =>
    case Pointer(_) =>
    case Array(count, elem) => NoElementEscapes(elem, buf, 0, count, div, env);
    case Record(_, inner) => NoFieldEscapes(inner.fields, 0, inner.size, buf, div, env);
    case Tuple(inner) => NoFieldEscapes(inner.fields, 0, inner.size, buf, div, env);
  }

  lemma {:induction false} NoElementEscapes(elem: SizedType, buf: seq<byte>, i: nat, count: nat, div: nat, env: Env)
    requires Decodable(elem) && WellLaid(elem) && BooleansWhole(elem)
    requires i <= count && Size(elem) >= 0 && |buf| >= count * Size(elem)
    ensures FormatElements(elem, buf, i, count, div, env) != Err(OutOfBounds)
    decreases elem, 2, count - i
  {
    if i < count {
      ElementBounds(Size(elem), i, count);
      var part := Slice(buf, i * Size(elem), Size(elem));
      NoSliceEscapes(elem, part.value, div, env);
      NoElementEscapes(elem, buf, i + 1, count, div, env);
    }
  }

  lemma {:induction false} NoFieldEscapes(fs: seq<Field>, from: nat, size: int, buf: seq<byte>, div: nat, env: Env)
    requires AllDecodable(fs) && AllWellLaid(fs) && AllBooleansWhole(fs)
    requires InOrder(fs, from, size) && size <= |buf|
    ensures FormatFields(fs, buf, div, env) != Err(OutOfBounds)
    decreases fs, 0, 0
  {
    if fs != [] {
      var part := Slice(buf, fs[0].offset, Size(fs[0].ty));
      NoSliceEscapes(fs[0].ty, part.value, div, env);
      NoFieldEscapes(fs[1..], fs[0].offset + Size(fs[0].ty), size, buf, div, env);
    }
  }
}
