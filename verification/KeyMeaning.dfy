/**
 What sorting by key means for the decoded keys: tuples come out in the lexicographic order of the
 values they hold, except where a string ties with different bytes after its terminator
 (src/types_format.cpp:418-479 over keys stored as src/struct.cpp:63-101 lays out).
 */
module KeyMeaning {
  import opened SizedTypes
  import opened Bytes
  import opened Codec
  import opened KeySort

  // The number that an integer is sorted by: its bits read as signed, whatever its type says.
  function SortNumber(v: Primitive, n: nat): int
    requires match v case Int(_) => true case UInt(u) => u < Range(n) case Symbolic(_, u) => u < Range(n) case _ => false
  {
    match v
    case Int(i) => i
    case UInt(u) => ToSigned(n, u)
    case Symbolic(_, u) => ToSigned(n, u)
  }

  // The order of two values of a field: integers as numbers, strings alphabetically with a prefix
  // first; other fields do not matter.
  function CompareValues(t: SizedType, v: Primitive, w: Primitive, env: Env): Ordering
    requires Storable(v, t, env) && Storable(w, t, env)
  {
    if IsInteger(t) then CompareInt(SortNumber(v, t.bits / 8), SortNumber(w, t.bits / 8))
    else if IsString(t) then CompareBytes(v.bytes, w.bytes)
    else Equal
  }

  // Alphabetically before: a proper beginning, or a smaller byte where the strings first differ.
  ghost predicate IsBefore(a: seq<byte>, b: seq<byte>) {
    exists k :: DiffersAt(a, b, k)
  }

  predicate DiffersAt(a: seq<byte>, b: seq<byte>, k: nat) {
    k <= |a| && k < |b| && a[..k] == b[..k] && (k == |a| || a[k] < b[k])
  }

  lemma {:induction false} BeforeIff(a: seq<byte>, b: seq<byte>)
    ensures CompareBytes(a, b) == Less <==> IsBefore(a, b)
  {
    if a != [] && b != [] && a[0] == b[0] {
      BeforeIff(a[1..], b[1..]);
      if k: nat :| DiffersAt(a[1..], b[1..], k) {
        assert a[..k + 1] == [a[0]] + a[1..][..k] && b[..k + 1] == [b[0]] + b[1..][..k];
        assert DiffersAt(a, b, k + 1);
      }
      if k: nat :| DiffersAt(a, b, k) {
        assert k > 0;
        assert a[1..][..k - 1] == a[..k][1..] && b[1..][..k - 1] == b[..k][1..];
        assert DiffersAt(a[1..], b[1..], k - 1);
      }
    } else if b != [] && (a == [] || a[0] < b[0]) {
      assert DiffersAt(a, b, 0);
    } else if k: nat :| DiffersAt(a, b, k) {
      FirstDiffers(a, b, k);
    }
  }

  lemma FirstDiffers(a: seq<byte>, b: seq<byte>, k: nat)
    requires DiffersAt(a, b, k)
    ensures b != [] && (a == [] || a[0] <= b[0])
  {
    if k > 0 {
      assert a[..k][0] == b[..k][0];
    }
  }

  // In plain terms: the numbers ascend, and no string is alphabetically before the one in front of it.
  lemma CompareValuesMeans(t: SizedType, v: Primitive, w: Primitive, env: Env)
    requires Storable(v, t, env) && Storable(w, t, env)
    ensures IsInteger(t) ==> (CompareValues(t, v, w, env) == Greater
                              <==> SortNumber(w, t.bits / 8) < SortNumber(v, t.bits / 8))
    ensures IsString(t) ==> (CompareValues(t, v, w, env) == Greater <==> IsBefore(w.bytes, v.bytes))
  {
    hide SortNumber, CompareBytes, IsBefore;
    if IsString(t) {
      CompareBytesFlip(v.bytes, w.bytes);
      BeforeIff(w.bytes, v.bytes);
    }
  }

  // An unsigned number is sorted by its value only among the numbers with the same highest bit.
  lemma UnsignedOrderIff(n: nat, u: nat, v: nat)
    requires n > 0 && u < Range(n) && v < Range(n)
    ensures CompareInt(ToSigned(n, u), ToSigned(n, v)) == CompareInt(u, v)
            <==> (2 * u < Range(n) <==> 2 * v < Range(n))
  {
  }

  // Comparing stored fields is comparing values.

  lemma StoredNumber(v: Primitive, t: SizedType, before: seq<byte>, env: Env)
    requires IsInteger(t) && Storable(v, t, env) && WellLaid(t) && |before| == Size(t)
    ensures ToSigned(|before|, FromLE(Store(v, t, before, env))) == SortNumber(v, t.bits / 8)
  {
    var n := t.bits / 8;
    match v
    case Int(i) => ReadBack(n, FromSigned(n, i));
    case UInt(u) => ReadBack(n, u);
    case Symbolic(_, u) => ReadBack(n, u);
  }

  lemma {:induction false} SameBytes(a: seq<byte>)
    ensures CompareBytes(a, a) == Equal
  {
    if a != [] {
      SameBytes(a[1..]);
    }
  }

  // Different strings are told apart before what follows their terminators.
  lemma {:induction false} TerminatedStrings(a: seq<byte>, b: seq<byte>, s: seq<byte>, t: seq<byte>)
    requires 0 !in a && 0 !in b && a != b
    ensures CompareBytes(a + [0] + s, b + [0] + t) == CompareBytes(a, b)
  {
    var x, y := a + [0] + s, b + [0] + t;
    if a == [] {
      assert y[0] == b[0] && b[0] in b;
    } else if b == [] {
      assert x[0] == a[0] && a[0] in a;
    } else {
      assert x[1..] == a[1..] + [0] + s && y[1..] == b[1..] + [0] + t;
      if a[0] == b[0] {
        assert a == [a[0]] + a[1..] && b == [b[0]] + b[1..];
        TerminatedStrings(a[1..], b[1..], s, t);
      }
    }
  }

  lemma {:induction false} SamePrefix(a: seq<byte>, s: seq<byte>, t: seq<byte>)
    ensures CompareBytes(a + s, a + t) == CompareBytes(s, t)
  {
    if a == [] {
      assert a + s == s && a + t == t;
    } else {
      assert (a + s)[1..] == a[1..] + s && (a + t)[1..] == a[1..] + t;
      SamePrefix(a[1..], s, t);
    }
  }

  lemma {:induction false} EqualBytes(a: seq<byte>, b: seq<byte>)
    ensures CompareBytes(a, b) == Equal <==> a == b
  {
    if a == b {
      SameBytes(a);
    } else if a != [] && b != [] {
      assert a == [a[0]] + a[1..] && b == [b[0]] + b[1..];
      EqualBytes(a[1..], b[1..]);
    }
  }

  // A string without a terminator fills its buffer, and is longer than one with a terminator.
  lemma {:induction false} FullString(a: seq<byte>, b: seq<byte>, t: seq<byte>)
    requires 0 !in a && |a| == |b| + 1 + |t|
    ensures CompareBytes(a, b + [0] + t) == CompareBytes(a, b) != Equal
  {
    var y := b + [0] + t;
    assert a[0] in a;
    if b != [] {
      assert y[1..] == b[1..] + [0] + t;
      if a[0] == b[0] {
        FullString(a[1..], b[1..], t);
      }
    }
  }

  // What a string leaves of its buffer: the bytes after its terminator, if it has one.
  function Tail(v: Primitive, t: SizedType, before: seq<byte>, env: Env): seq<byte>
    requires IsString(t) && Storable(v, t, env) && |before| == Size(t)
  {
    if |v.bytes| == |before| then [] else before[|v.bytes| + 1..]
  }

  // Stored strings compare as the strings do; strings that are the same compare as their tails.
  lemma StoredStrings(v: Primitive, w: Primitive, t: SizedType, x: seq<byte>, y: seq<byte>, env: Env)
    requires IsString(t) && Storable(v, t, env) && Storable(w, t, env) && WellLaid(t) && |x| == |y| == Size(t)
    ensures CompareBytes(Store(v, t, x, env), Store(w, t, y, env))
         == Then(CompareBytes(v.bytes, w.bytes), CompareBytes(Tail(v, t, x, env), Tail(w, t, y, env)))
  {
    StoredString(v, t, x, env);
    StoredString(w, t, y, env);
    hide Store, Storable;
    BuffersCompare(v.bytes, w.bytes, Tail(v, t, x, env), Tail(w, t, y, env), |x|);
  }

  // The buffer that holds a string: with a terminator, if there is room.
  function Buffer(a: seq<byte>, s: seq<byte>, size: nat): seq<byte> {
    if |a| == size then a else a + [0] + s
  }

  lemma StoredString(v: Primitive, t: SizedType, x: seq<byte>, env: Env)
    requires IsString(t) && Storable(v, t, env) && WellLaid(t) && |x| == Size(t)
    ensures v.Str? && 0 !in v.bytes && Store(v, t, x, env) == Buffer(v.bytes, Tail(v, t, x, env), |x|)
    ensures if |v.bytes| == |x| then Tail(v, t, x, env) == [] else |v.bytes| + 1 + |Tail(v, t, x, env)| == |x|
  {
  }

  lemma BuffersCompare(a: seq<byte>, b: seq<byte>, s: seq<byte>, t: seq<byte>, size: nat)
    requires 0 !in a && 0 !in b
    requires if |a| == size then s == [] else |a| + 1 + |s| == size
    requires if |b| == size then t == [] else |b| + 1 + |t| == size
    ensures CompareBytes(Buffer(a, s, size), Buffer(b, t, size)) == Then(CompareBytes(a, b), CompareBytes(s, t))
  {
    EqualBytes(a, b);
    hide CompareBytes;
    if |a| < size && |b| < size {
      if a == b {
        SamePrefix(a + [0], s, t);
      } else {
        TerminatedStrings(a, b, s, t);
      }
    } else if |a| < size {
      FullString(b, a, s);
      CompareBytesFlip(b, a);
      CompareBytesFlip(b, a + [0] + s);
    } else if |b| < size {
      FullString(a, b, t);
    } else if a == b {
      SameBytes(s);
    }
  }

  // The trailer that is printed after a full string leaves the order as it is.
  lemma ShownStrings(v: Primitive, w: Primitive, t: SizedType, env: Env)
    requires IsString(t) && Storable(v, t, env) && Storable(w, t, env)
    ensures CompareBytes(Shown(v, t, env).bytes, Shown(w, t, env).bytes) == CompareBytes(v.bytes, w.bytes)
  {
    var a, b, n := v.bytes, w.bytes, t.bits / 8;
    if |a| == n && |b| == n {
      if a == b {
        SameBytes(a);
        SameBytes(a + env.trailer);
      } else {
        LongerDecides(a, b, env.trailer, env.trailer);
      }
    } else if |a| == n {
      LongerDecides(a, b, env.trailer, []);
      assert b + [] == b;
    } else if |b| == n {
      LongerDecides(b, a, env.trailer, []);
      assert a + [] == a;
      CompareBytesFlip(b, a);
      CompareBytesFlip(b + env.trailer, a);
    }
  }

  // What follows a string of the full length decides nothing.
  lemma {:induction false} LongerDecides(a: seq<byte>, b: seq<byte>, s: seq<byte>, t: seq<byte>)
    requires a != b && |b| <= |a| && (|b| < |a| ==> t == [])
    ensures CompareBytes(a + s, b + t) == CompareBytes(a, b)
  {
    if b == [] {
      assert b + t == [];
    } else {
      assert (a + s)[1..] == a[1..] + s && (b + t)[1..] == b[1..] + t;
      if a[0] == b[0] {
        assert a == [a[0]] + a[1..] && b == [b[0]] + b[1..];
        LongerDecides(a[1..], b[1..], s, t);
      }
    }
  }

  // The order of the strings is kept exactly when they differ or leave the same tails.
  lemma StoredStringsIff(v: Primitive, w: Primitive, t: SizedType, x: seq<byte>, y: seq<byte>, env: Env)
    requires IsString(t) && Storable(v, t, env) && Storable(w, t, env) && WellLaid(t) && |x| == |y| == Size(t)
    ensures CompareBytes(Store(v, t, x, env), Store(w, t, y, env)) == CompareBytes(v.bytes, w.bytes)
            <==> v.bytes != w.bytes || Tail(v, t, x, env) == Tail(w, t, y, env)
  {
    StoredStrings(v, w, t, x, y, env);
    EqualBytes(v.bytes, w.bytes);
    EqualBytes(Tail(v, t, x, env), Tail(w, t, y, env));
  }

  // Where a field of the tuple ends up in the key.
  lemma {:induction false} FieldStored(
      vs: seq<Primitive>, fs: seq<Field>, from: nat, size: int, before: seq<byte>, env: Env, k: nat)
    requires |vs| == |fs| && AllStorable(vs, fs, env) && AllWellLaid(fs)
    requires InOrder(fs, from, size) && from <= size == |before| && k < |fs|
    ensures var o, e := fs[k].offset, fs[k].offset + Size(fs[k].ty);
      && from <= o <= e <= size && Storable(vs[k], fs[k].ty, env) && WellLaid(fs[k].ty)
      && StoreFields(vs, fs, from, size, before, env)[o..e] == Store(vs[k], fs[k].ty, before[o..e], env)
    decreases |fs|
  {
    hide Store, Storable, WellLaid, Size, StoreFields;
    var e := fs[0].offset + Size(fs[0].ty);
    var placed := FirstStored(vs, fs, from, size, before, env);
    if k > 0 {
      FieldStored(vs[1..], fs[1..], e, size, placed, env, k - 1);
      SameSlice(placed, before, e, fs[k].offset, fs[k].offset + Size(fs[k].ty));
    }
  }

  lemma FirstStored(vs: seq<Primitive>, fs: seq<Field>, from: nat, size: int, before: seq<byte>, env: Env)
      returns (placed: seq<byte>)
    requires |vs| == |fs| > 0 && AllStorable(vs, fs, env) && AllWellLaid(fs)
    requires InOrder(fs, from, size) && from <= size == |before|
    ensures var o, e := fs[0].offset, fs[0].offset + Size(fs[0].ty);
      && from <= o <= e <= size == |placed| && placed[e..] == before[e..]
      && Storable(vs[0], fs[0].ty, env) && WellLaid(fs[0].ty)
      && StoreFields(vs, fs, from, size, before, env)[o..e] == Store(vs[0], fs[0].ty, before[o..e], env)
      && StoreFields(vs, fs, from, size, before, env) == StoreFields(vs[1..], fs[1..], e, size, placed, env)
  {
    hide Store, Storable, WellLaid, Size;
    var o, e := fs[0].offset, fs[0].offset + Size(fs[0].ty);
    placed := Splice(before, o, Store(vs[0], fs[0].ty, before[o..e], env));
    var buf := StoreFields(vs, fs, from, size, before, env);
    assert buf == StoreFields(vs[1..], fs[1..], e, size, placed, env);
    assert buf[o..e] == buf[..e][o..] == placed[..e][o..] == placed[o..e];
  }

  lemma SameSlice(a: seq<byte>, b: seq<byte>, e: nat, p: nat, q: nat)
    requires e <= p <= q <= |a| == |b| && a[e..] == b[e..]
    ensures a[p..q] == b[p..q]
  {
    forall i | p <= i < q ensures a[i] == b[i] {
      assert a[i] == a[e..][i - e] && b[i] == b[e..][i - e];
    }
  }

  // The slice of the key at the field holds the stored value.
  predicate HoldsAt(row: Row, f: Field, v: Primitive, before: seq<byte>, env: Env)
    requires Storable(v, f.ty, env) && WellLaid(f.ty) && |before| == Size(f.ty)
  {
    && 0 <= f.offset <= f.offset + Size(f.ty) <= |row.key|
    && row.key[f.offset..f.offset + Size(f.ty)] == Store(v, f.ty, before, env)
  }

  // How the tails of a string field compare; other fields have none.
  function CompareTails(t: SizedType, v: Primitive, w: Primitive, x: seq<byte>, y: seq<byte>, env: Env): Ordering
    requires Storable(v, t, env) && Storable(w, t, env) && |x| == |y| == Size(t)
  {
    if IsString(t) then CompareBytes(Tail(v, t, x, env), Tail(w, t, y, env)) else Equal
  }

  lemma NumbersCompare(
      f: Field, v: Primitive, w: Primitive, x: seq<byte>, y: seq<byte>, env: Env, a: Row, b: Row)
    requires IsInteger(f.ty) && Storable(v, f.ty, env) && Storable(w, f.ty, env) && WellLaid(f.ty)
    requires |x| == |y| == Size(f.ty) && HoldsAt(a, f, v, x, env) && HoldsAt(b, f, w, y, env)
    ensures Lexicographic(FieldOrder(f), a, b) == CompareValues(f.ty, v, w, env)
  {
    NumberAt(f, v, x, env, a);
    NumberAt(f, w, y, env, b);
    hide HoldsAt, Storable, WellLaid, SortNumber, SignedAt;
    OneField(IntAt(f.offset, f.ty.bits / 8), a, b);
    assert FieldOrder(f) == [IntAt(f.offset, f.ty.bits / 8)];
    hide Lexicographic;
  }

  lemma NumberAt(f: Field, v: Primitive, before: seq<byte>, env: Env, row: Row)
    requires IsInteger(f.ty) && Storable(v, f.ty, env) && WellLaid(f.ty)
    requires |before| == Size(f.ty) && HoldsAt(row, f, v, before, env)
    ensures SignedAt(row, f.offset, f.ty.bits / 8) == SortNumber(v, f.ty.bits / 8)
  {
    StoredNumber(v, f.ty, before, env);
    hide Store, FromLE, ToSigned, SortNumber;
    assert Part(row, f.offset, f.ty.bits / 8) == Store(v, f.ty, before, env);
  }

  lemma StringsCompare(
      f: Field, v: Primitive, w: Primitive, x: seq<byte>, y: seq<byte>, env: Env, a: Row, b: Row)
    requires IsString(f.ty) && Storable(v, f.ty, env) && Storable(w, f.ty, env) && WellLaid(f.ty)
    requires |x| == |y| == Size(f.ty) && HoldsAt(a, f, v, x, env) && HoldsAt(b, f, w, y, env)
    ensures Lexicographic(FieldOrder(f), a, b)
         == Then(CompareValues(f.ty, v, w, env), CompareTails(f.ty, v, w, x, y, env))
  {
    StringAt(f, v, x, env, a);
    StringAt(f, w, y, env, b);
    StoredStrings(v, w, f.ty, x, y, env);
    OneField(BytesAt(f.offset, Size(f.ty)), a, b);
    hide HoldsAt, Store, WellLaid, Storable, CompareBytes, Lexicographic, Tail, Part, Size;
  }

  lemma StringAt(f: Field, v: Primitive, before: seq<byte>, env: Env, row: Row)
    requires IsString(f.ty) && Storable(v, f.ty, env) && WellLaid(f.ty)
    requires |before| == Size(f.ty) && HoldsAt(row, f, v, before, env)
    ensures Part(row, f.offset, Size(f.ty)) == Store(v, f.ty, before, env)
  {
    hide Store, Storable, WellLaid;
  }

  lemma OthersCompare(f: Field, v: Primitive, w: Primitive, env: Env, a: Row, b: Row)
    requires !IsInteger(f.ty) && !IsString(f.ty) && Storable(v, f.ty, env) && Storable(w, f.ty, env)
    ensures Lexicographic(FieldOrder(f), a, b) == CompareValues(f.ty, v, w, env)
  {
  }

  // The sort fields of one field compare its values, and then the tails of its strings.
  lemma ValuesCompare(f: Field, v: Primitive, w: Primitive, x: seq<byte>, y: seq<byte>, env: Env, a: Row, b: Row)
    requires Storable(v, f.ty, env) && Storable(w, f.ty, env) && WellLaid(f.ty)
    requires |x| == |y| == Size(f.ty) && HoldsAt(a, f, v, x, env) && HoldsAt(b, f, w, y, env)
    ensures Lexicographic(FieldOrder(f), a, b)
         == Then(CompareValues(f.ty, v, w, env), CompareTails(f.ty, v, w, x, y, env))
  {
    if IsInteger(f.ty) {
      NumbersCompare(f, v, w, x, y, env, a, b);
    } else if IsString(f.ty) {
      StringsCompare(f, v, w, x, y, env, a, b);
    } else {
      OthersCompare(f, v, w, env, a, b);
    }
    hide Lexicographic, FieldOrder, CompareValues, Storable, WellLaid, HoldsAt, Tail;
  }

  // Tuples.  The unused bytes of the two keys are whatever they are: `x` and `y`.

  // The values and the unused bytes of a key of a given tuple type.
  datatype Content = Content(values: seq<Primitive>, unused: seq<byte>)

  predicate Fits(c: Content, fs: seq<Field>, size: int, env: Env) {
    && |c.values| == |fs| && AllStorable(c.values, fs, env) && AllWellLaid(fs)
    && InOrder(fs, 0, size) && 0 <= size == |c.unused|
  }

  // The unused bytes under a field.
  function Under(c: Content, f: Field, size: int): seq<byte>
    requires 0 <= f.offset <= f.offset + Size(f.ty) <= size == |c.unused|
  {
    c.unused[f.offset..f.offset + Size(f.ty)]
  }

  lemma FieldHeld(c: Content, fs: seq<Field>, size: int, env: Env, k: nat, row: Row)
    requires Fits(c, fs, size, env) && k < |fs|
    requires row.key == StoreFields(c.values, fs, 0, size, c.unused, env)
    ensures 0 <= fs[k].offset <= fs[k].offset + Size(fs[k].ty) <= size == |c.unused| && k < |c.values|
    ensures Storable(c.values[k], fs[k].ty, env) && WellLaid(fs[k].ty)
    ensures HoldsAt(row, fs[k], c.values[k], Under(c, fs[k], size), env)
  {
    hide StoreFields, Store, InOrder, AllStorable, AllWellLaid, Storable, WellLaid, Size;
    FieldStored(c.values, fs, 0, size, c.unused, env, k);
  }

  lemma FieldInside(c: Content, fs: seq<Field>, size: int, env: Env, k: nat)
    requires Fits(c, fs, size, env) && k < |fs|
    ensures 0 <= fs[k].offset <= fs[k].offset + Size(fs[k].ty) <= size == |c.unused| && k < |c.values|
    ensures Storable(c.values[k], fs[k].ty, env)
  {
    hide StoreFields, Store, InOrder, AllStorable, AllWellLaid, Storable, WellLaid, Size;
    FieldStored(c.values, fs, 0, size, c.unused, env, k);
  }

  // The order of the values of field k, and of the tails of its strings.
  ghost function FieldValues(c: Content, d: Content, fs: seq<Field>, size: int, env: Env, k: nat): Ordering
    requires Fits(c, fs, size, env) && Fits(d, fs, size, env) && k < |fs|
  {
    FieldInside(c, fs, size, env, k);
    FieldInside(d, fs, size, env, k);
    CompareValues(fs[k].ty, c.values[k], d.values[k], env)
  }

  ghost function FieldTails(c: Content, d: Content, fs: seq<Field>, size: int, env: Env, k: nat): Ordering
    requires Fits(c, fs, size, env) && Fits(d, fs, size, env) && k < |fs|
  {
    FieldInside(c, fs, size, env, k);
    FieldInside(d, fs, size, env, k);
    CompareTails(fs[k].ty, c.values[k], d.values[k], Under(c, fs[k], size), Under(d, fs[k], size), env)
  }

  // The order of the values from field k on, the first field first.
  ghost function CompareFrom(c: Content, d: Content, fs: seq<Field>, size: int, env: Env, k: nat): Ordering
    requires Fits(c, fs, size, env) && Fits(d, fs, size, env) && k <= |fs|
    decreases |fs| - k
  {
    if k == |fs| then Equal
    else Then(FieldValues(c, d, fs, size, env, k), CompareFrom(c, d, fs, size, env, k + 1))
  }

  // What the sorts compare from field k on: values, then tails, field by field.
  ghost function CompareStored(c: Content, d: Content, fs: seq<Field>, size: int, env: Env, k: nat): Ordering
    requires Fits(c, fs, size, env) && Fits(d, fs, size, env) && k <= |fs|
    decreases |fs| - k
  {
    if k == |fs| then Equal
    else Then(Then(FieldValues(c, d, fs, size, env, k), FieldTails(c, d, fs, size, env, k)),
              CompareStored(c, d, fs, size, env, k + 1))
  }

  lemma FieldCompares(c: Content, d: Content, fs: seq<Field>, size: int, env: Env, k: nat, a: Row, b: Row)
    requires Fits(c, fs, size, env) && Fits(d, fs, size, env) && k < |fs|
    requires a.key == StoreFields(c.values, fs, 0, size, c.unused, env)
    requires b.key == StoreFields(d.values, fs, 0, size, d.unused, env)
    ensures Lexicographic(FieldOrder(fs[k]), a, b)
         == Then(FieldValues(c, d, fs, size, env, k), FieldTails(c, d, fs, size, env, k))
  {
    hide Lexicographic, FieldOrder, StoreFields, Fits, CompareValues, CompareTails, Storable, WellLaid, HoldsAt, Size;
    FieldInside(c, fs, size, env, k);
    FieldHeld(c, fs, size, env, k, a);
    FieldHeld(d, fs, size, env, k, b);
    ValuesCompare(fs[k], c.values[k], d.values[k], Under(c, fs[k], size), Under(d, fs[k], size), env, a, b);
  }

  lemma {:induction false} TupleCompares(
      c: Content, d: Content, fs: seq<Field>, size: int, env: Env, k: nat, a: Row, b: Row)
    requires Fits(c, fs, size, env) && Fits(d, fs, size, env) && k <= |fs|
    requires a.key == StoreFields(c.values, fs, 0, size, c.unused, env)
    requires b.key == StoreFields(d.values, fs, 0, size, d.unused, env)
    ensures Lexicographic(TupleOrder(fs[k..]), a, b) == CompareStored(c, d, fs, size, env, k)
    decreases |fs| - k
  {
    hide StoreFields, Fits, FieldValues, FieldTails, FieldOrder;
    if k < |fs| {
      assert fs[k..][1..] == fs[k + 1..];
      FieldCompares(c, d, fs, size, env, k, a, b);
      TupleCompares(c, d, fs, size, env, k + 1, a, b);
      Joined(FieldOrder(fs[k]), TupleOrder(fs[k + 1..]), a, b);
    }
  }

  lemma {:induction false} Joined(fs: seq<SortField>, gs: seq<SortField>, a: Row, b: Row)
    ensures Lexicographic(fs + gs, a, b) == Then(Lexicographic(fs, a, b), Lexicographic(gs, a, b))
  {
    if fs == [] {
      assert fs + gs == gs;
    } else {
      assert (fs + gs)[1..] == fs[1..] + gs;
      Joined(fs[1..], gs, a, b);
    }
  }

  // Of the fields from k on, field j is the first in which the keys differ for the sorts, and it
  // holds the same string in both, with different bytes after the terminator.
  ghost predicate TailsFirst(c: Content, d: Content, fs: seq<Field>, size: int, env: Env, k: nat, j: nat)
    requires Fits(c, fs, size, env) && Fits(d, fs, size, env)
  {
    && k <= j < |fs|
    && (forall i :: k <= i < j ==> Tie(c, d, fs, size, env, i))
    && FieldValues(c, d, fs, size, env, j) == Equal && FieldTails(c, d, fs, size, env, j) != Equal
  }

  ghost predicate Tie(c: Content, d: Content, fs: seq<Field>, size: int, env: Env, i: nat)
    requires Fits(c, fs, size, env) && Fits(d, fs, size, env) && i < |fs|
  {
    FieldValues(c, d, fs, size, env, i) == Equal && FieldTails(c, d, fs, size, env, i) == Equal
  }

  // Then the values are compared by the fields after j, and the sorts go by the tails of field j.
  lemma {:induction false} TailsDecideFrom(
      c: Content, d: Content, fs: seq<Field>, size: int, env: Env, k: nat, j: nat)
    requires Fits(c, fs, size, env) && Fits(d, fs, size, env) && TailsFirst(c, d, fs, size, env, k, j)
    ensures CompareFrom(c, d, fs, size, env, k) == CompareFrom(c, d, fs, size, env, j + 1)
    ensures CompareStored(c, d, fs, size, env, k) == FieldTails(c, d, fs, size, env, j)
    decreases j - k
  {
    hide Fits, FieldValues, FieldTails;
    if k < j {
      assert Tie(c, d, fs, size, env, k);
      TailsDecideFrom(c, d, fs, size, env, k + 1, j);
    }
  }

  // Otherwise the sorts go by the values.
  lemma {:induction false} ValuesDecideFrom(c: Content, d: Content, fs: seq<Field>, size: int, env: Env, k: nat)
    requires Fits(c, fs, size, env) && Fits(d, fs, size, env) && k <= |fs|
    requires forall j: nat :: !TailsFirst(c, d, fs, size, env, k, j)
    ensures CompareStored(c, d, fs, size, env, k) == CompareFrom(c, d, fs, size, env, k)
    decreases |fs| - k
  {
    hide Fits, FieldValues, FieldTails;
    if k < |fs| {
      assert !TailsFirst(c, d, fs, size, env, k, k);
      if Tie(c, d, fs, size, env, k) {
        var n := k + 1;
        forall j: nat ensures !TailsFirst(c, d, fs, size, env, n, j) {
          assert !TailsFirst(c, d, fs, size, env, k, j);
        }
        ValuesDecideFrom(c, d, fs, size, env, k + 1);
      }
    }
  }

  // The sorts order two tuples as their values exactly when no string ties with different tails
  // before the keys differ, or its tails happen to be in the order of the fields that follow.
  lemma TupleComparesIff(c: Content, d: Content, fs: seq<Field>, size: int, env: Env, a: Row, b: Row)
    requires Fits(c, fs, size, env) && Fits(d, fs, size, env)
    requires a.key == StoreFields(c.values, fs, 0, size, c.unused, env)
    requires b.key == StoreFields(d.values, fs, 0, size, d.unused, env)
    ensures Lexicographic(TupleOrder(fs), a, b) == CompareFrom(c, d, fs, size, env, 0)
            <==> forall j: nat :: TailsFirst(c, d, fs, size, env, 0, j) ==>
                   FieldTails(c, d, fs, size, env, j) == CompareFrom(c, d, fs, size, env, j + 1)
  {
    TupleCompares(c, d, fs, size, env, 0, a, b);
    assert fs[0..] == fs;
    hide *;
    if j: nat :| TailsFirst(c, d, fs, size, env, 0, j) {
      TieComparesIff(c, d, fs, size, env, j);
    } else {
      ValuesDecideFrom(c, d, fs, size, env, 0);
    }
  }

  lemma TieComparesIff(c: Content, d: Content, fs: seq<Field>, size: int, env: Env, j: nat)
    requires Fits(c, fs, size, env) && Fits(d, fs, size, env) && TailsFirst(c, d, fs, size, env, 0, j)
    ensures CompareStored(c, d, fs, size, env, 0) == CompareFrom(c, d, fs, size, env, 0)
            <==> forall i: nat :: TailsFirst(c, d, fs, size, env, 0, i) ==>
                   FieldTails(c, d, fs, size, env, i) == CompareFrom(c, d, fs, size, env, i + 1)
  {
    TailsDecideFrom(c, d, fs, size, env, 0, j);
    hide *;
    forall i: nat | TailsFirst(c, d, fs, size, env, 0, i) ensures i == j {
      FirstIsOne(c, d, fs, size, env, i, j);
    }
  }

  lemma FirstIsOne(c: Content, d: Content, fs: seq<Field>, size: int, env: Env, i: nat, j: nat)
    requires Fits(c, fs, size, env) && Fits(d, fs, size, env)
    requires TailsFirst(c, d, fs, size, env, 0, i) && TailsFirst(c, d, fs, size, env, 0, j)
    ensures i == j
  {
    hide Fits, FieldValues, FieldTails;
    if i < j {
      TieBefore(c, d, fs, size, env, i, j);
    } else if j < i {
      TieBefore(c, d, fs, size, env, j, i);
    }
  }

  lemma TieBefore(c: Content, d: Content, fs: seq<Field>, size: int, env: Env, i: nat, j: nat)
    requires Fits(c, fs, size, env) && Fits(d, fs, size, env)
    requires i < j && TailsFirst(c, d, fs, size, env, 0, j)
    ensures i < |fs| && FieldTails(c, d, fs, size, env, i) == Equal
  {
    hide Fits, FieldValues, FieldTails;
    assert Tie(c, d, fs, size, env, i);
  }

  // The key holds a value of the key type; `unused` is what its other bytes hold.
  predicate Encodes(key: seq<byte>, t: SizedType, value: Primitive, unused: seq<byte>, env: Env) {
    && WellLaid(t) && Storable(value, t, env) && |unused| == Size(t)
    && key == Store(value, t, unused, env)
  }

  predicate EncodesTuple(key: seq<byte>, t: SizedType, c: Content, env: Env) {
    t.Tuple? && Encodes(key, t, TupleOf(c.values), c.unused, env)
  }

  lemma EncodedFits(key: seq<byte>, t: SizedType, c: Content, env: Env)
    requires EncodesTuple(key, t, c, env)
    ensures Fits(c, t.inner.fields, t.inner.size, env)
    ensures key == StoreFields(c.values, t.inner.fields, 0, t.inner.size, c.unused, env)
  {
    hide StoreFields;
  }

  // Main result: of two tuple keys in sorted order, the values are in descending order exactly when
  // the keys first differ after the terminator of a string that is the same in both, and the
  // values of the fields after it descend.
  lemma SortedByValues(t: SizedType, rows: seq<Row>, i: nat, j: nat, c: Content, d: Content, env: Env)
    requires i < j < |rows| && Sorted(KeyOrder(t), rows)
    requires EncodesTuple(rows[i].key, t, c, env) && EncodesTuple(rows[j].key, t, d, env)
    ensures var fs, size := t.inner.fields, t.inner.size;
      && Fits(c, fs, size, env) && Fits(d, fs, size, env)
      && (CompareFrom(c, d, fs, size, env, 0) == Greater
          <==> exists f: nat :: TailsFirst(c, d, fs, size, env, 0, f) && CompareFrom(c, d, fs, size, env, f + 1) == Greater)
  {
    var fs, size := t.inner.fields, t.inner.size;
    EncodedFits(rows[i].key, t, c, env);
    EncodedFits(rows[j].key, t, d, env);
    assert fs[0..] == fs && Lexicographic(KeyOrder(t), rows[i], rows[j]) != Greater;
    assert KeyOrder(t) == TupleOrder(fs);
    hide EncodesTuple, Fits, StoreFields, CompareFrom, CompareStored, Lexicographic, TupleOrder, TailsFirst;
    TupleCompares(c, d, fs, size, env, 0, rows[i], rows[j]);
    DescendIff(c, d, fs, size, env);
  }

  lemma DescendIff(c: Content, d: Content, fs: seq<Field>, size: int, env: Env)
    requires Fits(c, fs, size, env) && Fits(d, fs, size, env) && CompareStored(c, d, fs, size, env, 0) != Greater
    ensures CompareFrom(c, d, fs, size, env, 0) == Greater
            <==> exists f: nat :: TailsFirst(c, d, fs, size, env, 0, f) && CompareFrom(c, d, fs, size, env, f + 1) == Greater
  {
    hide Fits, CompareFrom, CompareStored;
    if f: nat :| TailsFirst(c, d, fs, size, env, 0, f) {
      TailsDecideFrom(c, d, fs, size, env, 0, f);
      forall g: nat | TailsFirst(c, d, fs, size, env, 0, g) ensures g == f {
        FirstIsOne(c, d, fs, size, env, g, f);
      }
    } else {
      ValuesDecideFrom(c, d, fs, size, env, 0);
    }
  }

  // A single integer or string always comes out in the order of the values, whatever the unused
  // bytes hold.
  lemma SortedBySingleValue(
      t: SizedType, rows: seq<Row>, i: nat, j: nat, v: Primitive, w: Primitive, x: seq<byte>, y: seq<byte>, env: Env)
    requires i < j < |rows| && Sorted(KeyOrder(t), rows) && (IsInteger(t) || IsString(t))
    requires Encodes(rows[i].key, t, v, x, env) && Encodes(rows[j].key, t, w, y, env)
    ensures CompareValues(t, v, w, env) != Greater
  {
    assert Lexicographic(KeyOrder(t), rows[i], rows[j]) != Greater;
    if IsInteger(t) {
      StoredNumber(v, t, x, env);
      StoredNumber(w, t, y, env);
      hide Store, FromLE, ToSigned, SortNumber;
      assert Part(rows[i], 0, t.bits / 8) == rows[i].key && Part(rows[j], 0, t.bits / 8) == rows[j].key;
      OneField(IntAt(0, t.bits / 8), rows[i], rows[j]);
    } else {
      StoredStrings(v, w, t, x, y, env);
      OneField(WholeKey, rows[i], rows[j]);
      hide Store, CompareBytes, Tail;
    }
  }

  // A failing pair: ("A", 2) over zeros and ("A", 1) over bytes of 255.  The tails decide, so the
  // rows are in sorted order although the second components descend.

  const PAIR: seq<Field> := [Field("", CreateString(3), 0), Field("", CreateInteger(8, false), 3)]

  const PLAIN: Env := Env([], map[])

  function Pair(n: nat, filler: byte): Content {
    Content([Str([65]), UInt(n)], [filler, filler, filler, filler])
  }

  lemma PoisonedTailBreaksOrder()
    ensures Fits(Pair(2, 0), PAIR, 4, PLAIN) && Fits(Pair(1, 255), PAIR, 4, PLAIN)
    ensures var a, b := Row(StoreFields(Pair(2, 0).values, PAIR, 0, 4, Pair(2, 0).unused, PLAIN), []),
                        Row(StoreFields(Pair(1, 255).values, PAIR, 0, 4, Pair(1, 255).unused, PLAIN), []);
      Lexicographic(TupleOrder(PAIR), a, b) == Less
    ensures CompareFrom(Pair(2, 0), Pair(1, 255), PAIR, 4, PLAIN, 0) == Greater
  {
    var c, d := Pair(2, 0), Pair(1, 255);
    PairFits(2, 0);
    PairFits(1, 255);
    PoisonedString();
    DescendingNumber();
    hide Fits, FieldValues, FieldTails, StoreFields, TupleOrder, Lexicographic;
    assert CompareFrom(c, d, PAIR, 4, PLAIN, 2) == Equal;
    assert CompareFrom(c, d, PAIR, 4, PLAIN, 1) == Greater;
    var a := Row(StoreFields(c.values, PAIR, 0, 4, c.unused, PLAIN), []);
    var b := Row(StoreFields(d.values, PAIR, 0, 4, d.unused, PLAIN), []);
    TupleCompares(c, d, PAIR, 4, PLAIN, 0, a, b);
    assert PAIR[0..] == PAIR;
  }

  lemma PoisonedString()
    ensures Fits(Pair(2, 0), PAIR, 4, PLAIN) && Fits(Pair(1, 255), PAIR, 4, PLAIN)
    ensures FieldValues(Pair(2, 0), Pair(1, 255), PAIR, 4, PLAIN, 0) == Equal
    ensures FieldTails(Pair(2, 0), Pair(1, 255), PAIR, 4, PLAIN, 0) == Less
  {
    PairFits(2, 0);
    PairFits(1, 255);
    hide Fits;
    PoisonedTails();
    assert FieldValues(Pair(2, 0), Pair(1, 255), PAIR, 4, PLAIN, 0) == Equal by {
      hide FieldTails;
      EqualBytes([65], [65]);
      hide CompareBytes;
    }
  }

  lemma PoisonedTails()
    requires Fits(Pair(2, 0), PAIR, 4, PLAIN) && Fits(Pair(1, 255), PAIR, 4, PLAIN)
    ensures FieldTails(Pair(2, 0), Pair(1, 255), PAIR, 4, PLAIN, 0) == Less
  {
    hide Fits, FieldValues;
    assert Under(Pair(2, 0), PAIR[0], 4) == [0, 0, 0] && Under(Pair(1, 255), PAIR[0], 4) == [255, 255, 255];
    assert [0, 0, 0][2..] == [0] && [255, 255, 255][2..] == [255];
    assert CompareBytes([0], [255]) == Less;
    hide CompareBytes;
  }

  lemma DescendingNumber()
    ensures Fits(Pair(2, 0), PAIR, 4, PLAIN) && Fits(Pair(1, 255), PAIR, 4, PLAIN)
    ensures FieldValues(Pair(2, 0), Pair(1, 255), PAIR, 4, PLAIN, 1) == Greater
  {
    PairFits(2, 0);
    PairFits(1, 255);
    hide Fits;
    assert Range(0) == 1 && Range(1) == 256;
  }

  lemma PairFits(n: nat, filler: byte)
    requires n < 3
    ensures Fits(Pair(n, filler), PAIR, 4, PLAIN)
  {
    var c := Pair(n, filler);
    assert PAIR[1..] == [Field("", CreateInteger(8, false), 3)] && PAIR[1..][1..] == [];
    assert c.values[1..] == [UInt(n)] && c.values[1..][1..] == [];
    assert Range(0) == 1 && Range(1) == 256;
    assert Storable(Str([65]), CreateString(3), PLAIN) && Storable(UInt(n), CreateInteger(8, false), PLAIN);
    assert WellLaid(CreateString(3)) && WellLaid(CreateInteger(8, false));
    assert AllStorable(c.values[1..], PAIR[1..], PLAIN) && AllWellLaid(PAIR[1..]);
    assert InOrder(PAIR[1..], 3, 4) && InOrder(PAIR, 0, 4);
  }
}
