/**
 What imported numbers mean for memory: formatting the bytes of a value at the imported type shows the
 value that the debug information declares (src/btf.cpp:415-469 with src/types_format.cpp:145-207).
 */
module DeclaredValues {
  import opened Prelude
  import opened Bytes
  import opened Numerals
  import opened TypeGraph
  import opened RecordFields
  import opened DeclaredTypes
  import S = SizedTypes
  import C = Codec
  import PerProcessor
  import RoundTrip

  // The imported type as the formatter sees it; a record's fields are looked up separately.
  function AsSized(t: SType): S.SizedType {
    match t
    case Nothing => S.Scalar(S.NoneTy, 0, false, "")
    case Bool => S.Scalar(S.BooleanTy, 8, false, "")
    case Integer(bits, signed) => S.CreateInteger(bits, signed)
    case Rec(name, size) => S.Record(name, S.Struct(size, 1, false, []))
    case Pointer(target, _) => S.Pointer(AsSized(target))
    case Array(count, elem) => S.Array(count, AsSized(elem))
    case Str(size) => S.CreateString(size)
  }

  // Numbers in memory.

  // Least significant byte first.
  function Unsigned(bs: seq<byte>): nat {
    if bs == [] then 0 else bs[0] + 256 * Unsigned(bs[1..])
  }

  // Two's complement: the highest bit of the last byte is the sign.
  function TwosComplement(bs: seq<byte>): int
    requires IsNumberSize(|bs|)
  {
    if bs[|bs| - 1] >= 128 then Unsigned(bs) - CountOfValues(|bs|) else Unsigned(bs)
  }

  function NumberIn(bs: seq<byte>, signed: bool): C.Primitive
    requires IsNumberSize(|bs|)
  {
    if signed then C.Int(TwosComplement(bs)) else C.UInt(Unsigned(bs))
  }

  lemma {:induction false} UnsignedIsLE(bs: seq<byte>)
    ensures Unsigned(bs) == FromLE(bs)
    ensures bs != [] ==> (2 * FromLE(bs) < Range(|bs|) <==> bs[|bs| - 1] < 128)
  {
    if |bs| == 1 {
      assert bs[1..] == [];
      assert FromLE(bs[1..]) == 0 && Range(1) == 256;
    } else if bs != [] {
      UnsignedIsLE(bs[1..]);
    }
  }

  // Formatting an integer of the imported type.
  lemma NumberFormatted(bs: seq<byte>, signed: bool, env: C.Env)
    requires IsNumberSize(|bs|)
    ensures C.Format(S.CreateInteger(8 * |bs|, signed), bs, 1, env) == Ok(NumberIn(bs, signed))
  {
    hide Range, FromLE, Unsigned, C.Format, C.Reduce;
    var n := |bs|;
    PerProcessor.IntegerFormatted(S.CreateInteger(8 * n, signed), bs, 1, env);
    UnsignedIsLE(bs);
    CountIsRange(n);
    RoundTrip.ReduceOne(bs, n);
    if signed {
      RoundTrip.DivideByOne(n, ToSigned(n, FromLE(bs)));
    } else {
      assert FromLE(bs) / 1 == FromLE(bs);
    }
  }

  // Values in memory.

  // Types of numbers, booleans, pointers, and arrays of such, behind at most k qualifiers and arrays.
  // An array of single bytes is a string.
  predicate IsPlain(g: Graph, k: nat, id: Id)
    decreases k
  {
    k > 0 && id in g.types &&
    match g.types[id]
    case Int(bits, _, isBool) => if isBool then bits == 8 else bits in {8, 16, 32, 64}
    case Enum(size) => IsNumberSize(size)
    case Ptr(_) => true
    case Arr(elem, _) => IsPlain(g, k - 1, elem) && !IsByteSized(g, k - 1, elem)
    case Modifier(target) => IsPlain(g, k - 1, target)
    case Composite(_, _, _, _) => false
    case TypeTag(_, _) => false
    case Other => false
  }

  predicate IsByteSized(g: Graph, k: nat, id: Id)
    decreases k
  {
    k > 0 && id in g.types &&
    match g.types[id]
    case Int(bits, _, isBool) => !isBool && bits == 8
    case Enum(size) => size == 1
    case Modifier(target) => IsByteSized(g, k - 1, target)
    case Composite(_, _, _, _) => false
    case Ptr(_) => false
    case Arr(_, _) => false
    case TypeTag(_, _) => false
    case Other => false
  }

  function PlainSize(g: Graph, k: nat, id: Id): nat
    requires IsPlain(g, k, id)
    decreases k
  {
    match g.types[id]
    case Int(bits, _, _) => bits / 8
    case Enum(size) => size
    case Ptr(_) => 8
    case Arr(elem, count) => count * PlainSize(g, k - 1, elem)
    case Modifier(target) => PlainSize(g, k - 1, target)
  }

  // The value that the debug information declares.
  function Declared(g: Graph, k: nat, id: Id, mem: seq<byte>): C.Primitive
    requires IsPlain(g, k, id) && |mem| == PlainSize(g, k, id)
    decreases k, 0
  {
    match g.types[id]
    case Int(bits, signed, isBool) => if isBool then C.Bool(mem[0] != 0) else NumberIn(mem, signed)
    case Enum(_) => NumberIn(mem, false)
    case Ptr(_) => C.Symbolic("0x" + Numeral(Unsigned(mem), 16), Unsigned(mem))
    case Arr(elem, count) => C.ArrayOf(DeclaredElements(g, k - 1, elem, count, mem))
    case Modifier(target) => Declared(g, k - 1, target, mem)
  }

  // Elements lie one after the other.
  function DeclaredElements(g: Graph, k: nat, elem: Id, count: nat, mem: seq<byte>): seq<C.Primitive>
    requires IsPlain(g, k, elem) && |mem| == count * PlainSize(g, k, elem)
    decreases k, 1, count
  {
    if count == 0 then []
    else
      var n := PlainSize(g, k, elem);
      assert count * n == n + (count - 1) * n;
      [Declared(g, k, elem, mem[..n])] + DeclaredElements(g, k, elem, count - 1, mem[n..])
  }

  // The right type for a qualified type is the one for what it qualifies.
  lemma BehindModifier(g: Graph, id: Id, t: SType, table: Table)
    requires Describes(g, id, t, table)
    ensures if id in g.types && g.types[id].Modifier? then Describes(g, g.types[id].target, t, table)
            else DescribesBare(g, id, t, table)
  {
    hide DescribesBare;
    var path, end :| IsBehind(g, id, path, end) && DescribesBare(g, end, t, table);
    if path != [] {
      assert IsBehind(g, path[0], path[1..], end);
    }
  }

  // A right type for a number of one byte is one.
  lemma {:induction false} ByteElement(g: Graph, k: nat, id: Id, path: seq<Id>, end: Id, bits: nat, signed: bool)
    requires IsPlain(g, k, id) && IsBehind(g, id, path, end) && IsByteNumber(g, end, bits, signed)
    ensures IsByteSized(g, k, id)
    decreases k
  {
    if path != [] {
      ByteElement(g, k - 1, path[0], path[1..], end, bits, signed);
    }
  }

  // Main result: formatting the bytes of a plain value at its imported type shows the declared value.
  lemma {:induction false} ImportedValue(g: Graph, k: nat, id: Id, t: SType, table: Table, mem: seq<byte>, env: C.Env)
    requires Describes(g, id, t, table) && IsPlain(g, k, id) && |mem| == PlainSize(g, k, id)
    ensures C.Decodable(AsSized(t)) && S.Size(AsSized(t)) == |mem|
    ensures C.Format(AsSized(t), mem, 1, env) == Ok(Declared(g, k, id, mem))
    decreases k, 1
  {
    BehindModifier(g, id, t, table);
    if g.types[id].Modifier? {
      ImportedValue(g, k - 1, g.types[id].target, t, table, mem, env);
    } else if g.types[id].Arr? {
      ArrayValue(g, k, id, t, table, mem, env);
    } else if g.types[id].Ptr? {
      assert mem[..8] == mem;
      UnsignedIsLE(mem);
    } else if t.Integer? {
      NumberFormatted(mem, t.signed, env);
    } else {
      assert t == Bool;
    }
  }

  lemma {:induction false} ArrayValue(g: Graph, k: nat, id: Id, t: SType, table: Table, mem: seq<byte>, env: C.Env)
    requires IsPlain(g, k, id) && g.types[id].Arr? && DescribesBare(g, id, t, table) && |mem| == PlainSize(g, k, id)
    ensures C.Decodable(AsSized(t)) && S.Size(AsSized(t)) == |mem|
    ensures C.Format(AsSized(t), mem, 1, env) == Ok(Declared(g, k, id, mem))
    decreases k, 0
  {
    hide Describes, IsByteSized;
    var elem, count := g.types[id].elem, g.types[id].count;
    ArrayNotString(g, k, id, t, table);
    var n := PlainSize(g, k - 1, elem);
    ImportedValue(g, k - 1, elem, t.elem, table, seq(n, _ => 0), env);
    assert count * n - 0 * n == |mem[0 * n..]| && mem[0 * n..] == mem;
    ElementsValue(g, k - 1, elem, t.elem, table, count, 0, mem, env);
  }

  lemma ArrayNotString(g: Graph, k: nat, id: Id, t: SType, table: Table)
    requires IsPlain(g, k, id) && g.types[id].Arr? && DescribesBare(g, id, t, table)
    ensures t.Array? && t.count == g.types[id].count && Describes(g, g.types[id].elem, t.elem, table)
  {
    hide Describes;
    if t.Str? {
      var path, end, bits, signed :| IsBehind(g, g.types[id].elem, path, end) && IsByteNumber(g, end, bits, signed);
      ByteElement(g, k - 1, g.types[id].elem, path, end, bits, signed);
    }
  }

  lemma {:induction false} ElementsValue(g: Graph, k: nat, elem: Id, t: SType, table: Table, count: nat, i: nat,
                                         mem: seq<byte>, env: C.Env)
    requires IsPlain(g, k, elem) && Describes(g, elem, t, table) && C.Decodable(AsSized(t)) && i <= count
    requires S.Size(AsSized(t)) == PlainSize(g, k, elem) && |mem| == count * PlainSize(g, k, elem)
    requires 0 <= i * PlainSize(g, k, elem) <= |mem|
    requires |mem[i * PlainSize(g, k, elem)..]| == (count - i) * PlainSize(g, k, elem)
    ensures C.FormatElements(AsSized(t), mem, i, count, 1, env)
         == Ok(DeclaredElements(g, k, elem, count - i, mem[i * PlainSize(g, k, elem)..]))
    decreases k, 2, count - i
  {
    hide Describes, C.Format, S.Size, IsPlain, AsSized, Declared;
    if i < count {
      var n := PlainSize(g, k, elem);
      RoundTrip.ElementBounds(n, i, count);
      var rest := mem[i * n..];
      ImportedValue(g, k, elem, t, table, rest[..n], env);
      assert rest[..n] == mem[i * n..i * n + n] && rest[n..] == mem[(i + 1) * n..];
      ElementsValue(g, k, elem, t, table, count, i + 1, mem, env);
    }
  }
}
