/**
 What imported records mean for memory: where a field's bits are, and how large an imported type is
 (src/btf.cpp:415-469, 1149-1197 with src/struct.cpp:14-48).
 */
module ImportedLayout {
  import opened Prelude
  import opened Arithmetic
  import opened Bytes
  import opened TypeGraph
  import opened RecordFields
  import opened FlattenedFields
  import B = Bitfields

  // The bit offset of the member at the end of the path, from the start of the outer composite.
  function BitPosition(g: Graph, id: Id, path: seq<nat>): nat
    requires Follow(g, id, 0, path).Some?
    decreases path
  {
    var m := g.types[id].members[path[0]];
    if LeadsInside(g, m) then
      FollowStart(g, m.ty, m.bitOffset / 8, 0, path[1..]);
      m.bitOffset + BitPosition(g, m.ty, path[1..])
    else m.bitOffset
  }

  // The anonymous composites on the path start at whole bytes, as the C standard has it.
  predicate WholeBytes(g: Graph, id: Id, path: seq<nat>)
    requires Follow(g, id, 0, path).Some?
    decreases path
  {
    var m := g.types[id].members[path[0]];
    LeadsInside(g, m) ==>
      m.bitOffset % 8 == 0 && (FollowStart(g, m.ty, m.bitOffset / 8, 0, path[1..]); WholeBytes(g, m.ty, path[1..]))
  }

  // The start of the composite shifts the field and changes nothing else.
  lemma {:induction false} FollowStart(g: Graph, id: Id, start: nat, other: nat, path: seq<nat>)
    ensures Follow(g, id, start, path).Some? <==> Follow(g, id, other, path).Some?
    ensures Follow(g, id, start, path).Some? ==>
      var f, h := Follow(g, id, start, path).value, Follow(g, id, other, path).value;
      f.offset - start == h.offset - other && h == f.(offset := h.offset)
    decreases path
  {
    if IsComposite(g, id) && path != [] && path[0] < |g.types[id].members| {
      var m := g.types[id].members[path[0]];
      if LeadsInside(g, m) {
        FollowStart(g, m.ty, start + m.bitOffset / 8, other + m.bitOffset / 8, path[1..]);
      }
    }
  }

  // The last member of the path.
  function LastMember(g: Graph, id: Id, path: seq<nat>): Member
    requires Follow(g, id, 0, path).Some?
    decreases path
  {
    var m := g.types[id].members[path[0]];
    if LeadsInside(g, m) then (FollowStart(g, m.ty, m.bitOffset / 8, 0, path[1..]); LastMember(g, m.ty, path[1..])) else m
  }

  // The field is the last member of the path: byte offset and bit offset together are its bit position
  // in the outer record, and name, type and width are those of the member.
  lemma {:induction false} FieldPosition(g: Graph, id: Id, path: seq<nat>)
    requires Follow(g, id, 0, path).Some? && WholeBytes(g, id, path)
    ensures var f, m := Follow(g, id, 0, path).value, LastMember(g, id, path);
      && f.name == m.name && f.ty == m.ty && (f.bitfield == None <==> m.bitfieldSize == 0)
      && f.offset == BitPosition(g, id, path) / 8
      && (f.bitfield.Some? ==> f.bitfield.value == (BitPosition(g, id, path) % 8, m.bitfieldSize))
    decreases path
  {
    var m := g.types[id].members[path[0]];
    if LeadsInside(g, m) {
      FollowStart(g, m.ty, m.bitOffset / 8, 0, path[1..]);
      FieldPosition(g, m.ty, path[1..]);
    }
  }

  // Reading an imported bitfield reads the bits of the outermost record at the sum of the bit
  // offsets along the anonymous path.
  lemma ImportedBitfieldReads(g: Graph, id: Id, path: seq<nat>, mem: seq<byte>)
    requires Follow(g, id, 0, path).Some? && WholeBytes(g, id, path)
    requires Follow(g, id, 0, path).value.bitfield.Some?
    requires var f := Follow(g, id, 0, path).value;
      f.offset + B.MakeBitfield(f.bitfield.value.0, f.bitfield.value.1).readBytes <= |mem|
    ensures var f := Follow(g, id, 0, path).value;
      B.Extract(B.MakeBitfield(f.bitfield.value.0, f.bitfield.value.1), mem, f.offset)
      == B.StructBits(mem, BitPosition(g, id, path), B.ClipWidth(LastMember(g, id, path).bitfieldSize))
  {
    var f := Follow(g, id, 0, path).value;
    FieldPosition(g, id, path);
    hide Follow, BitPosition, LastMember, B.MakeBitfield, B.Extract, B.StructBits;
    B.ExtractIsStructBits(f.bitfield.value.0, f.bitfield.value.1, mem, f.offset);
    assert 8 * f.offset + f.bitfield.value.0 == BitPosition(g, id, path);
  }

  // Sizes.

  // Bytes of an imported type.
  function ByteSize(t: SType): nat {
    match t
    case Nothing => 0
    case Bool => 1
    case Integer(bits, _) => bits / 8
    case Rec(_, size) => size
    case Pointer(_, _) => 8
    case Array(count, elem) => count * ByteSize(elem)
    case Str(size) => size
  }

  // Types that the import knows, with integers of whole bytes, behind at most k modifiers and arrays.
  predicate Known(g: Graph, k: nat, id: Id)
    decreases k
  {
    k > 0 && id in g.types &&
    match g.types[id]
    case Int(bits, _, isBool) => bits % 8 == 0 && (isBool ==> bits == 8)
    case Enum(_) => true
    case Composite(_, name, _, _) => !Anonymous(name)
    case Ptr(_) => true
    case Arr(elem, _) => Known(g, k - 1, elem)
    case Modifier(target) => Known(g, k - 1, target)
    case TypeTag(_, _) => false
    case Other => false
  }

  // Bytes of the type in memory, as the debug information has it.
  function DeclaredSize(g: Graph, k: nat, id: Id): nat
    requires Known(g, k, id)
    decreases k
  {
    match g.types[id]
    case Int(bits, _, _) => bits / 8
    case Enum(size) => size
    case Composite(_, _, size, _) => size
    case Ptr(_) => 8
    case Arr(elem, count) => count * DeclaredSize(g, k - 1, elem)
    case Modifier(target) => DeclaredSize(g, k - 1, target)
  }

  // Integers wider than 64 bits, arrays of bytes, non-empty arrays of either, and records whose
  // name is in the table with another size.
  predicate Resized(g: Graph, k: nat, id: Id, table: Table)
    requires Known(g, k, id)
    decreases k
  {
    match g.types[id]
    case Int(bits, _, isBool) => !isBool && bits > 64
    case Enum(size) => size > 8
    case Composite(isStruct, name, size, _) =>
      RecordName(isStruct, name) in table && table[RecordName(isStruct, name)].size != size
    case Ptr(_) => false
    case Arr(elem, count) => OneByte(g, k - 1, elem) || (count > 0 && Resized(g, k - 1, elem, table))
    case Modifier(target) => Resized(g, k - 1, target, table)
  }

  predicate OneByte(g: Graph, k: nat, id: Id)
    decreases k
  {
    k > 0 && id in g.types &&
    var t := g.types[id];
    || (t.Int? && !t.isBool && t.bits / 8 == 1) || (t.Enum? && t.size == 1)
    || (t.Modifier? && OneByte(g, k - 1, t.target))
  }

  // The imported type has its declared size exactly when nothing in it is resized: an array of
  // bytes becomes a string with room for a terminator, which every enclosing array multiplies.
  lemma {:induction false} SizeKeptIff(g: Graph, k: nat, id: Id, table: Table)
    requires Known(g, k, id) && TypeOf(g, k, id, table).Some?
    ensures ByteSize(TypeOf(g, k, id, table).value) == DeclaredSize(g, k, id) <==> !Resized(g, k, id, table)
    ensures TypeOf(g, k, id, table).value.Integer? && ByteSize(TypeOf(g, k, id, table).value) == 1
            <==> OneByte(g, k, id)
    ensures OneByte(g, k, id) ==> DeclaredSize(g, k, id) == 1
    decreases k
  {
    if g.types[id].Arr? {
      var elem, count := g.types[id].elem, g.types[id].count;
      SizeKeptIff(g, k - 1, elem, table);
      SameProduct(count, ByteSize(TypeOf(g, k - 1, elem, table).value), DeclaredSize(g, k - 1, elem));
    } else if g.types[id].Modifier? {
      SizeKeptIff(g, k - 1, g.types[id].target, table);
    } else if g.types[id].Ptr? {
      TagsKeepPointer(g, k - 1, g.types[id].target, {}, table);
    }
  }

  lemma {:induction false} TagsKeepPointer(g: Graph, k: nat, id: Id, tags: set<string>, table: Table)
    requires PointerTo(g, k, id, tags, table).Some?
    ensures PointerTo(g, k, id, tags, table).value.Pointer?
    decreases k
  {
    if id in g.types && g.types[id].TypeTag? {
      TagsKeepPointer(g, k - 1, g.types[id].target, tags + {g.types[id].tag}, table);
    }
  }

  lemma SameProduct(n: nat, a: nat, b: nat)
    ensures n * a == n * b <==> n == 0 || a == b
  {
    if a < b {
      MulLeq(n, a + 1, b);
    } else if b < a {
      MulLeq(n, b + 1, a);
    }
  }

  // A `char[2][4]` takes 8 bytes, and is imported as two strings of 5.
  function CharMatrix(): Graph {
    Graph(map[1 := Int(8, true, false), 2 := Arr(1, 4), 3 := Arr(2, 2)], map[], map[])
  }

  lemma CharMatrixGrows(k: nat)
    requires k >= 3
    ensures TypeOf(CharMatrix(), k, 3, map[]) == Some(Array(2, Str(5)))
    ensures Known(CharMatrix(), k, 3) && DeclaredSize(CharMatrix(), k, 3) == 8
  {
    var g := CharMatrix();
    assert TypeOf(g, k - 2, 1, map[]) == Some(Integer(8, true));
    assert TypeOf(g, k - 1, 2, map[]) == Some(Str(5));
    assert Known(g, k - 2, 1) && DeclaredSize(g, k - 2, 1) == 1;
    assert Known(g, k - 1, 2) && DeclaredSize(g, k - 1, 2) == 4 * 1;
  }
}
