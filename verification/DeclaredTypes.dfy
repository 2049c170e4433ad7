/**
 What an imported type says of the type in the debug information, as a relation between the two
 (src/btf.cpp:415-469): kinds, widths, signs, counts, tags and names.
 */
module DeclaredTypes {
  import opened TypeGraph
  import opened RecordFields

  // `end` is what typedefs and qualifiers on `id` stand for.
  predicate IsBehind(g: Graph, id: Id, path: seq<Id>, end: Id)
    decreases path
  {
    if path == [] then end == id && !(id in g.types && g.types[id].Modifier?)
    else id in g.types && g.types[id] == Modifier(path[0]) && IsBehind(g, path[0], path[1..], end)
  }

  // `tags` are the type tags on `id`, and `end` is the type that they apply to.
  ghost predicate IsTagged(g: Graph, id: Id, path: seq<Id>, tags: set<string>, end: Id)
    decreases path
  {
    if path == [] then end == id && tags == {} && !(id in g.types && g.types[id].TypeTag?)
    else
      && id in g.types && g.types[id].TypeTag? && g.types[id].target == path[0] && g.types[id].tag in tags
      && exists rest :: IsTagged(g, path[0], path[1..], rest, end) && tags == rest + {g.types[id].tag}
  }

  // The import knows integers of up to 64 bits.
  predicate IsWidth(bits: nat, declared: nat) {
    (declared <= 64 && bits == declared) || (declared > 64 && bits == 64)
  }

  predicate IsNumber(t: BtfType, bits: nat, signed: bool) {
    match t
    case Int(declared, isSigned, isBool) => !isBool && signed == isSigned && IsWidth(bits, declared)
    case Enum(size) => !signed && IsWidth(bits, 8 * size)
    case Composite(_, _, _, _) => false
    case Ptr(_) => false
    case Arr(_, _) => false
    case Modifier(_) => false
    case TypeTag(_, _) => false
    case Other => false
  }

  predicate IsRecord(t: BtfType, name: string, size: nat, table: Table) {
    && t.Composite? && t.name != "" && t.name != "(anon)"
    && name == (if t.isStruct then "struct " + t.name else "union " + t.name)
    && size == (if name in table then table[name].size else t.size)
  }

  // The import has nothing to say: a missing type, a composite without a name, a type tag outside of
  // a pointer, or a kind that it does not know.
  predicate IsNothing(g: Graph, id: Id) {
    id in g.types ==>
      match g.types[id]
      case Composite(_, name, _, _) => name == "" || name == "(anon)"
      case TypeTag(_, _) => true
      case Other => true
      case Int(_, _, _) => false
      case Enum(_) => false
      case Ptr(_) => false
      case Arr(_, _) => false
      case Modifier(_) => false
  }

  predicate IsByte(t: SType) {
    t.Integer? && 8 <= t.bits < 16
  }

  // The imported type t is right for the declared type.
  ghost predicate Describes(g: Graph, id: Id, t: SType, table: Table)
    decreases t, 1
  {
    exists path, end :: IsBehind(g, id, path, end) && DescribesBare(g, end, t, table)
  }

  ghost predicate DescribesBare(g: Graph, id: Id, t: SType, table: Table)
    decreases t, 0
  {
    match t
    case Nothing => IsNothing(g, id)
    case Bool => id in g.types && g.types[id].Int? && g.types[id].isBool
    case Integer(bits, signed) => id in g.types && IsNumber(g.types[id], bits, signed)
    case Rec(name, size) => id in g.types && IsRecord(g.types[id], name, size, table)
    case Pointer(target, tags) =>
      && id in g.types && g.types[id].Ptr?
      && exists path, end :: IsTagged(g, g.types[id].target, path, tags, end) && Describes(g, end, target, table)
    case Array(count, elem) =>
      id in g.types && g.types[id].Arr? && g.types[id].count == count && !IsByte(elem)
      && Describes(g, g.types[id].elem, elem, table)
    case Str(size) =>
      id in g.types && g.types[id].Arr? && size == g.types[id].count + 1
      && exists path, end, bits, signed ::
           IsBehind(g, g.types[id].elem, path, end) && IsByteNumber(g, end, bits, signed)
  }

  predicate IsByteNumber(g: Graph, id: Id, bits: nat, signed: bool) {
    id in g.types && IsNumber(g.types[id], bits, signed) && 8 <= bits < 16
  }

  // Main result: what is imported is right.
  lemma {:induction false} TypeDescribes(g: Graph, k: nat, id: Id, table: Table)
    requires TypeOf(g, k, id, table).Some?
    ensures Describes(g, id, TypeOf(g, k, id, table).value, table)
    decreases k, 0
  {
    var t := TypeOf(g, k, id, table).value;
    if id in g.types && g.types[id].Modifier? {
      var target := g.types[id].target;
      TypeDescribes(g, k - 1, target, table);
      var path, end :| IsBehind(g, target, path, end) && DescribesBare(g, end, t, table);
      assert ([target] + path)[1..] == path;
      assert IsBehind(g, id, [target] + path, end);
    } else {
      assert IsBehind(g, id, [], id);
      if id in g.types && g.types[id].Ptr? {
        var target := g.types[id].target;
        PointerDescribes(g, k - 1, target, {}, table);
        var path, own, end :| IsTagged(g, target, path, own, end) && t.tags == {} + own
                              && Describes(g, end, t.target, table);
        assert t.tags == own;
        assert DescribesBare(g, id, t, table);
      } else if id in g.types && g.types[id].Arr? {
        TypeDescribes(g, k - 1, g.types[id].elem, table);
        ArrayDescribes(g, id, TypeOf(g, k - 1, g.types[id].elem, table).value, table);
      } else {
        LeafDescribes(g, k, id, table);
      }
    }
  }

  lemma LeafDescribes(g: Graph, k: nat, id: Id, table: Table)
    requires TypeOf(g, k, id, table).Some?
    requires id in g.types ==> !g.types[id].Modifier? && !g.types[id].Ptr? && !g.types[id].Arr?
    ensures DescribesBare(g, id, TypeOf(g, k, id, table).value, table)
  {
    hide IsTagged, IsBehind;
  }

  lemma ArrayDescribes(g: Graph, id: Id, elem: SType, table: Table)
    requires id in g.types && g.types[id].Arr? && Describes(g, g.types[id].elem, elem, table)
    ensures DescribesBare(g, id, ArrayOf(g.types[id].count, elem), table)
  {
    if IsByte(elem) {
      var path, end :| IsBehind(g, g.types[id].elem, path, end) && DescribesBare(g, end, elem, table);
      assert IsByteNumber(g, end, elem.bits, elem.signed);
    }
  }

  lemma {:induction false} PointerDescribes(g: Graph, k: nat, id: Id, tags: set<string>, table: Table)
    requires PointerTo(g, k, id, tags, table).Some?
    ensures var t := PointerTo(g, k, id, tags, table).value;
      && t.Pointer?
      && exists path, own, end :: IsTagged(g, id, path, own, end) && t.tags == tags + own
                                  && Describes(g, end, t.target, table)
    decreases k, 1
  {
    var t := PointerTo(g, k, id, tags, table).value;
    if id in g.types && g.types[id].TypeTag? {
      var tag, target := g.types[id].tag, g.types[id].target;
      PointerDescribes(g, k - 1, target, tags + {tag}, table);
      var path, own, end :| IsTagged(g, target, path, own, end) && t.tags == tags + {tag} + own
                            && Describes(g, end, t.target, table);
      assert ([target] + path)[1..] == path;
      assert IsTagged(g, id, [target] + path, own + {tag}, end);
      assert t.tags == tags + (own + {tag});
    } else {
      TypeDescribes(g, k - 1, id, table);
      assert IsTagged(g, id, [], {}, id);
      assert t.tags == tags + {};
    }
  }

  // Width and sign of a number behind any qualifiers are those declared; enums are unsigned.
  lemma NumberKept(g: Graph, id: Id, path: seq<Id>, end: Id, t: SType, table: Table)
    requires Describes(g, id, t, table) && IsBehind(g, id, path, end) && end in g.types
    ensures g.types[end].Int? && !g.types[end].isBool && g.types[end].bits <= 64 ==>
      t == Integer(g.types[end].bits, g.types[end].signed)
    ensures g.types[end].Enum? && g.types[end].size <= 8 ==> t == Integer(8 * g.types[end].size, false)
  {
    hide IsBehind;
    var other, stop :| IsBehind(g, id, other, stop) && DescribesBare(g, stop, t, table);
    BehindUnique(g, id, path, end, other, stop);
  }

  // There is only one right type.

  lemma {:induction false} BehindUnique(g: Graph, id: Id, path: seq<Id>, a: Id, other: seq<Id>, b: Id)
    requires IsBehind(g, id, path, a) && IsBehind(g, id, other, b)
    ensures a == b
    decreases path
  {
    if path != [] {
      BehindUnique(g, path[0], path[1..], a, other[1..], b);
    }
  }

  lemma {:induction false} TaggedUnique(g: Graph, id: Id, path: seq<Id>, s: set<string>, a: Id, other: seq<Id>,
                                        t: set<string>, b: Id)
    requires IsTagged(g, id, path, s, a) && IsTagged(g, id, other, t, b)
    ensures a == b && s == t
    decreases path
  {
    if path != [] {
      var p :| IsTagged(g, path[0], path[1..], p, a) && s == p + {g.types[id].tag};
      var q :| IsTagged(g, other[0], other[1..], q, b) && t == q + {g.types[id].tag};
      TaggedUnique(g, path[0], path[1..], p, a, other[1..], q, b);
    }
  }

  lemma {:induction false} DescribesUnique(g: Graph, id: Id, t: SType, u: SType, table: Table)
    requires Describes(g, id, t, table) && Describes(g, id, u, table)
    ensures t == u
    decreases t, 1
  {
    hide DescribesBare;
    var path, end :| IsBehind(g, id, path, end) && DescribesBare(g, end, t, table);
    var other, stop :| IsBehind(g, id, other, stop) && DescribesBare(g, stop, u, table);
    BehindUnique(g, id, path, end, other, stop);
    NotModifier(g, id, path, end);
    BareUnique(g, end, t, u, table);
  }

  lemma {:induction false} NotModifier(g: Graph, id: Id, path: seq<Id>, end: Id)
    requires IsBehind(g, id, path, end)
    ensures !(end in g.types && g.types[end].Modifier?)
    decreases path
  {
    if path != [] {
      NotModifier(g, path[0], path[1..], end);
    }
  }

  // Numbers of one byte are no elements of an array.
  lemma NumberElement(g: Graph, id: Id, t: SType, table: Table)
    requires t.Array? && DescribesBare(g, id, t, table)
    ensures forall path, end, bits, signed ::
      !(IsBehind(g, g.types[id].elem, path, end) && IsByteNumber(g, end, bits, signed))
  {
    hide IsBehind;
    var elem := g.types[id].elem;
    var other, stop :| IsBehind(g, elem, other, stop) && DescribesBare(g, stop, t.elem, table);
    forall path, end, bits, signed | IsBehind(g, elem, path, end)
      ensures !IsByteNumber(g, end, bits, signed)
    {
      BehindUnique(g, elem, path, end, other, stop);
    }
  }

  lemma {:induction false} BareUnique(g: Graph, id: Id, t: SType, u: SType, table: Table)
    requires DescribesBare(g, id, t, table) && DescribesBare(g, id, u, table)
    requires !(id in g.types && g.types[id].Modifier?)
    ensures t == u
    decreases t, 0
  {
    if t.Pointer? {
      var target := g.types[id].target;
      var path, end :| IsTagged(g, target, path, t.tags, end) && Describes(g, end, t.target, table);
      var other, stop :| IsTagged(g, target, other, u.tags, stop) && Describes(g, stop, u.target, table);
      TaggedUnique(g, target, path, t.tags, end, other, u.tags, stop);
      DescribesUnique(g, end, t.target, u.target, table);
    } else if t.Array? && u.Array? {
      DescribesUnique(g, g.types[id].elem, t.elem, u.elem, table);
    } else if t.Array? && u.Str? {
      NumberElement(g, id, t, table);
    } else if t.Str? && u.Array? {
      NumberElement(g, id, u, table);
    }
  }
}
