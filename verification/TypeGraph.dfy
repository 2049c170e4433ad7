/**
 The BTF type graph (src/btf.cpp) and the calls that importing a type makes on it.  Types are
 numbered across all loaded BTF objects.
 */
module TypeGraph {
  import opened Prelude

  type Id = nat

  datatype Member = Member(name: string, ty: Id, bitOffset: nat, bitfieldSize: nat)

  // `Modifier` is a typedef, const, volatile or restrict; `Other` is void, a function, a
  // floating-point number and whatever else has no import.
  datatype BtfType =
    | Int(bits: nat, signed: bool, isBool: bool)
    | Enum(size: nat)
    | Composite(isStruct: bool, name: string, size: nat, members: seq<Member>)
    | Ptr(target: Id)
    | Arr(elem: Id, count: nat)
    | Modifier(target: Id)
    | TypeTag(tag: string, target: Id)
    | Other

  // `structIds` and `unionIds` are the lookups by name and kind.
  datatype Graph = Graph(types: map<Id, BtfType>, structIds: map<string, Id>, unionIds: map<string, Id>)

  predicate Anonymous(name: string) {
    name == "" || name == "(anon)"
  }

  predicate IsComposite(g: Graph, id: Id) {
    id in g.types && g.types[id].Composite?
  }

  // Members that resolve_fields flattens into the enclosing record.
  predicate Inlined(g: Graph, m: Member) {
    IsComposite(g, m.ty) && Anonymous(m.name)
  }

  function RecordName(isStruct: bool, name: string): string {
    (if isStruct then "struct " else "union ") + name
  }

  // The name without its "struct ", "union " or "enum " prefix.
  function Strip(name: string): string {
    if "struct " <= name then name[7..]
    else if "union " <= name then name[6..]
    else if "enum " <= name then name[5..]
    else name
  }

  // The type whose members become the fields of the record: structs are looked up first.
  function Find(g: Graph, record: string): Option<Id> {
    var name := Strip(record);
    if name in g.structIds then Some(g.structIds[name])
    else if name in g.unionIds then Some(g.unionIds[name])
    else None
  }

  predicate Indexes(g: Graph, ids: map<string, Id>, isStruct: bool) {
    && (forall name :: name in ids ==>
         IsComposite(g, ids[name]) && g.types[ids[name]].isStruct == isStruct && g.types[ids[name]].name == name)
    && (forall id :: id in g.types && g.types[id].Composite? && g.types[id].isStruct == isStruct && !Anonymous(g.types[id].name) ==>
         g.types[id].name in ids)
  }

  // A modifier refers to a type that exists, and the lookups are those of the types.
  ghost predicate WellFormed(g: Graph) {
    && (forall id :: id in g.types && g.types[id].Modifier? ==> g.types[id].target in g.types)
    && Indexes(g, g.structIds, true)
    && Indexes(g, g.unionIds, false)
  }

  // A union takes the fields of the struct of the same name, if there is one: the looked up type
  // is of the record's own kind exactly when the record is a struct or no struct bears its name.
  lemma FindsOwnKindIff(g: Graph, id: Id)
    requires WellFormed(g) && IsComposite(g, id) && !Anonymous(g.types[id].name)
    ensures var t := g.types[id];
      var c := Find(g, RecordName(t.isStruct, t.name));
      && c.Some? && IsComposite(g, c.value) && g.types[c.value].name == t.name
      && (g.types[c.value].isStruct == t.isStruct <==> t.isStruct || t.name !in g.structIds)
  {
    StripName(g.types[id].isStruct, g.types[id].name);
  }

  // struct s { int a; }; union s { int a; char b; };
  function Namesakes(): Graph {
    Graph(map[1 := Composite(true, "s", 4, [Member("a", 3, 0, 0)]),
              2 := Composite(false, "s", 4, [Member("a", 3, 0, 0), Member("b", 4, 0, 0)]),
              3 := Int(32, true, false), 4 := Int(8, true, false)],
          map["s" := 1], map["s" := 2])
  }

  // The union takes the struct's members.
  lemma UnionFindsStruct()
    ensures WellFormed(Namesakes()) && Find(Namesakes(), RecordName(false, "s")) == Some(1)
  {
    StripName(false, "s");
  }

  lemma StripName(isStruct: bool, name: string)
    ensures Strip(RecordName(isStruct, name)) == name
  {
    var full := RecordName(isStruct, name);
    if isStruct {
      assert "struct " <= full && full[7..] == name;
    } else {
      assert full[0] == 'u';
      assert "union " <= full && full[6..] == name;
    }
  }

  // The calls of an import.

  datatype Node =
    | TypeNode(id: Id, resolve: bool)  // get_stype(id, resolve)
    | PointeeNode(id: Id)              // get_type_tags(id), then get_stype
    | RecordNode(name: string)         // resolve_fields(record)
    | MembersNode(id: Id)              // resolve_fields(id, record, offset)

  // Members before the first one whose type is missing: the loop over the members stops there.
  function Live(g: Graph, ms: seq<Member>): (live: seq<Member>)
    ensures live <= ms
    ensures forall m :: m in live ==> m.ty in g.types
    ensures |live| < |ms| ==> ms[|live|].ty !in g.types
  {
    if ms == [] || ms[0].ty !in g.types then [] else [ms[0]] + Live(g, ms[1..])
  }

  function MemberNode(g: Graph, m: Member): Node {
    if Inlined(g, m) then MembersNode(m.ty) else TypeNode(m.ty, true)
  }

  // The call `a` leads directly to the call `b`, unless `b` resolves a record that has fields.  The
  // elements of an array are imported with their fields even behind a pointer.
  predicate Calls(g: Graph, a: Node, b: Node) {
    match a
    case TypeNode(id, resolve) =>
      id in g.types &&
      (match g.types[id]
       case Modifier(target) => b == TypeNode(target, resolve)
       case Ptr(target) => b == PointeeNode(target)
       case Arr(elem, _) => b == TypeNode(elem, true)
       case Composite(isStruct, name, _, _) =>
         resolve && !Anonymous(name) && b == RecordNode(RecordName(isStruct, name))
       case Int(_, _, _) => false
       case Enum(_) => false
       case TypeTag(_, _) => false
       case Other => false)
    case PointeeNode(id) =>
      if id in g.types && g.types[id].TypeTag? then b == PointeeNode(g.types[id].target)
      else b == TypeNode(id, false)
    case RecordNode(name) =>
      Find(g, name).Some? && b == MembersNode(Find(g, name).value)
    case MembersNode(id) =>
      IsComposite(g, id) && exists m :: m in Live(g, g.types[id].members) && b == MemberNode(g, m)
  }

  // A chain of calls starts at `a` and ends at `b`.
  predicate Chain(g: Graph, a: Node, path: seq<Node>, b: Node)
    decreases path
  {
    if path == [] then Calls(g, a, b) else Calls(g, a, path[0]) && Chain(g, path[0], path[1..], b)
  }

  ghost predicate Reaches(g: Graph, a: Node, b: Node) {
    exists path :: Chain(g, a, path, b)
  }

  lemma {:induction false} ChainAppends(g: Graph, a: Node, p: seq<Node>, b: Node, q: seq<Node>, c: Node)
    requires Chain(g, a, p, b) && Chain(g, b, q, c)
    ensures Chain(g, a, p + [b] + q, c)
    decreases p
  {
    hide Calls;
    if p == [] {
      assert ([] + [b] + q)[1..] == q;
    } else {
      ChainAppends(g, p[0], p[1..], b, q, c);
      assert (p + [b] + q)[1..] == p[1..] + [b] + q;
    }
  }

  lemma CallReaches(g: Graph, a: Node, b: Node)
    requires Calls(g, a, b)
    ensures Reaches(g, a, b)
    ensures forall c :: Reaches(g, b, c) ==> Reaches(g, a, c)
  {
    hide Calls;
    assert Chain(g, a, [], b);
    forall c | Reaches(g, b, c) ensures Reaches(g, a, c) {
      var path :| Chain(g, b, path, c);
      ChainAppends(g, a, [], b, path, c);
    }
  }

  lemma MemberIsCalled(g: Graph, id: Id, i: nat)
    requires IsComposite(g, id) && i < |Live(g, g.types[id].members)|
    ensures Calls(g, MembersNode(id), MemberNode(g, g.types[id].members[i]))
  {
    assert Live(g, g.types[id].members)[i] == g.types[id].members[i];
    assert g.types[id].members[i] in Live(g, g.types[id].members);
  }

  lemma FindIsComposite(g: Graph, name: string)
    requires WellFormed(g) && Find(g, name).Some?
    ensures IsComposite(g, Find(g, name).value)
  {
  }
}
