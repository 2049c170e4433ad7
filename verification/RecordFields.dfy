/**
 What importing a type yields, apart from the table that it fills: the type it denotes, and the
 fields that a record gets (src/btf.cpp:415-469, 1130-1197).  Both may never end on a cyclic graph,
 so they are given a number of steps, and are None when it is too small.
 */
module RecordFields {
  import opened Prelude
  import opened TypeGraph

  // Imported types.  A named record refers to the table of records by name.
  datatype SType =
    | Nothing | Bool
    | Integer(bits: nat, signed: bool)
    | Rec(name: string, size: nat)
    | Pointer(target: SType, tags: set<string>)
    | Array(count: nat, elem: SType)
    | Str(size: nat)

  // `bitfield` holds the bit offset within its first byte and the width in bits.
  datatype Field<+T> = Field(name: string, ty: T, offset: nat, bitfield: Option<(nat, nat)>)

  datatype Record = Record(size: nat, fields: seq<Field<SType>>)

  type Table = map<string, Record>

  predicate HasField<T>(fields: seq<Field<T>>, name: string) {
    exists i :: 0 <= i < |fields| && fields[i].name == name
  }

  // The first field of a name stays.
  function AddField<T>(fields: seq<Field<T>>, f: Field<T>): seq<Field<T>> {
    if HasField(fields, f.name) then fields else fields + [f]
  }

  function BitfieldOf(m: Member): Option<(nat, nat)> {
    if m.bitfieldSize == 0 then None else Some((m.bitOffset % 8, m.bitfieldSize))
  }

  function FieldOf(m: Member, start: nat): Field<Id> {
    Field(m.name, m.ty, start + m.bitOffset / 8, BitfieldOf(m))
  }

  function IntegerOf(bits: nat, signed: bool): SType {
    Integer(if bits > 64 then 64 else bits, signed)
  }

  // An array of one-byte integers becomes a string with room for a terminator.
  function ArrayOf(count: nat, elem: SType): SType {
    if elem.Integer? && elem.bits / 8 == 1 then Str(count + 1) else Array(count, elem)
  }

  // The size that the table has for a record, or the one given.
  function SizeIn(table: Table, name: string, size: nat): nat {
    if name in table then table[name].size else size
  }

  // The type that `id` denotes.
  function TypeOf(g: Graph, k: nat, id: Id, table: Table): Option<SType>
    decreases k, 0
  {
    if k == 0 then None
    else if id !in g.types then Some(Nothing)
    else
      match g.types[id]
      case Int(bits, signed, isBool) => Some(if isBool then Bool else IntegerOf(bits, signed))
      case Enum(size) => Some(IntegerOf(size * 8, false))
      case Composite(isStruct, name, size, _) =>
        var full := RecordName(isStruct, name);
        Some(if Anonymous(name) then Nothing else Rec(full, SizeIn(table, full, size)))
      case Ptr(target) => PointerTo(g, k - 1, target, {}, table)
      case Arr(elem, count) =>
        (match TypeOf(g, k - 1, elem, table)
         case None => None
         case Some(t) => Some(ArrayOf(count, t)))
      case Modifier(target) => TypeOf(g, k - 1, target, table)
      case TypeTag(_, _) => Some(Nothing)
      case Other => Some(Nothing)
  }

  // The pointer to `id`, whose type tags come before the type that they apply to.
  function PointerTo(g: Graph, k: nat, id: Id, tags: set<string>, table: Table): Option<SType>
    decreases k, 1
  {
    if k == 0 then None
    else if id in g.types && g.types[id].TypeTag? then
      PointerTo(g, k - 1, g.types[id].target, tags + {g.types[id].tag}, table)
    else
      match TypeOf(g, k - 1, id, table)
      case None => None
      case Some(t) => Some(Pointer(t, tags))
  }

  // All records that the type mentions are in the table, with their sizes.
  predicate Present(t: SType, table: Table) {
    match t
    case Rec(name, size) => name in table && table[name].size == size
    case Pointer(target, _) => Present(target, table)
    case Array(_, elem) => Present(elem, table)
    case Nothing => true
    case Bool => true
    case Integer(_, _) => true
    case Str(_) => true
  }

  // Fields.

  // What a run of members does to the fields collected before: `cleared` when a member without a
  // type discards them, and then the fields that are added.
  datatype Batch = Batch(cleared: bool, fields: seq<Field<Id>>)

  function Join(a: Batch, b: Batch): Batch {
    if b.cleared then b else Batch(a.cleared, a.fields + b.fields)
  }

  function AddAll(acc: seq<Field<Id>>, fields: seq<Field<Id>>): seq<Field<Id>>
    decreases |fields|
  {
    if fields == [] then acc else AddAll(AddField(acc, fields[0]), fields[1..])
  }

  function Apply(b: Batch, acc: seq<Field<Id>>): seq<Field<Id>> {
    AddAll(if b.cleared then [] else acc, b.fields)
  }

  const NO_FIELDS: Batch := Batch(false, [])

  // The members of a composite from member i on; those of an anonymous composite take its place.
  function Gather(g: Graph, k: nat, id: Id, start: nat, i: nat): Option<Batch>
    requires IsComposite(g, id) && i <= |g.types[id].members|
    decreases k, 1 + |g.types[id].members| - i
  {
    var ms := g.types[id].members;
    if i == |ms| then Some(NO_FIELDS)
    else if ms[i].ty !in g.types then Some(Batch(true, []))
    else
      match GatherMember(g, k, ms[i], start)
      case None => None
      case Some(first) =>
        match Gather(g, k, id, start, i + 1)
        case None => None
        case Some(rest) => Some(Join(first, rest))
  }

  function GatherMember(g: Graph, k: nat, m: Member, start: nat): Option<Batch>
    decreases k, 0
  {
    if !Inlined(g, m) then Some(Batch(false, [FieldOf(m, start)]))
    else if k == 0 then None
    else Gather(g, k - 1, m.ty, start + m.bitOffset / 8, 0)
  }

  // The fields that a record must have.
  function Expected(g: Graph, k: nat, record: string): Option<seq<Field<Id>>>
    requires WellFormed(g)
  {
    match Find(g, record)
    case None => Some([])
    case Some(id) =>
      FindIsComposite(g, record);
      match Gather(g, k, id, 0, 0)
      case None => None
      case Some(b) => Some(Apply(b, []))
  }

  // More steps change nothing.

  lemma {:induction false} TypeOfMore(g: Graph, k: nat, l: nat, id: Id, table: Table)
    requires k <= l && TypeOf(g, k, id, table).Some?
    ensures TypeOf(g, l, id, table) == TypeOf(g, k, id, table)
    decreases k, 0
  {
    if id in g.types {
      var t := g.types[id];
      if t.Ptr? {
        PointerToMore(g, k - 1, l - 1, t.target, {}, table);
      } else if t.Arr? {
        TypeOfMore(g, k - 1, l - 1, t.elem, table);
      } else if t.Modifier? {
        TypeOfMore(g, k - 1, l - 1, t.target, table);
      }
    }
  }

  lemma {:induction false} PointerToMore(g: Graph, k: nat, l: nat, id: Id, tags: set<string>, table: Table)
    requires k <= l && PointerTo(g, k, id, tags, table).Some?
    ensures PointerTo(g, l, id, tags, table) == PointerTo(g, k, id, tags, table)
    decreases k, 1
  {
    if id in g.types && g.types[id].TypeTag? {
      PointerToMore(g, k - 1, l - 1, g.types[id].target, tags + {g.types[id].tag}, table);
    } else {
      TypeOfMore(g, k - 1, l - 1, id, table);
    }
  }

  lemma {:induction false} GatherMore(g: Graph, k: nat, l: nat, id: Id, start: nat, i: nat)
    requires IsComposite(g, id) && i <= |g.types[id].members|
    requires k <= l && Gather(g, k, id, start, i).Some?
    ensures Gather(g, l, id, start, i) == Gather(g, k, id, start, i)
    decreases k, 1 + |g.types[id].members| - i
  {
    var ms := g.types[id].members;
    if i < |ms| && ms[i].ty in g.types {
      GatherMemberMore(g, k, l, ms[i], start);
      GatherMore(g, k, l, id, start, i + 1);
    }
  }

  lemma {:induction false} GatherMemberMore(g: Graph, k: nat, l: nat, m: Member, start: nat)
    requires k <= l && GatherMember(g, k, m, start).Some?
    ensures GatherMember(g, l, m, start) == GatherMember(g, k, m, start)
    decreases k, 0
  {
    if Inlined(g, m) {
      GatherMore(g, k - 1, l - 1, m.ty, start + m.bitOffset / 8, 0);
    }
  }

  lemma ExpectedMore(g: Graph, k: nat, l: nat, record: string)
    requires WellFormed(g) && k <= l && Expected(g, k, record).Some?
    ensures Expected(g, l, record) == Expected(g, k, record)
  {
    hide WellFormed, Gather;
    if Find(g, record).Some? {
      FindIsComposite(g, record);
      GatherMore(g, k, l, Find(g, record).value, 0, 0);
    }
  }

  // Batches.

  lemma {:induction false} AddAllAppends(acc: seq<Field<Id>>, fs: seq<Field<Id>>, gs: seq<Field<Id>>)
    ensures AddAll(acc, fs + gs) == AddAll(AddAll(acc, fs), gs)
    decreases |fs|
  {
    if fs == [] {
      assert fs + gs == gs;
    } else {
      assert (fs + gs)[1..] == fs[1..] + gs;
      AddAllAppends(AddField(acc, fs[0]), fs[1..], gs);
    }
  }

  lemma ApplyJoin(a: Batch, b: Batch, acc: seq<Field<Id>>)
    ensures Apply(Join(a, b), acc) == Apply(b, Apply(a, acc))
  {
    hide AddAll;
    if !b.cleared {
      AddAllAppends(if a.cleared then [] else acc, a.fields, b.fields);
    }
  }

  lemma ApplyOne(f: Field<Id>, acc: seq<Field<Id>>)
    ensures Apply(Batch(false, [f]), acc) == AddField(acc, f)
  {
    assert [f][1..] == [] && AddAll(AddField(acc, f), []) == AddField(acc, f);
    assert AddAll(acc, [f]) == AddAll(AddField(acc, f), [f][1..]);
  }

  predicate HasAll(acc: seq<Field<Id>>, fields: seq<Field<Id>>) {
    forall i :: 0 <= i < |fields| ==> HasField(acc, fields[i].name)
  }

  lemma {:induction false} AddedAreThere(acc: seq<Field<Id>>, fields: seq<Field<Id>>)
    ensures HasAll(AddAll(acc, fields), fields)
    ensures forall name :: HasField(acc, name) ==> HasField(AddAll(acc, fields), name)
    decreases |fields|
  {
    if fields != [] {
      var more, f := AddField(acc, fields[0]), fields[0];
      assert HasField(more, f.name) by {
        if !HasField(acc, f.name) {
          assert more[|acc|] == f;
        }
      }
      forall name | HasField(acc, name) ensures HasField(more, name) {
        var i :| 0 <= i < |acc| && acc[i].name == name;
        assert more[i].name == name;
      }
      AddedAreThere(more, fields[1..]);
      hide HasField, AddAll;
      forall i | 0 <= i < |fields| ensures HasField(AddAll(acc, fields), fields[i].name) {
        if i > 0 {
          assert fields[1..][i - 1] == fields[i];
        }
      }
    }
  }

  lemma {:induction false} AddAllPresent(acc: seq<Field<Id>>, fields: seq<Field<Id>>)
    requires HasAll(acc, fields)
    ensures AddAll(acc, fields) == acc
    decreases |fields|
  {
    if fields != [] {
      assert HasField(acc, fields[0].name);
      forall i | 0 <= i < |fields[1..]| ensures HasField(acc, fields[1..][i].name) {
        assert fields[1..][i] == fields[i + 1];
      }
      AddAllPresent(acc, fields[1..]);
    }
  }

  // Starting from what a batch makes of nothing changes nothing.
  lemma ApplyTwice(b: Batch)
    ensures Apply(b, Apply(b, [])) == Apply(b, [])
  {
    AddedAreThere([], b.fields);
    if !b.cleared {
      AddAllPresent(AddAll([], b.fields), b.fields);
    }
  }

  // Tables.

  // No record disappears or changes its size.
  ghost predicate SizesKept(was: Table, now: Table) {
    forall name :: name in was ==> name in now && now[name].size == was[name].size
  }

  lemma PresentKept(t: SType, was: Table, now: Table)
    requires Present(t, was) && SizesKept(was, now)
    ensures Present(t, now)
  {
  }

  // An imported type stays what it is while the table grows.
  lemma {:induction false} TypeKept(g: Graph, k: nat, id: Id, was: Table, now: Table)
    requires TypeOf(g, k, id, was).Some? && Present(TypeOf(g, k, id, was).value, was) && SizesKept(was, now)
    ensures TypeOf(g, k, id, now) == TypeOf(g, k, id, was)
    ensures Present(TypeOf(g, k, id, now).value, now)
    decreases k, 0
  {
    PresentKept(TypeOf(g, k, id, was).value, was, now);
    if id in g.types {
      var t := g.types[id];
      if t.Ptr? {
        PointerKept(g, k - 1, t.target, {}, was, now);
      } else if t.Arr? {
        TypeKept(g, k - 1, t.elem, was, now);
      } else if t.Modifier? {
        TypeKept(g, k - 1, t.target, was, now);
      }
    }
  }

  lemma {:induction false} PointerKept(g: Graph, k: nat, id: Id, tags: set<string>, was: Table, now: Table)
    requires PointerTo(g, k, id, tags, was).Some? && Present(PointerTo(g, k, id, tags, was).value, was)
    requires SizesKept(was, now)
    ensures PointerTo(g, k, id, tags, now) == PointerTo(g, k, id, tags, was)
    ensures Present(PointerTo(g, k, id, tags, now).value, now)
    decreases k, 1
  {
    if id in g.types && g.types[id].TypeTag? {
      PointerKept(g, k - 1, g.types[id].target, tags + {g.types[id].tag}, was, now);
    } else {
      TypeKept(g, k - 1, id, was, now);
    }
  }
}
