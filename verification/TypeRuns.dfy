/**
 Importing BTF types, step by step: recursion through the type graph that fills a shared table of
 records (src/btf.cpp:390-469, 1130-1197; src/struct.cpp:139-162, 198-205).  Each function is None
 when the given number of nested calls is too small; an import ends when some number is not.
 */
module TypeRuns {
  import opened Prelude
  import opened TypeGraph
  import opened RecordFields

  function LookupOrAdd(table: Table, name: string, size: nat): Table {
    if name in table then table else table[name := Record(size, [])]
  }

  function SetFields(table: Table, name: string, fields: seq<Field<SType>>): Table
    requires name in table
  {
    table[name := table[name].(fields := fields)]
  }

  function AddFieldTo(table: Table, name: string, f: Field<SType>): Table
    requires name in table
  {
    SetFields(table, name, AddField(table[name].fields, f))
  }

  // get_stype.  A modifier's target exists in a well-formed graph.
  function RunType(g: Graph, k: nat, id: Id, resolve: bool, table: Table): (r: Option<(SType, Table)>)
    requires WellFormed(g)
    ensures r.Some? ==> table.Keys <= r.value.1.Keys
    decreases k, 0
  {
    if k == 0 then None
    else if id !in g.types then Some((Nothing, table))
    else
      match g.types[id]
      case Int(bits, signed, isBool) => Some((if isBool then Bool else IntegerOf(bits, signed), table))
      case Enum(size) => Some((IntegerOf(size * 8, false), table))
      case Composite(isStruct, name, size, _) =>
        if Anonymous(name) then Some((Nothing, table))
        else RunNamed(g, k - 1, RecordName(isStruct, name), size, resolve, table)
      case Ptr(target) => RunPointee(g, k - 1, target, {}, table)
      case Arr(elem, count) =>
        (match RunType(g, k - 1, elem, true, table)
         case None => None
         case Some((t, now)) => Some((ArrayOf(count, t), now)))
      case Modifier(target) => RunType(g, k - 1, target, resolve, table)
      case TypeTag(_, _) => Some((Nothing, table))
      case Other => Some((Nothing, table))
  }

  function RunNamed(g: Graph, k: nat, full: string, size: nat, resolve: bool, table: Table)
      : (r: Option<(SType, Table)>)
    requires WellFormed(g)
    ensures r.Some? ==> table.Keys <= r.value.1.Keys
    decreases k, 2
  {
    var added := LookupOrAdd(table, full, size);
    var t := Rec(full, added[full].size);
    if !resolve then Some((t, added))
    else
      match RunRecord(g, k, full, added)
      case None => None
      case Some(now) => Some((t, now))
  }

  // get_type_tags, then get_stype without fields.
  function RunPointee(g: Graph, k: nat, id: Id, tags: set<string>, table: Table): (r: Option<(SType, Table)>)
    requires WellFormed(g)
    ensures r.Some? ==> table.Keys <= r.value.1.Keys
    decreases k, 1
  {
    if k == 0 then None
    else if id in g.types && g.types[id].TypeTag? then
      RunPointee(g, k - 1, g.types[id].target, tags + {g.types[id].tag}, table)
    else
      match RunType(g, k - 1, id, false, table)
      case None => None
      case Some((t, now)) => Some((Pointer(t, tags), now))
  }

  // resolve_fields(record): a record that has fields is left alone.
  function RunRecord(g: Graph, k: nat, name: string, table: Table): (r: Option<Table>)
    requires WellFormed(g) && name in table
    ensures r.Some? ==> table.Keys <= r.value.Keys
    decreases k, 1
  {
    if table[name].fields != [] || Find(g, name).None? then Some(table)
    else if k == 0 then None
    else
      FindIsComposite(g, name);
      RunMembers(g, k - 1, Find(g, name).value, name, 0, table, 0)
  }

  // resolve_fields(id, record, start), from member i on.
  function RunMembers(g: Graph, k: nat, id: Id, name: string, start: nat, table: Table, i: nat): (r: Option<Table>)
    requires WellFormed(g) && name in table && IsComposite(g, id) && i <= |g.types[id].members|
    ensures r.Some? ==> table.Keys <= r.value.Keys
    decreases k, 2 + |g.types[id].members| - i
  {
    var ms := g.types[id].members;
    if i == |ms| then Some(table)
    else if ms[i].ty !in g.types then Some(SetFields(table, name, []))
    else
      match RunMember(g, k, ms[i], name, start, table)
      case None => None
      case Some(now) => RunMembers(g, k, id, name, start, now, i + 1)
  }

  function RunMember(g: Graph, k: nat, m: Member, name: string, start: nat, table: Table): (r: Option<Table>)
    requires WellFormed(g) && name in table
    ensures r.Some? ==> table.Keys <= r.value.Keys
    decreases k, 1
  {
    var offset := start + m.bitOffset / 8;
    if Inlined(g, m) then
      if k == 0 then None else RunMembers(g, k - 1, m.ty, name, offset, table, 0)
    else
      match RunType(g, k, m.ty, true, table)
      case None => None
      case Some((t, now)) => Some(AddFieldTo(now, name, Field(m.name, t, offset, BitfieldOf(m))))
  }

  // More steps change nothing.

  lemma {:induction false} RunTypeMore(g: Graph, k: nat, l: nat, id: Id, resolve: bool, table: Table)
    requires WellFormed(g) && k <= l && RunType(g, k, id, resolve, table).Some?
    ensures RunType(g, l, id, resolve, table) == RunType(g, k, id, resolve, table)
    decreases k, 0
  {
    hide WellFormed;
    if id in g.types {
      var t := g.types[id];
      if t.Composite? && !Anonymous(t.name) && resolve {
        var full := RecordName(t.isStruct, t.name);
        RunRecordMore(g, k - 1, l - 1, full, LookupOrAdd(table, full, t.size));
      } else if t.Ptr? {
        RunPointeeMore(g, k - 1, l - 1, t.target, {}, table);
      } else if t.Arr? {
        RunTypeMore(g, k - 1, l - 1, t.elem, true, table);
      } else if t.Modifier? {
        RunTypeMore(g, k - 1, l - 1, t.target, resolve, table);
      }
    }
  }

  lemma {:induction false} RunPointeeMore(g: Graph, k: nat, l: nat, id: Id, tags: set<string>, table: Table)
    requires WellFormed(g) && k <= l && RunPointee(g, k, id, tags, table).Some?
    ensures RunPointee(g, l, id, tags, table) == RunPointee(g, k, id, tags, table)
    decreases k, 1
  {
    hide WellFormed;
    if id in g.types && g.types[id].TypeTag? {
      RunPointeeMore(g, k - 1, l - 1, g.types[id].target, tags + {g.types[id].tag}, table);
    } else {
      RunTypeMore(g, k - 1, l - 1, id, false, table);
    }
  }

  lemma {:induction false} RunRecordMore(g: Graph, k: nat, l: nat, name: string, table: Table)
    requires WellFormed(g) && name in table && k <= l && RunRecord(g, k, name, table).Some?
    ensures RunRecord(g, l, name, table) == RunRecord(g, k, name, table)
    decreases k, 1
  {
    hide WellFormed;
    if table[name].fields == [] && Find(g, name).Some? {
      FindIsComposite(g, name);
      RunMembersMore(g, k - 1, l - 1, Find(g, name).value, name, 0, table, 0);
    }
  }

  lemma {:induction false} RunMembersMore(
      g: Graph, k: nat, l: nat, id: Id, name: string, start: nat, table: Table, i: nat)
    requires WellFormed(g) && name in table && IsComposite(g, id) && i <= |g.types[id].members|
    requires k <= l && RunMembers(g, k, id, name, start, table, i).Some?
    ensures RunMembers(g, l, id, name, start, table, i) == RunMembers(g, k, id, name, start, table, i)
    decreases k, 2 + |g.types[id].members| - i
  {
    hide WellFormed, RunMember;
    var ms := g.types[id].members;
    if i < |ms| && ms[i].ty in g.types {
      RunMemberMore(g, k, l, ms[i], name, start, table);
      RunMembersMore(g, k, l, id, name, start, RunMember(g, k, ms[i], name, start, table).value, i + 1);
    }
  }

  lemma {:induction false} RunMemberMore(g: Graph, k: nat, l: nat, m: Member, name: string, start: nat, table: Table)
    requires WellFormed(g) && name in table && k <= l && RunMember(g, k, m, name, start, table).Some?
    ensures RunMember(g, l, m, name, start, table) == RunMember(g, k, m, name, start, table)
    decreases k, 1
  {
    hide WellFormed;
    if Inlined(g, m) {
      RunMembersMore(g, k - 1, l - 1, m.ty, name, start + m.bitOffset / 8, table, 0);
    } else {
      RunTypeMore(g, k, l, m.ty, true, table);
    }
  }
}
