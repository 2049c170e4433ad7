/**
 What an import leaves alone, on any graph: sizes, the fields of records that have some, and every
 record that it does not lead to.
 */
module TypeFrames {
  import opened Prelude
  import opened TypeGraph
  import opened RecordFields
  import opened TypeRuns

  // The call `from` is, or leads to, the resolution of the record.
  ghost predicate Covers(g: Graph, from: Node, name: string) {
    from == RecordNode(name) || Reaches(g, from, RecordNode(name))
  }

  // What the call `from` may do to the table, apart from the record `but`.
  ghost predicate Evolves(g: Graph, was: Table, now: Table, from: Node, but: Option<string>) {
    && SizesKept(was, now)
    && (forall name :: name in was && but != Some(name) && was[name].fields != [] ==>
         now[name].fields == was[name].fields)
    && (forall name :: name in now && but != Some(name) && Gains(was, now, name) ==> Covers(g, from, name))
    && (SizesDeclared(g, was) ==> SizesDeclared(g, now))
  }

  // The record receives fields.
  predicate Gains(was: Table, now: Table, name: string)
    requires name in now
  {
    now[name].fields != [] && (name in was ==> was[name].fields == [])
  }

  // Every size in the table is that of a type with the record's name.
  ghost predicate SizesDeclared(g: Graph, table: Table) {
    forall name :: name in table ==> Declared(g, name, table[name].size)
  }

  ghost predicate Declared(g: Graph, name: string, size: nat) {
    exists id :: IsComposite(g, id) && IsDeclaration(g.types[id], name, size)
  }

  predicate IsDeclaration(t: BtfType, name: string, size: nat) {
    t.Composite? && !Anonymous(t.name) && RecordName(t.isStruct, t.name) == name && t.size == size
  }

  lemma EvolvesSame(g: Graph, table: Table, from: Node, but: Option<string>)
    ensures Evolves(g, table, table, from, but)
  {
  }

  lemma EvolvesTrans(g: Graph, t0: Table, t1: Table, t2: Table, from: Node, but: Option<string>)
    requires Evolves(g, t0, t1, from, but) && Evolves(g, t1, t2, from, but)
    ensures Evolves(g, t0, t2, from, but)
  {
    hide Covers, SizesDeclared;
    forall name | name in t2 && but != Some(name) && Gains(t0, t2, name) ensures Covers(g, from, name) {
      if name in t1 && t1[name].fields != [] {
        assert Gains(t0, t1, name);
      } else {
        assert Gains(t1, t2, name);
      }
    }
  }

  lemma EvolvesWider(g: Graph, was: Table, now: Table, from: Node, caller: Node, but: Option<string>)
    requires Evolves(g, was, now, from, but) && Calls(g, caller, from)
    ensures Evolves(g, was, now, caller, but)
  {
    hide Calls, Reaches, SizesDeclared;
    CallReaches(g, caller, from);
  }

  lemma EvolvesBut(g: Graph, was: Table, now: Table, from: Node, name: string)
    requires Evolves(g, was, now, from, None)
    ensures Evolves(g, was, now, from, Some(name))
  {
    hide Covers, SizesDeclared;
  }

  lemma FieldsSet(g: Graph, table: Table, name: string, fields: seq<Field<SType>>, from: Node)
    requires name in table
    ensures Evolves(g, table, SetFields(table, name, fields), from, Some(name))
  {
    hide Covers, Declared;
  }

  lemma RecordAdded(g: Graph, table: Table, id: Id, from: Node)
    requires IsComposite(g, id) && !Anonymous(g.types[id].name)
    ensures var t := g.types[id];
      Evolves(g, table, LookupOrAdd(table, RecordName(t.isStruct, t.name), t.size), from, None)
  {
    hide Covers;
    assert IsDeclaration(g.types[id], RecordName(g.types[id].isStruct, g.types[id].name), g.types[id].size);
  }

  lemma {:induction false} TypeEvolves(g: Graph, k: nat, id: Id, resolve: bool, table: Table)
    requires WellFormed(g) && RunType(g, k, id, resolve, table).Some?
    ensures Evolves(g, table, RunType(g, k, id, resolve, table).value.1, TypeNode(id, resolve), None)
    decreases k, 0
  {
    hide WellFormed, Evolves, RunPointee;
    var from := TypeNode(id, resolve);
    EvolvesSame(g, table, from, None);
    if id in g.types {
      var t := g.types[id];
      if t.Composite? && !Anonymous(t.name) {
        NamedEvolves(g, k, id, resolve, table);
      } else if t.Ptr? {
        PointeeEvolves(g, k - 1, t.target, {}, table);
        EvolvesWider(g, table, RunType(g, k, id, resolve, table).value.1, PointeeNode(t.target), from, None);
      } else if t.Arr? {
        TypeEvolves(g, k - 1, t.elem, true, table);
        EvolvesWider(g, table, RunType(g, k, id, resolve, table).value.1, TypeNode(t.elem, true), from, None);
      } else if t.Modifier? {
        TypeEvolves(g, k - 1, t.target, resolve, table);
        EvolvesWider(g, table, RunType(g, k, id, resolve, table).value.1, TypeNode(t.target, resolve), from, None);
      }
    }
  }

  lemma {:induction false} NamedEvolves(g: Graph, k: nat, id: Id, resolve: bool, table: Table)
    requires WellFormed(g) && RunType(g, k, id, resolve, table).Some?
    requires IsComposite(g, id) && !Anonymous(g.types[id].name)
    ensures Evolves(g, table, RunType(g, k, id, resolve, table).value.1, TypeNode(id, resolve), None)
    decreases k, 0, 0
  {
    hide WellFormed, Evolves, RunRecord;
    var t, from := g.types[id], TypeNode(id, resolve);
    var full := RecordName(t.isStruct, t.name);
    var added := LookupOrAdd(table, full, t.size);
    RecordAdded(g, table, id, from);
    if resolve {
      RecordEvolves(g, k - 1, full, added);
      EvolvesWider(g, added, RunRecord(g, k - 1, full, added).value, RecordNode(full), from, None);
      EvolvesTrans(g, table, added, RunRecord(g, k - 1, full, added).value, from, None);
    }
  }

  lemma {:induction false} PointeeEvolves(g: Graph, k: nat, id: Id, tags: set<string>, table: Table)
    requires WellFormed(g) && RunPointee(g, k, id, tags, table).Some?
    ensures Evolves(g, table, RunPointee(g, k, id, tags, table).value.1, PointeeNode(id), None)
    decreases k, 1
  {
    hide WellFormed, Evolves, RunType;
    if id in g.types && g.types[id].TypeTag? {
      var target := g.types[id].target;
      PointeeEvolves(g, k - 1, target, tags + {g.types[id].tag}, table);
      EvolvesWider(g, table, RunPointee(g, k, id, tags, table).value.1, PointeeNode(target), PointeeNode(id), None);
    } else {
      TypeEvolves(g, k - 1, id, false, table);
      EvolvesWider(g, table, RunPointee(g, k, id, tags, table).value.1, TypeNode(id, false), PointeeNode(id), None);
    }
  }

  lemma {:induction false} RecordEvolves(g: Graph, k: nat, name: string, table: Table)
    requires WellFormed(g) && name in table && RunRecord(g, k, name, table).Some?
    ensures Evolves(g, table, RunRecord(g, k, name, table).value, RecordNode(name), None)
    decreases k, 1
  {
    hide WellFormed, RunMembers, SizesDeclared;
    if table[name].fields == [] && Find(g, name).Some? {
      FindIsComposite(g, name);
      var c := Find(g, name).value;
      var now := RunRecord(g, k, name, table).value;
      MembersEvolve(g, k - 1, c, name, 0, table, 0);
      EvolvesWider(g, table, now, MembersNode(c), RecordNode(name), Some(name));
    }
  }

  lemma {:induction false} MembersEvolve(g: Graph, k: nat, id: Id, name: string, start: nat, table: Table, i: nat)
    requires WellFormed(g) && name in table && IsComposite(g, id) && i <= |Live(g, g.types[id].members)|
    requires RunMembers(g, k, id, name, start, table, i).Some?
    ensures Evolves(g, table, RunMembers(g, k, id, name, start, table, i).value, MembersNode(id), Some(name))
    decreases k, 2 + |g.types[id].members| - i
  {
    hide WellFormed, Evolves, RunMember, SetFields, Live, Calls;
    var ms, from := g.types[id].members, MembersNode(id);
    EvolvesSame(g, table, from, Some(name));
    if i < |Live(g, ms)| {
      LiveAt(g, ms, i);
      var now := RunMember(g, k, ms[i], name, start, table).value;
      MemberEvolves(g, k, id, i, name, start, table);
      MembersEvolve(g, k, id, name, start, now, i + 1);
      EvolvesTrans(g, table, now, RunMembers(g, k, id, name, start, table, i).value, from, Some(name));
    } else if i < |ms| {
      FieldsSet(g, table, name, [], from);
    }
  }

  lemma LiveAt(g: Graph, ms: seq<Member>, i: nat)
    requires i < |Live(g, ms)|
    ensures i < |ms| && ms[i].ty in g.types
  {
    assert Live(g, ms)[i] == ms[i];
    assert Live(g, ms)[i] in Live(g, ms);
  }

  lemma {:induction false} MemberEvolves(g: Graph, k: nat, id: Id, i: nat, name: string, start: nat, table: Table)
    requires WellFormed(g) && name in table && IsComposite(g, id) && i < |Live(g, g.types[id].members)|
    requires RunMember(g, k, g.types[id].members[i], name, start, table).Some?
    ensures Evolves(g, table, RunMember(g, k, g.types[id].members[i], name, start, table).value,
                    MembersNode(id), Some(name))
    decreases k, 1
  {
    hide WellFormed, Evolves, RunMembers, RunType, Live, Calls, SetFields;
    var m, from := g.types[id].members[i], MembersNode(id);
    MemberIsCalled(g, id, i);
    var now := RunMember(g, k, m, name, start, table).value;
    var offset := start + m.bitOffset / 8;
    if Inlined(g, m) {
      MembersEvolve(g, k - 1, m.ty, name, offset, table, 0);
      EvolvesWider(g, table, now, MembersNode(m.ty), from, Some(name));
    } else {
      TypeEvolves(g, k, m.ty, true, table);
      var (t, mid) := RunType(g, k, m.ty, true, table).value;
      EvolvesWider(g, table, mid, TypeNode(m.ty, true), from, None);
      EvolvesBut(g, table, mid, from, name);
      FieldsSet(g, mid, name, AddField(mid[name].fields, Field(m.name, t, offset, BitfieldOf(m))), from);
      EvolvesTrans(g, table, mid, now, from, Some(name));
    }
  }
}
