/**
 On consistent type information, an import ends only if no call that it leads to comes back to
 itself by early calls.
 */
module ImportLoops {
  import opened Prelude
  import opened TypeGraph
  import opened RecordFields
  import opened TypeRuns
  import opened ImportState
  import opened ImportCorrect
  import opened EarlyCalls
  import opened ImportEnds

  // Every member has a type.
  predicate Consistent(g: Graph) {
    forall id :: id in g.types && g.types[id].Composite? ==> MembersTyped(g, g.types[id].members)
  }

  predicate MembersTyped(g: Graph, ms: seq<Member>) {
    forall i :: 0 <= i < |ms| ==> ms[i].ty in g.types
  }

  lemma TypedMember(g: Graph, id: Id, i: nat)
    requires Consistent(g) && IsComposite(g, id) && i < |g.types[id].members|
    ensures g.types[id].members[i].ty in g.types
  {
    assert MembersTyped(g, g.types[id].members);
  }

  // Loops without a record: the imported type, or the flattened composite, would have no end.

  ghost predicate Finite(g: Graph, k: nat, a: Node, table: Table) {
    match a
    case TypeNode(id, _) => TypeOf(g, k, id, table).Some?
    case PointeeNode(id) => exists tags :: PointerTo(g, k, id, tags, table).Some?
    case RecordNode(_) => true
    case MembersNode(id) => IsComposite(g, id) ==> exists start :: Gather(g, k, id, start, 0).Some?
  }

  lemma {:induction false} GatherInlined(g: Graph, k: nat, id: Id, start: nat, i: nat, m: Member)
    requires IsComposite(g, id) && i <= |Live(g, g.types[id].members)| && Gather(g, k, id, start, i).Some?
    requires m in Live(g, g.types[id].members)[i..] && Inlined(g, m)
    ensures k > 0 && Gather(g, k - 1, m.ty, start + m.bitOffset / 8, 0).Some?
    decreases |g.types[id].members| - i
  {
    hide Live;
    var ms := g.types[id].members;
    assert i < |Live(g, ms)| && Live(g, ms)[i] == ms[i];
    assert ms[i] in Live(g, ms);
    if m != ms[i] {
      var j :| i <= j < |Live(g, ms)| && Live(g, ms)[j] == m;
      assert Live(g, ms)[i + 1..][j - (i + 1)] == m;
      GatherInlined(g, k, id, start, i + 1, m);
    }
  }

  lemma FiniteStep(g: Graph, done: set<string>, k: nat, a: Node, b: Node, table: Table)
    requires Finite(g, k, a, table) && EarlyCall(g, done, a, b) && !a.RecordNode? && !b.RecordNode?
    ensures k > 0 && Finite(g, k - 1, b, table)
  {
    hide Live, Gather;
    match a
    case TypeNode(id, _) =>
      if b.PointeeNode? {
        assert PointerTo(g, k - 1, b.id, {}, table).Some?;
      }
    case PointeeNode(id) =>
      var tags :| PointerTo(g, k, id, tags, table).Some?;
      if id in g.types && g.types[id].TypeTag? {
        assert PointerTo(g, k - 1, g.types[id].target, tags + {g.types[id].tag}, table).Some?;
      }
    case MembersNode(id) =>
      var start :| Gather(g, k, id, start, 0).Some?;
      var m :| m in Live(g, g.types[id].members) && b == MemberNode(g, m);
      assert Live(g, g.types[id].members)[0..] == Live(g, g.types[id].members);
      GatherInlined(g, k, id, start, 0, m);
  }

  predicate NoRecord(path: seq<Node>) {
    forall i :: 0 <= i < |path| ==> !path[i].RecordNode?
  }

  lemma {:induction false} FiniteChain(
      g: Graph, done: set<string>, k: nat, a: Node, path: seq<Node>, b: Node, table: Table) returns (l: nat)
    requires Finite(g, k, a, table) && EarlyChain(g, done, a, path, b)
    requires !a.RecordNode? && NoRecord(path) && !b.RecordNode?
    ensures l < k && Finite(g, l, b, table)
    decreases path
  {
    hide EarlyCall, Finite;
    FiniteStep(g, done, k, a, if path == [] then b else path[0], table);
    l := k - 1;
    if path != [] {
      l := FiniteChain(g, done, k - 1, path[0], path[1..], b, table);
    }
  }

  lemma {:induction false} NoFiniteLoop(g: Graph, done: set<string>, k: nat, a: Node, path: seq<Node>, table: Table)
    requires EarlyChain(g, done, a, path, a) && !a.RecordNode? && NoRecord(path)
    ensures !Finite(g, k, a, table)
    decreases k
  {
    hide EarlyChain, Finite;
    if Finite(g, k, a, table) {
      var l := FiniteChain(g, done, k, a, path, a, table);
      NoFiniteLoop(g, done, l, a, path, table);
    }
  }

  // Loops through a record: each of its records needs another one of them filled first.

  // The call comes to the record by early calls.
  ghost predicate Leads(g: Graph, done: set<string>, r: string, a: Node) {
    EarlyReaches(g, done, a, RecordNode(r))
  }

  // None of the records that lead to r has fields.
  ghost predicate Lacking(g: Graph, done: set<string>, r: string, table: Table) {
    forall name :: Leads(g, done, r, RecordNode(name)) ==> !HasFields(table, name)
  }

  lemma LeadsOn(g: Graph, done: set<string>, r: string, a: Node, b: Node)
    requires Leads(g, done, r, RecordNode(r)) && Leads(g, done, r, a)
    requires forall c :: EarlyCall(g, done, a, c) ==> c == b
    ensures Leads(g, done, r, b)
  {
    hide EarlyCall, EarlyReaches;
    var c := EarlyReachesVia(g, done, a, RecordNode(r));
  }

  lemma NoCallsLeadNowhere(g: Graph, done: set<string>, r: string, a: Node)
    requires forall c :: !EarlyCall(g, done, a, c)
    ensures !Leads(g, done, r, a)
  {
    hide EarlyCall, EarlyReaches;
    if Leads(g, done, r, a) {
      var c := EarlyReachesVia(g, done, a, RecordNode(r));
    }
  }

  lemma LackingWith(g: Graph, done: set<string>, r: string, table: Table, name: string, fields: seq<Field<SType>>)
    requires Lacking(g, done, r, table) && name in table && !Leads(g, done, r, RecordNode(name))
    ensures Lacking(g, done, r, SetFields(table, name, fields))
  {
    hide Leads;
  }

  lemma LackingAdded(g: Graph, done: set<string>, r: string, table: Table, name: string, size: nat)
    requires Lacking(g, done, r, table)
    ensures Lacking(g, done, r, LookupOrAdd(table, name, size))
  {
    hide Leads;
  }

  lemma {:induction false} TypeLoops(
      g: Graph, done: set<string>, r: string, k: nat, id: Id, resolve: bool, table: Table)
    requires WellFormed(g) && Consistent(g) && Leads(g, done, r, RecordNode(r)) && Lacking(g, done, r, table)
    ensures Leads(g, done, r, TypeNode(id, resolve)) ==> RunType(g, k, id, resolve, table).None?
    ensures RunType(g, k, id, resolve, table).Some? ==>
      Lacking(g, done, r, RunType(g, k, id, resolve, table).value.1)
    decreases k, 0
  {
    hide WellFormed, Consistent, Leads, Lacking, RunNamed, RunPointee;
    var a := TypeNode(id, resolve);
    if k > 0 {
      if id in g.types && g.types[id].Composite? && !Anonymous(g.types[id].name) {
        NamedLoops(g, done, r, k, id, resolve, table);
      } else if id in g.types && g.types[id].Ptr? {
        var target := g.types[id].target;
        PointeeLoops(g, done, r, k - 1, target, {}, table);
        if Leads(g, done, r, a) {
          LeadsOn(g, done, r, a, PointeeNode(target));
        }
      } else if id in g.types && g.types[id].Arr? {
        var elem := g.types[id].elem;
        TypeLoops(g, done, r, k - 1, elem, true, table);
        if Leads(g, done, r, a) {
          LeadsOn(g, done, r, a, TypeNode(elem, true));
        }
      } else if id in g.types && g.types[id].Modifier? {
        var target := g.types[id].target;
        TypeLoops(g, done, r, k - 1, target, resolve, table);
        if Leads(g, done, r, a) {
          LeadsOn(g, done, r, a, TypeNode(target, resolve));
        }
      } else {
        NoCallsLeadNowhere(g, done, r, a);
      }
    }
  }

  lemma {:induction false} NamedLoops(
      g: Graph, done: set<string>, r: string, k: nat, id: Id, resolve: bool, table: Table)
    requires WellFormed(g) && Consistent(g) && Leads(g, done, r, RecordNode(r)) && Lacking(g, done, r, table)
    requires k > 0 && IsComposite(g, id) && !Anonymous(g.types[id].name)
    ensures Leads(g, done, r, TypeNode(id, resolve)) ==> RunType(g, k, id, resolve, table).None?
    ensures RunType(g, k, id, resolve, table).Some? ==>
      Lacking(g, done, r, RunType(g, k, id, resolve, table).value.1)
    decreases k, 0, 0
  {
    hide WellFormed, Consistent, Leads, Lacking, RunRecord;
    var t, a := g.types[id], TypeNode(id, resolve);
    var full := RecordName(t.isStruct, t.name);
    LackingAdded(g, done, r, table, full, t.size);
    if resolve {
      RecordLoops(g, done, r, k - 1, full, LookupOrAdd(table, full, t.size));
      if Leads(g, done, r, a) {
        LeadsOn(g, done, r, a, RecordNode(full));
      }
    } else {
      NoCallsLeadNowhere(g, done, r, a);
    }
  }

  lemma {:induction false} PointeeLoops(
      g: Graph, done: set<string>, r: string, k: nat, id: Id, tags: set<string>, table: Table)
    requires WellFormed(g) && Consistent(g) && Leads(g, done, r, RecordNode(r)) && Lacking(g, done, r, table)
    ensures Leads(g, done, r, PointeeNode(id)) ==> RunPointee(g, k, id, tags, table).None?
    ensures RunPointee(g, k, id, tags, table).Some? ==>
      Lacking(g, done, r, RunPointee(g, k, id, tags, table).value.1)
    decreases k, 1
  {
    hide WellFormed, Consistent, Leads, Lacking, RunType;
    if k > 0 {
      if id in g.types && g.types[id].TypeTag? {
        var target := g.types[id].target;
        PointeeLoops(g, done, r, k - 1, target, tags + {g.types[id].tag}, table);
        if Leads(g, done, r, PointeeNode(id)) {
          LeadsOn(g, done, r, PointeeNode(id), PointeeNode(target));
        }
      } else {
        TypeLoops(g, done, r, k - 1, id, false, table);
        if Leads(g, done, r, PointeeNode(id)) {
          LeadsOn(g, done, r, PointeeNode(id), TypeNode(id, false));
        }
      }
    }
  }

  lemma {:induction false} RecordLoops(g: Graph, done: set<string>, r: string, k: nat, name: string, table: Table)
    requires WellFormed(g) && Consistent(g) && Leads(g, done, r, RecordNode(r)) && Lacking(g, done, r, table)
    requires name in table
    ensures Leads(g, done, r, RecordNode(name)) ==> RunRecord(g, k, name, table).None?
    ensures RunRecord(g, k, name, table).Some? ==> Lacking(g, done, r, RunRecord(g, k, name, table).value)
    decreases k, 1
  {
    hide WellFormed, Consistent, Leads, RunMembers;
    if Leads(g, done, r, RecordNode(name)) {
      assert !HasFields(table, name);
      if k > 0 {
        var c, s, ty := LeadingType(g, done, r, name);
        hide EarlyCall;
        MembersBlocked(g, done, r, s, k - 1, c, name, 0, table, 0, ty);
      } else {
        var c, s, ty := LeadingType(g, done, r, name);
      }
    } else if k > 0 && table[name].fields == [] && Find(g, name).Some? {
      FindIsComposite(g, name);
      MembersKeep(g, done, r, k - 1, Find(g, name).value, name, 0, table, 0);
    }
  }

  // A record that leads to r does so through one of its early types.
  lemma LeadingType(g: Graph, done: set<string>, r: string, name: string) returns (c: Id, s: nat, ty: Id)
    requires Leads(g, done, r, RecordNode(name))
    ensures Find(g, name) == Some(c) && IsComposite(g, c) && EarlyIn(g, s, c, ty) && name !in done
    ensures Leads(g, done, r, TypeNode(ty, true))
  {
    hide EarlyReaches, EarlyIn;
    var b := EarlyReachesVia(g, done, RecordNode(name), RecordNode(r));
    c, ty := Find(g, name).value, b.id;
    s :| EarlyIn(g, s, c, ty);
  }

  lemma {:induction false} MembersKeep(
      g: Graph, done: set<string>, r: string, k: nat, id: Id, name: string, start: nat, table: Table, i: nat)
    requires WellFormed(g) && Consistent(g) && Leads(g, done, r, RecordNode(r)) && Lacking(g, done, r, table)
    requires name in table && !Leads(g, done, r, RecordNode(name))
    requires IsComposite(g, id) && i <= |g.types[id].members|
    ensures RunMembers(g, k, id, name, start, table, i).Some? ==>
      Lacking(g, done, r, RunMembers(g, k, id, name, start, table, i).value)
    decreases k, 2 + |g.types[id].members| - i
  {
    hide WellFormed, Consistent, Leads, Lacking, RunMember, SetFields;
    var ms := g.types[id].members;
    if i < |ms| {
      if ms[i].ty !in g.types {
        LackingWith(g, done, r, table, name, []);
      } else if RunMember(g, k, ms[i], name, start, table).Some? {
        MemberKeeps(g, done, r, k, ms[i], name, start, table);
        MembersKeep(g, done, r, k, id, name, start, RunMember(g, k, ms[i], name, start, table).value, i + 1);
      }
    }
  }

  lemma {:induction false} MemberKeeps(
      g: Graph, done: set<string>, r: string, k: nat, m: Member, name: string, start: nat, table: Table)
    requires WellFormed(g) && Consistent(g) && Leads(g, done, r, RecordNode(r)) && Lacking(g, done, r, table)
    requires name in table && !Leads(g, done, r, RecordNode(name)) && RunMember(g, k, m, name, start, table).Some?
    ensures Lacking(g, done, r, RunMember(g, k, m, name, start, table).value)
    decreases k, 1
  {
    hide WellFormed, Consistent, Leads, Lacking, RunMembers, RunType, SetFields;
    var offset := start + m.bitOffset / 8;
    if Inlined(g, m) {
      MembersKeep(g, done, r, k - 1, m.ty, name, offset, table, 0);
    } else {
      TypeLoops(g, done, r, k, m.ty, true, table);
      var (t, mid) := RunType(g, k, m.ty, true, table).value;
      LackingWith(g, done, r, mid, name, AddField(mid[name].fields, Field(m.name, t, offset, BitfieldOf(m))));
    }
  }

  // Once the record has a field, no type is early.
  lemma {:induction false} NotEarly(g: Graph, s: nat, id: Id, i: nat)
    requires Consistent(g) && IsComposite(g, id) && i <= |g.types[id].members| && Early(g, s, id, false, i).Some?
    ensures Early(g, s, id, false, i) == Some(Scan({}, false))
    decreases s, |g.types[id].members| - i
  {
    hide Consistent;
    var ms := g.types[id].members;
    if i < |ms| {
      TypedMember(g, id, i);
      if Inlined(g, ms[i]) {
        NotEarly(g, s - 1, ms[i].ty, 0);
      }
      NotEarly(g, s, id, i + 1);
      assert EarlyMember(g, s, ms[i], false) == Some(Scan({}, false));
      assert {} + Early(g, s, id, false, i + 1).value.types == {};
    }
  }

  // Members that add no field change nothing.
  lemma {:induction false} BareSame(
      g: Graph, s: nat, k: nat, id: Id, name: string, start: nat, table: Table, i: nat)
    requires WellFormed(g) && Consistent(g) && name in table && IsComposite(g, id) && i <= |g.types[id].members|
    requires Early(g, s, id, true, i).Some? && Early(g, s, id, true, i).value.bare
    ensures RunMembers(g, k, id, name, start, table, i) in {None, Some(table)}
    decreases k, |g.types[id].members| - i
  {
    hide WellFormed, Consistent, RunType;
    var ms := g.types[id].members;
    if i < |ms| {
      TypedMember(g, id, i);
      if !EarlyMember(g, s, ms[i], true).value.bare {
        NotEarly(g, s, id, i + 1);
      }
      if k > 0 {
        BareSame(g, s - 1, k - 1, ms[i].ty, name, start + ms[i].bitOffset / 8, table, 0);
      }
      BareSame(g, s, k, id, name, start, table, i + 1);
    }
  }

  // A record whose first field needs r never gets it.
  lemma {:induction false} MembersBlocked(
      g: Graph, done: set<string>, r: string, s: nat, k: nat, id: Id, name: string, start: nat, table: Table, i: nat, ty: Id)
    requires WellFormed(g) && Consistent(g) && Leads(g, done, r, RecordNode(r)) && Lacking(g, done, r, table)
    requires name in table && IsComposite(g, id) && i <= |g.types[id].members|
    requires Early(g, s, id, true, i).Some? && ty in Early(g, s, id, true, i).value.types
    requires Leads(g, done, r, TypeNode(ty, true))
    ensures RunMembers(g, k, id, name, start, table, i).None?
    decreases k, 2 + |g.types[id].members| - i
  {
    hide WellFormed, Consistent, Leads, Lacking, RunType;
    var ms := g.types[id].members;
    TypedMember(g, id, i);
    var m, first := ms[i], EarlyMember(g, s, ms[i], true).value;
    if !first.bare {
      NotEarly(g, s, id, i + 1);
    }
    if !Inlined(g, m) {
      TypeLoops(g, done, r, k, ty, true, table);
    } else if k > 0 {
      var offset := start + m.bitOffset / 8;
      if ty in first.types {
        MembersBlocked(g, done, r, s - 1, k - 1, m.ty, name, offset, table, 0, ty);
      } else {
        BareSame(g, s - 1, k - 1, m.ty, name, offset, table, 0);
        MembersBlocked(g, done, r, s, k, id, name, start, table, i + 1, ty);
      }
    }
  }

  // The early type is that of the record's first field.

  lemma {:induction false} GatherAdds(g: Graph, s: nat, k: nat, id: Id, start: nat, i: nat)
    requires Consistent(g) && IsComposite(g, id) && i <= |g.types[id].members|
    requires Early(g, s, id, true, i).Some? && Gather(g, k, id, start, i).Some?
    ensures !Gather(g, k, id, start, i).value.cleared
    ensures var fields := Gather(g, k, id, start, i).value.fields;
      Early(g, s, id, true, i).value == if fields == [] then Scan({}, true) else Scan({fields[0].ty}, false)
    decreases k, |g.types[id].members| - i
  {
    hide Consistent;
    var ms := g.types[id].members;
    if i < |ms| {
      TypedMember(g, id, i);
      var m := ms[i];
      if Inlined(g, m) {
        GatherAdds(g, s - 1, k - 1, m.ty, start + m.bitOffset / 8, 0);
      }
      if EarlyMember(g, s, m, true).value.bare {
        GatherAdds(g, s, k, id, start, i + 1);
      } else {
        NotEarly(g, s, id, i + 1);
        Uncleared(g, k, id, start, i + 1);
      }
    }
  }

  lemma {:induction false} Uncleared(g: Graph, k: nat, id: Id, start: nat, i: nat)
    requires Consistent(g) && IsComposite(g, id) && i <= |g.types[id].members| && Gather(g, k, id, start, i).Some?
    ensures !Gather(g, k, id, start, i).value.cleared
    decreases k, |g.types[id].members| - i
  {
    hide Consistent;
    var ms := g.types[id].members;
    if i < |ms| {
      TypedMember(g, id, i);
      if Inlined(g, ms[i]) {
        Uncleared(g, k - 1, ms[i].ty, start + ms[i].bitOffset / 8, 0);
      }
      Uncleared(g, k, id, start, i + 1);
    }
  }

  // A record has an early type exactly when it must have fields, and it is the type of the first.
  lemma EarlyIsFirstField(g: Graph, name: string, fs: seq<Field<Id>>, ty: Id)
    requires WellFormed(g) && Consistent(g) && IsExpected(g, name, fs)
    ensures IsEarly(g, name, ty) <==> fs != [] && fs[0].ty == ty
  {
    hide WellFormed, Consistent;
    var k :| Expected(g, k, name) == Some(fs);
    if Find(g, name).Some? {
      FindIsComposite(g, name);
      var c := Find(g, name).value;
      var b := Gather(g, k, c, 0, 0).value;
      Uncleared(g, k, c, 0, 0);
      FirstStays([], b.fields);
      GatherScans(g, k, c, 0, true, 0);
      GatherAdds(g, k, k, c, 0, 0);
      if s :| EarlyIn(g, s, c, ty) {
        GatherAdds(g, s, k, c, 0, 0);
      }
      if fs != [] && fs[0].ty == ty {
        assert EarlyIn(g, k, c, ty);
      }
    }
  }

  lemma {:induction false} FirstStays(acc: seq<Field<Id>>, fields: seq<Field<Id>>)
    ensures acc != [] ==> AddAll(acc, fields) != [] && AddAll(acc, fields)[0] == acc[0]
    ensures acc == [] && fields != [] ==> AddAll(acc, fields) != [] && AddAll(acc, fields)[0] == fields[0]
    decreases |fields|
  {
    if fields != [] {
      FirstStays(AddField(acc, fields[0]), fields[1..]);
    }
  }

  // Gathering and scanning end alike.
  lemma {:induction false} GatherScans(g: Graph, k: nat, id: Id, start: nat, bare: bool, i: nat)
    requires IsComposite(g, id) && i <= |g.types[id].members| && Gather(g, k, id, start, i).Some?
    ensures Early(g, k, id, bare, i).Some?
    decreases k, |g.types[id].members| - i
  {
    var ms := g.types[id].members;
    if i < |ms| && ms[i].ty in g.types {
      if Inlined(g, ms[i]) {
        GatherScans(g, k - 1, ms[i].ty, start + ms[i].bitOffset / 8, bare, 0);
      }
      GatherScans(g, k, id, start, EarlyMember(g, k, ms[i], bare).value.bare, i + 1);
    }
  }

  lemma HeldHasFields(g: Graph, done: set<string>, r: string, table: Table)
    requires WellFormed(g) && Consistent(g) && Leads(g, done, r, RecordNode(r)) && Holds(g, table, r)
    ensures HasFields(table, r)
  {
    hide WellFormed, Consistent, Leads, Expected, Matches;
    var c, s, ty := LeadingType(g, done, r, r);
    var fs :| IsExpected(g, r, fs) && Filled(g, table, r, fs);
    assert IsEarly(g, r, ty);
    EarlyIsFirstField(g, r, fs, ty);
    var l :| Matches(g, l, fs, table[r].fields, table);
    assert |fs| == |table[r].fields| by { MatchedLength(g, l, fs, table[r].fields, table); }
  }

  lemma MatchedLength(g: Graph, k: nat, fs: seq<Field<Id>>, ss: seq<Field<SType>>, table: Table)
    requires Matches(g, k, fs, ss, table)
    ensures |fs| == |ss|
  {
  }

  // The condition is necessary.

  lemma {:induction false} SplitAt(g: Graph, done: set<string>, a: Node, path: seq<Node>, b: Node, i: nat)
    requires EarlyChain(g, done, a, path, b) && i < |path|
    ensures EarlyReaches(g, done, a, path[i]) && EarlyReaches(g, done, path[i], b)
    decreases path
  {
    hide EarlyCall, EarlyReaches;
    EarlyCallReaches(g, done, a, path[0]);
    assert EarlyReaches(g, done, path[0], b) by { ChainReaches(g, done, path[0], path[1..], b); }
    if i > 0 {
      SplitAt(g, done, path[0], path[1..], b, i - 1);
      EarlyReachesOn(g, done, a, path[0], path[i]);
    }
  }

  lemma ChainReaches(g: Graph, done: set<string>, a: Node, path: seq<Node>, b: Node)
    requires EarlyChain(g, done, a, path, b)
    ensures EarlyReaches(g, done, a, b)
  {
  }

  lemma SettledIsFinite(g: Graph, table: Table, a: Node)
    requires WellFormed(g) && Settled(g, table, a)
    ensures exists k :: Finite(g, k, a, table)
  {
    hide WellFormed, TypeOf, PointerTo, Gather, Present, Holds;
    match a
    case TypeNode(id, _) =>
      var k :| TypeSettled(g, k, id, table);
      assert Finite(g, k, a, table);
    case PointeeNode(id) =>
      var k, tags :| PointerSettled(g, k, id, tags, table);
      assert Finite(g, k, a, table);
    case RecordNode(_) =>
      assert Finite(g, 0, a, table);
    case MembersNode(id) =>
      if IsComposite(g, id) {
        var k, start :| Gather(g, k, id, start, 0).Some?;
        assert Finite(g, k, a, table);
      } else {
        assert Finite(g, 0, a, table);
      }
  }

  lemma NothingLeadsFrom(g: Graph, r: string, table: Table)
    ensures Lacking(g, FilledNames(table), r, table)
  {
    hide Leads;
    forall name | Leads(g, FilledNames(table), r, RecordNode(name)) ensures !HasFields(table, name) {
      var c, s, ty := LeadingType(g, FilledNames(table), r, name);
    }
  }

  lemma ReachedIsSettled(g: Graph, done: set<string>, table: Table, a: Node, b: Node)
    requires WellFormed(g) && AllSettled(g, table, {}, a) && (b == a || ReachesPast(g, done, a, b))
    ensures Settled(g, table, b)
  {
    hide WellFormed, Settled;
    if b != a {
      var path :| ChainPast(g, a, path, b, done);
      ChainPastFewer(g, a, path, b, {}, done);
    }
  }

  lemma EndsWithoutLoop(g: Graph, id: Id, resolve: bool, table: Table)
    requires WellFormed(g) && Consistent(g) && Sound(g, table, {}) && Ends(g, id, resolve, table)
    ensures NoLoop(g, FilledNames(table), TypeNode(id, resolve))
  {
    hide WellFormed, Consistent, Sound, RunType, Good, Settled, EarlyReaches, ReachesPast;
    var root, done := TypeNode(id, resolve), FilledNames(table);
    var k :| RunType(g, k, id, resolve, table).Some?;
    var now := RunType(g, k, id, resolve, table).value.1;
    TypeCorrect(g, k, id, resolve, table, {});
    assert AllSettled(g, now, {}, root) by { GoodSettles(g, table, now, root); }
    hide AllSettled, FilledNames;
    forall b | b == root || ReachesPast(g, done, root, b) ensures !EarlyReaches(g, done, b, b) {
      if EarlyReaches(g, done, b, b) {
        NoLoopAt(g, k, id, resolve, table, now, b);
      }
    }
  }

  lemma GoodSettles(g: Graph, was: Table, now: Table, a: Node)
    requires WellFormed(g) && Good(g, was, now, {}, a)
    ensures AllSettled(g, now, {}, a)
  {
    hide AllSettled, Sound, OpenFrame, ClosedKept;
  }

  lemma NoLoopAt(g: Graph, k: nat, id: Id, resolve: bool, table: Table, now: Table, b: Node)
    requires WellFormed(g) && Consistent(g) && RunType(g, k, id, resolve, table).Some?
    requires now == RunType(g, k, id, resolve, table).value.1 && AllSettled(g, now, {}, TypeNode(id, resolve))
    requires b == TypeNode(id, resolve) || ReachesPast(g, FilledNames(table), TypeNode(id, resolve), b)
    ensures !EarlyReaches(g, FilledNames(table), b, b)
  {
    hide WellFormed, Consistent, RunType, AllSettled, FilledNames, ReachesPast, EarlyChain, Settled, Finite, Holds;
    var root, done := TypeNode(id, resolve), FilledNames(table);
    if path: seq<Node> :| EarlyChain(g, done, b, path, b) {
      if b.RecordNode? {
        RecordNeverFilled(g, k, id, resolve, table, now, b.name);
      } else if i: nat :| i < |path| && path[i].RecordNode? {
        SplitAt(g, done, b, path, b, i);
        EarlyReachesOn(g, done, path[i], b, path[i]);
        var more :| EarlyChain(g, done, b, more, path[i]);
        EarlyChainIsReached(g, done, b, more, path[i]);
        if b != root {
          ReachesPastOn(g, done, root, b, path[i]);
        }
        RecordNeverFilled(g, k, id, resolve, table, now, path[i].name);
      } else {
        ReachedIsSettled(g, done, now, root, b);
        SettledIsFinite(g, now, b);
        var l :| Finite(g, l, b, now);
        NoFiniteLoop(g, done, l, b, path, now);
      }
    }
  }

  lemma RecordNeverFilled(g: Graph, k: nat, id: Id, resolve: bool, table: Table, now: Table, r: string)
    requires WellFormed(g) && Consistent(g) && RunType(g, k, id, resolve, table).Some?
    requires now == RunType(g, k, id, resolve, table).value.1 && AllSettled(g, now, {}, TypeNode(id, resolve))
    requires ReachesPast(g, FilledNames(table), TypeNode(id, resolve), RecordNode(r))
    ensures !EarlyReaches(g, FilledNames(table), RecordNode(r), RecordNode(r))
  {
    hide WellFormed, Consistent, RunType, AllSettled, FilledNames, ReachesPast, EarlyReaches, Holds;
    var done := FilledNames(table);
    if EarlyReaches(g, done, RecordNode(r), RecordNode(r)) {
      ReachedIsSettled(g, done, now, TypeNode(id, resolve), RecordNode(r));
      HeldHasFields(g, done, r, now);
      NothingLeadsFrom(g, r, table);
      TypeLoops(g, done, r, k, id, resolve, table);
    }
  }

  // On consistent type information, the import ends exactly when no call that it leads to comes back
  // to itself by early calls.
  lemma EndsIffNoLoop(g: Graph, id: Id, resolve: bool, table: Table)
    requires WellFormed(g) && Consistent(g) && Sound(g, table, {})
    ensures Ends(g, id, resolve, table) <==> NoLoop(g, FilledNames(table), TypeNode(id, resolve))
  {
    hide WellFormed, Consistent, Sound, Ends, NoLoop;
    if Ends(g, id, resolve, table) {
      EndsWithoutLoop(g, id, resolve, table);
    }
    if NoLoop(g, FilledNames(table), TypeNode(id, resolve)) {
      NoLoopEnds(g, id, resolve, table);
    }
  }
}
