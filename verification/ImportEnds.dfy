/**
 An import ends if no call that it leads to comes back to itself by early calls: a record is needed
 again only after it has got a field, and then it is left alone.
 */
module ImportEnds {
  import opened Prelude
  import opened TypeGraph
  import opened RecordFields
  import opened TypeRuns
  import opened TypeFrames
  import opened EarlyCalls

  // The import ends: some number of nested calls is enough.
  ghost predicate Ends(g: Graph, id: Id, resolve: bool, table: Table)
    requires WellFormed(g)
  {
    exists k :: RunType(g, k, id, resolve, table).Some?
  }

  predicate HasFields(table: Table, name: string) {
    name in table && table[name].fields != []
  }

  ghost predicate Fills(table: Table, done: set<string>) {
    forall name :: name in done ==> HasFields(table, name)
  }

  function Names(g: Graph): set<string> {
    set id | id in g.types && g.types[id].Composite? :: RecordName(g.types[id].isStruct, g.types[id].name)
  }

  function Unfilled(g: Graph, table: Table): set<string> {
    set name | name in Names(g) && !HasFields(table, name)
  }

  // How the table stands between calls: `left` are the records that may still be filled.
  ghost predicate Stands(g: Graph, table: Table, left: set<string>, done: set<string>) {
    Unfilled(g, table) <= left && Fills(table, done)
  }

  lemma StandsAfter(g: Graph, was: Table, now: Table, from: Node, left: set<string>, done: set<string>)
    requires Stands(g, was, left, done) && Evolves(g, was, now, from, None)
    ensures Stands(g, now, left, done)
    ensures forall name :: HasFields(was, name) ==> HasFields(now, name)
  {
    hide Covers, SizesDeclared, Names;
  }

  lemma StandsWith(g: Graph, table: Table, name: string, fields: seq<Field<SType>>, left: set<string>, done: set<string>)
    requires Stands(g, table, left, done) && name in table && name in left && name !in done
    ensures Stands(g, SetFields(table, name, fields), left, done)
  {
    hide Names;
  }

  lemma StandsAdded(g: Graph, table: Table, name: string, size: nat, left: set<string>, done: set<string>)
    requires Stands(g, table, left, done)
    ensures Stands(g, LookupOrAdd(table, name, size), left, done)
  {
    hide Names;
  }

  // A record with fields is not left.
  lemma StandsWithout(g: Graph, table: Table, name: string, left: set<string>, done: set<string>)
    requires Stands(g, table, left, done) && HasFields(table, name)
    ensures Stands(g, table, left - {name}, done)
  {
    hide Names;
  }

  // The scan of the members.

  lemma {:induction false} EarlyMore(g: Graph, k: nat, l: nat, id: Id, bare: bool, i: nat)
    requires IsComposite(g, id) && i <= |g.types[id].members|
    requires k <= l && Early(g, k, id, bare, i).Some?
    ensures Early(g, l, id, bare, i) == Early(g, k, id, bare, i)
    decreases k, 1 + |g.types[id].members| - i
  {
    var ms := g.types[id].members;
    if i < |ms| && ms[i].ty in g.types {
      EarlyMemberMore(g, k, l, ms[i], bare);
      EarlyMore(g, k, l, id, EarlyMember(g, k, ms[i], bare).value.bare, i + 1);
    }
  }

  lemma {:induction false} EarlyMemberMore(g: Graph, k: nat, l: nat, m: Member, bare: bool)
    requires k <= l && EarlyMember(g, k, m, bare).Some?
    ensures EarlyMember(g, l, m, bare) == EarlyMember(g, k, m, bare)
    decreases k, 0
  {
    if Inlined(g, m) {
      EarlyMore(g, k - 1, l - 1, m.ty, bare, 0);
    }
  }

  lemma InlinedRank(g: Graph, done: set<string>, id: Id, i: nat)
    requires IsComposite(g, id) && i < |Live(g, g.types[id].members)| && NoLoop(g, done, MembersNode(id))
    ensures var m := g.types[id].members[i];
      && NoLoop(g, done, MemberNode(g, m))
      && (Inlined(g, m) ==> Rank(g, done, MembersNode(m.ty)) < Rank(g, done, MembersNode(id)))
  {
    hide Calls, NoLoop, Rank, EarlyReaches, Live;
    var m := g.types[id].members[i];
    MemberIsCalled(g, id, i);
    NoLoopStep(g, done, MembersNode(id), MemberNode(g, m));
    if Inlined(g, m) {
      NoLoopHere(g, done, MembersNode(m.ty));
      RankShrinks(g, done, MembersNode(id), MembersNode(m.ty));
    }
  }

  lemma NoLoopHere(g: Graph, done: set<string>, a: Node)
    requires NoLoop(g, done, a)
    ensures !EarlyReaches(g, done, a, a)
  {
    hide EarlyReaches, ReachesPast;
  }

  lemma {:induction false} ScanEnds(g: Graph, done: set<string>, id: Id, bare: bool, i: nat) returns (k: nat)
    requires IsComposite(g, id) && i <= |Live(g, g.types[id].members)| && NoLoop(g, done, MembersNode(id))
    ensures Early(g, k, id, bare, i).Some?
    decreases Rank(g, done, MembersNode(id)), |g.types[id].members| - i
  {
    hide NoLoop, Rank, Live, EarlyMember;
    var ms := g.types[id].members;
    if i < |Live(g, ms)| {
      LiveAt(g, ms, i);
      InlinedRank(g, done, id, i);
      var k1 := MemberScanEnds(g, done, id, bare, i);
      var k2 := ScanEnds(g, done, id, EarlyMember(g, k1, ms[i], bare).value.bare, i + 1);
      k := if k1 < k2 then k2 else k1;
      EarlyMemberMore(g, k1, k, ms[i], bare);
      EarlyMore(g, k2, k, id, EarlyMember(g, k1, ms[i], bare).value.bare, i + 1);
    } else {
      k := 0;
    }
  }

  lemma {:induction false} MemberScanEnds(g: Graph, done: set<string>, id: Id, bare: bool, i: nat) returns (k: nat)
    requires IsComposite(g, id) && i < |Live(g, g.types[id].members)| && NoLoop(g, done, MembersNode(id))
    ensures EarlyMember(g, k, g.types[id].members[i], bare).Some?
    decreases Rank(g, done, MembersNode(id)), |g.types[id].members| - i, 0
  {
    hide NoLoop, Rank, Live, Early;
    var m := g.types[id].members[i];
    InlinedRank(g, done, id, i);
    if Inlined(g, m) {
      k := ScanEnds(g, done, m.ty, bare, 0);
      k := k + 1;
    } else {
      k := 0;
    }
  }

  // The import, by the records left, the early calls reached, and the members scanned.

  lemma {:induction false} TypeEnds(
      g: Graph, done: set<string>, left: set<string>, id: Id, resolve: bool, table: Table) returns (k: nat)
    requires WellFormed(g) && NoLoop(g, done, TypeNode(id, resolve)) && Stands(g, table, left, done)
    ensures RunType(g, k, id, resolve, table).Some?
    decreases |left|, Rank(g, done, TypeNode(id, resolve)), 2
  {
    hide WellFormed, NoLoop, Rank, Stands, RunNamed, RunPointee, Calls;
    k := 1;
    if id in g.types {
      var t, from := g.types[id], TypeNode(id, resolve);
      if t.Composite? && !Anonymous(t.name) {
        k := NamedEnds(g, done, left, id, resolve, table);
      } else if t.Ptr? {
        Descends(g, done, from, PointeeNode(t.target));
        k := PointeeEnds(g, done, left, t.target, {}, table);
        k := k + 1;
      } else if t.Arr? {
        Descends(g, done, from, TypeNode(t.elem, true));
        k := TypeEnds(g, done, left, t.elem, true, table);
        k := k + 1;
      } else if t.Modifier? {
        Descends(g, done, from, TypeNode(t.target, resolve));
        k := TypeEnds(g, done, left, t.target, resolve, table);
        k := k + 1;
      }
    }
  }

  lemma Descends(g: Graph, done: set<string>, a: Node, b: Node)
    requires NoLoop(g, done, a) && (a.TypeNode? || a.PointeeNode?) && CallOf(g, a, b)
    ensures NoLoop(g, done, b) && Rank(g, done, b) < Rank(g, done, a)
  {
    assert Calls(g, a, b);
    hide NoLoop, Rank, Calls, EarlyReaches, CallOf;
    NoLoopStep(g, done, a, b);
    NoLoopHere(g, done, b);
    RankShrinks(g, done, a, b);
  }

  // The only call of a type.
  predicate CallOf(g: Graph, a: Node, b: Node)
    requires a.TypeNode? || a.PointeeNode?
  {
    if a.TypeNode? then
      a.id in g.types &&
      var t := g.types[a.id];
      || (t.Ptr? && b == PointeeNode(t.target))
      || (t.Arr? && b == TypeNode(t.elem, true))
      || (t.Modifier? && b == TypeNode(t.target, a.resolve))
      || (t.Composite? && a.resolve && !Anonymous(t.name) && b == RecordNode(RecordName(t.isStruct, t.name)))
    else if a.id in g.types && g.types[a.id].TypeTag? then b == PointeeNode(g.types[a.id].target)
    else b == TypeNode(a.id, false)
  }

  lemma {:induction false} NamedEnds(
      g: Graph, done: set<string>, left: set<string>, id: Id, resolve: bool, table: Table) returns (k: nat)
    requires WellFormed(g) && NoLoop(g, done, TypeNode(id, resolve)) && Stands(g, table, left, done)
    requires IsComposite(g, id) && !Anonymous(g.types[id].name)
    ensures RunType(g, k, id, resolve, table).Some?
    decreases |left|, Rank(g, done, TypeNode(id, resolve)), 1
  {
    hide WellFormed, NoLoop, Rank, Stands, RunRecord, Calls;
    var t := g.types[id];
    var full := RecordName(t.isStruct, t.name);
    StandsAdded(g, table, full, t.size, left, done);
    k := 1;
    if resolve {
      Descends(g, done, TypeNode(id, true), RecordNode(full));
      assert full in Names(g);
      k := RecordEnds(g, done, left, full, LookupOrAdd(table, full, t.size));
      k := k + 1;
    }
  }

  lemma {:induction false} PointeeEnds(
      g: Graph, done: set<string>, left: set<string>, id: Id, tags: set<string>, table: Table) returns (k: nat)
    requires WellFormed(g) && NoLoop(g, done, PointeeNode(id)) && Stands(g, table, left, done)
    ensures RunPointee(g, k, id, tags, table).Some?
    decreases |left|, Rank(g, done, PointeeNode(id)), 2
  {
    hide WellFormed, NoLoop, Rank, Stands, RunType, Calls;
    if id in g.types && g.types[id].TypeTag? {
      Descends(g, done, PointeeNode(id), PointeeNode(g.types[id].target));
      k := PointeeEnds(g, done, left, g.types[id].target, tags + {g.types[id].tag}, table);
    } else {
      Descends(g, done, PointeeNode(id), TypeNode(id, false));
      k := TypeEnds(g, done, left, id, false, table);
    }
    k := k + 1;
  }

  lemma {:induction false} RecordEnds(g: Graph, done: set<string>, left: set<string>, name: string, table: Table)
      returns (k: nat)
    requires WellFormed(g) && NoLoop(g, done, RecordNode(name)) && Stands(g, table, left, done)
    requires name in table && name in Names(g)
    ensures RunRecord(g, k, name, table).Some?
    decreases |left|, Rank(g, done, RecordNode(name)), 1
  {
    hide WellFormed, NoLoop, Rank, Names, RunMembers, Calls;
    k := 0;
    if table[name].fields == [] && Find(g, name).Some? {
      FindIsComposite(g, name);
      var c := Find(g, name).value;
      FoundIsCalled(g, name);
      NoLoopStep(g, done, RecordNode(name), MembersNode(c));
      var s := ScanEnds(g, done, c, true, 0);
      forall ty | ty in Early(g, s, c, true, 0).value.types
        ensures EarlyCall(g, done, RecordNode(name), TypeNode(ty, true))
      {
        assert EarlyIn(g, s, c, ty);
      }
      k := MembersEnd(g, done, left, s, c, name, 0, table, true, 0);
      k := k + 1;
    }
  }

  // What a call from the members of a record may rely on.
  ghost predicate Filling(g: Graph, done: set<string>, left: set<string>, name: string, table: Table, bare: bool) {
    && name in table && name in left && name !in done && Stands(g, table, left, done)
    && (table[name].fields == [] ==> bare)
  }

  lemma {:induction false} MembersEnd(
      g: Graph, done: set<string>, left: set<string>, s: nat, id: Id, name: string, start: nat, table: Table, bare: bool,
      i: nat) returns (k: nat)
    requires WellFormed(g) && IsComposite(g, id) && i <= |Live(g, g.types[id].members)|
    requires NoLoop(g, done, MembersNode(id)) && Filling(g, done, left, name, table, bare)
    requires Early(g, s, id, bare, i).Some?
    requires forall ty :: ty in Early(g, s, id, bare, i).value.types ==>
      EarlyCall(g, done, RecordNode(name), TypeNode(ty, true))
    ensures RunMembers(g, k, id, name, start, table, i).Some?
    ensures Filling(g, done, left, name, RunMembers(g, k, id, name, start, table, i).value,
                    Early(g, s, id, bare, i).value.bare)
    decreases |left|, Rank(g, done, RecordNode(name)), 0, s, 1 + |g.types[id].members| - i
  {
    hide WellFormed, NoLoop, Rank, EarlyCall, Live, RunMember, EarlyMember, Stands, SetFields;
    var ms := g.types[id].members;
    k := 0;
    if i < |Live(g, ms)| {
      LiveAt(g, ms, i);
      var first := EarlyMember(g, s, ms[i], bare).value;
      var k1 := MemberEnds(g, done, left, s, id, name, start, table, bare, i);
      var mid := RunMember(g, k1, ms[i], name, start, table).value;
      var k2 := MembersEnd(g, done, left, s, id, name, start, mid, first.bare, i + 1);
      k := if k1 < k2 then k2 else k1;
      RunMemberMore(g, k1, k, ms[i], name, start, table);
      RunMembersMore(g, k2, k, id, name, start, mid, i + 1);
    } else if i < |ms| {
      StandsWith(g, table, name, [], left, done);
      assert name in SetFields(table, name, []) by { SetIsThere(table, name, []); }
    }
  }

  lemma SetIsThere(table: Table, name: string, fields: seq<Field<SType>>)
    requires name in table
    ensures name in SetFields(table, name, fields) && SetFields(table, name, fields)[name].fields == fields
  {
  }

  lemma {:induction false} MemberEnds(
      g: Graph, done: set<string>, left: set<string>, s: nat, id: Id, name: string, start: nat, table: Table, bare: bool,
      i: nat) returns (k: nat)
    requires WellFormed(g) && IsComposite(g, id) && i < |Live(g, g.types[id].members)|
    requires NoLoop(g, done, MembersNode(id)) && Filling(g, done, left, name, table, bare)
    requires EarlyMember(g, s, g.types[id].members[i], bare).Some?
    requires forall ty :: ty in EarlyMember(g, s, g.types[id].members[i], bare).value.types ==>
      EarlyCall(g, done, RecordNode(name), TypeNode(ty, true))
    ensures RunMember(g, k, g.types[id].members[i], name, start, table).Some?
    ensures Filling(g, done, left, name, RunMember(g, k, g.types[id].members[i], name, start, table).value,
                    EarlyMember(g, s, g.types[id].members[i], bare).value.bare)
    decreases |left|, Rank(g, done, RecordNode(name)), 0, s, 0
  {
    hide WellFormed, NoLoop, Rank, EarlyCall, Live, Early, RunMembers, RunType, Stands, SetFields, Calls;
    var m := g.types[id].members[i];
    MemberIsCalled(g, id, i);
    NoLoopStep(g, done, MembersNode(id), MemberNode(g, m));
    var offset := start + m.bitOffset / 8;
    if Inlined(g, m) {
      k := MembersEnd(g, done, left, s - 1, m.ty, name, offset, table, bare, 0);
      k := k + 1;
    } else {
      if table[name].fields == [] {
        EarlyDescends(g, done, name, m.ty);
        k := TypeEnds(g, done, left, m.ty, true, table);
      } else {
        StandsWithout(g, table, name, left, done);
        k := TypeEnds(g, done, left - {name}, m.ty, true, table);
      }
      var (t, mid) := RunType(g, k, m.ty, true, table).value;
      TypeEvolves(g, k, m.ty, true, table);
      StandsAfter(g, table, mid, TypeNode(m.ty, true), left, done);
      AddedStands(g, mid, name, Field(m.name, t, offset, BitfieldOf(m)), left, done);
    }
  }

  lemma EarlyDescends(g: Graph, done: set<string>, name: string, ty: Id)
    requires EarlyCall(g, done, RecordNode(name), TypeNode(ty, true)) && NoLoop(g, done, TypeNode(ty, true))
    ensures Rank(g, done, TypeNode(ty, true)) < Rank(g, done, RecordNode(name))
  {
    hide NoLoop, Rank, EarlyCall, EarlyReaches;
    NoLoopHere(g, done, TypeNode(ty, true));
    RankShrinks(g, done, RecordNode(name), TypeNode(ty, true));
  }

  lemma AddedStands(g: Graph, table: Table, name: string, f: Field<SType>, left: set<string>, done: set<string>)
    requires Stands(g, table, left, done) && name in table && name in left && name !in done
    ensures Filling(g, done, left, name, AddFieldTo(table, name, f), false)
  {
    hide Stands;
    StandsWith(g, table, name, AddField(table[name].fields, f), left, done);
  }

  // Whatever the table holds: if no call comes back to itself by early calls, the import ends.
  lemma NoLoopEnds(g: Graph, id: Id, resolve: bool, table: Table)
    requires WellFormed(g) && NoLoop(g, FilledNames(table), TypeNode(id, resolve))
    ensures Ends(g, id, resolve, table)
  {
    hide WellFormed, NoLoop, RunType, Names;
    var k := TypeEnds(g, FilledNames(table), Unfilled(g, table), id, resolve, table);
  }

  // The records that have fields.
  function FilledNames(table: Table): set<string> {
    set name | name in table && table[name].fields != []
  }

  // A type that can be imported can be imported later, too: no import makes a loop.
  lemma EndsLater(g: Graph, id: Id, resolve: bool, was: Table, now: Table, from: Node)
    requires WellFormed(g) && NoLoop(g, FilledNames(was), TypeNode(id, resolve)) && Evolves(g, was, now, from, None)
    ensures NoLoop(g, FilledNames(now), TypeNode(id, resolve)) && Ends(g, id, resolve, now)
  {
    hide WellFormed, NoLoop, Covers, SizesDeclared, RunType;
    NoLoopKept(g, FilledNames(was), FilledNames(now), TypeNode(id, resolve));
    NoLoopEnds(g, id, resolve, now);
  }
}
