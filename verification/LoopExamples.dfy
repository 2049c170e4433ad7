/**
 Four records that refer to themselves, at the edge of the condition for an import to end.
 */
module LoopExamples {
  import opened Prelude
  import opened TypeGraph
  import opened RecordFields
  import opened TypeRuns
  import opened EarlyCalls
  import opened ImportEnds
  import opened ImportLoops

  const LIST := "struct list"

  function Listed(types: map<Id, BtfType>): Graph {
    Graph(types, map["list" := 1], map[])
  }

  lemma FindsList(types: map<Id, BtfType>)
    ensures Find(Listed(types), LIST) == Some(1)
  {
    StripName(true, "list");
    assert RecordName(true, "list") == LIST;
  }

  // struct list { struct list *next; }
  function SelfPointer(): Graph {
    Listed(map[1 := Composite(true, "list", 8, [Member("next", 2, 0, 0)]), 2 := Ptr(1)])
  }

  // The pointer cuts the cycle.
  lemma SelfPointerEnds(table: Table)
    ensures WellFormed(SelfPointer()) && Ends(SelfPointer(), 1, true, table)
  {
    var g, done := SelfPointer(), FilledNames(table);
    assert WellFormed(g);
    forall a, b | EarlyCall(g, done, a, b) ensures PointerMeasure(b) < PointerMeasure(a) {
      SelfPointerDescends(done, a, b);
    }
    hide *;
    MeasuredHasNoLoop(g, done, PointerMeasure, TypeNode(1, true));
    NoLoopEnds(g, 1, true, table);
  }

  function PointerMeasure(a: Node): nat {
    match a
    case TypeNode(id, resolve) => if id == 2 then 2 else if id == 1 && resolve then 4 else 0
    case PointeeNode(id) => if id == 2 then 3 else 1
    case RecordNode(_) => 3
    case MembersNode(_) => 0
  }

  lemma SelfPointerDescends(done: set<string>, a: Node, b: Node)
    requires EarlyCall(SelfPointer(), done, a, b)
    ensures PointerMeasure(b) < PointerMeasure(a)
  {
    if a.RecordNode? {
      FirstMember(SelfPointer(), a.name, b.id);
    }
  }

  // The first member's type is the only early one.
  lemma FirstMember(g: Graph, name: string, ty: Id)
    requires WellFormed(g) && Consistent(g) && IsEarly(g, name, ty)
    requires var ms := g.types[Find(g, name).value].members;
      ms != [] && forall i :: 0 <= i < |ms| ==> !Inlined(g, ms[i])
    ensures ty == g.types[Find(g, name).value].members[0].ty
  {
    hide WellFormed, Consistent;
    var id := Find(g, name).value;
    var m := g.types[id].members[0];
    TypedMember(g, id, 0);
    var k :| EarlyIn(g, k, id, ty);
    assert EarlyMember(g, k, m, true) == Some(Scan({m.ty}, false));
    NotEarly(g, k, id, 1);
  }

  // struct list { struct list (*next)[4]; }
  function SelfArray(): Graph {
    Listed(map[1 := Composite(true, "list", 8, [Member("next", 2, 0, 0)]), 2 := Ptr(3), 3 := Arr(1, 4)])
  }

  // struct list { int key; struct list (*next)[4]; }
  function LaterArray(): Graph {
    Listed(map[1 := Composite(true, "list", 16, [Member("key", 4, 0, 0), Member("next", 2, 64, 0)]),
               2 := Ptr(3), 3 := Arr(1, 4), 4 := Int(32, true, false)])
  }

  // From a member's type, a pointer to an array, to the record that is the array's element.
  lemma ArrayPointerCalls(g: Graph, done: set<string>, id: Id, arr: Id, elem: Id, name: string)
    requires id in g.types && g.types[id] == Ptr(arr) && arr in g.types && g.types[arr].Arr?
    requires g.types[arr].elem == elem && IsComposite(g, elem) && !Anonymous(g.types[elem].name)
    requires RecordName(g.types[elem].isStruct, g.types[elem].name) == name
    ensures EarlyReaches(g, done, TypeNode(id, true), TypeNode(elem, true))
    ensures EarlyReaches(g, done, TypeNode(elem, true), RecordNode(name))
  {
    hide IsEarly, EarlyReaches, RecordName;
    EarlyCallReaches(g, done, TypeNode(id, true), PointeeNode(arr));
    EarlyCallReaches(g, done, PointeeNode(arr), TypeNode(arr, false));
    EarlyCallReaches(g, done, TypeNode(arr, false), TypeNode(elem, true));
    EarlyCallReaches(g, done, TypeNode(elem, true), RecordNode(name));
    EarlyReachesOn(g, done, TypeNode(id, true), PointeeNode(arr), TypeNode(arr, false));
    EarlyReachesOn(g, done, TypeNode(id, true), TypeNode(arr, false), TypeNode(elem, true));
  }

  lemma RecordCalls(g: Graph, done: set<string>, name: string, ty: Id)
    requires IsEarly(g, name, ty) && name !in done
    ensures EarlyReaches(g, done, RecordNode(name), TypeNode(ty, true))
  {
    hide IsEarly, EarlyReaches;
    EarlyCallReaches(g, done, RecordNode(name), TypeNode(ty, true));
  }

  // A pointer to an array does not cut the cycle: the elements are imported with their fields, and
  // the record has none yet.  No number of nested calls is enough.
  lemma SelfArrayNeverEnds()
    ensures WellFormed(SelfArray()) && forall k :: RunType(SelfArray(), k, 1, true, map[]).None?
  {
    var g, r, e := SelfArray(), RecordNode(LIST), TypeNode(1, true);
    assert WellFormed(g) && Consistent(g) && RecordName(true, "list") == LIST;
    SelfArrayFirst();
    ArrayPointerCalls(g, {}, 2, 3, 1, LIST);
    hide *;
    RecordCalls(g, {}, LIST, 2);
    EarlyReachesOn(g, {}, e, r, TypeNode(2, true));
    EarlyReachesOn(g, {}, e, TypeNode(2, true), e);
    LoopNeverEnds(g, 1);
  }

  lemma LoopNeverEnds(g: Graph, id: Id)
    requires WellFormed(g) && Consistent(g) && EarlyReaches(g, {}, TypeNode(id, true), TypeNode(id, true))
    ensures forall k :: RunType(g, k, id, true, map[]).None?
  {
    hide WellFormed, Consistent, RunType, EarlyReaches, ReachesPast;
    EndsIffNoLoop(g, id, true, map[]);
    assert FilledNames(map[]) == {};
  }

  lemma SelfArrayFirst()
    ensures IsEarly(SelfArray(), LIST, 2)
  {
    var g := SelfArray();
    FindsList(g.types);
    assert EarlyMember(g, 0, g.types[1].members[0], true) == Some(Scan({2}, false));
    assert Early(g, 0, 1, false, 1) == Some(Scan({}, false));
    assert EarlyIn(g, 0, 1, 2);
  }

  // With a field in front, the record is found filled: the calls lead back to it, and the import
  // ends all the same.
  lemma LaterArrayEnds(table: Table)
    ensures WellFormed(LaterArray()) && Ends(LaterArray(), 1, true, table)
    ensures Reaches(LaterArray(), RecordNode(LIST), RecordNode(LIST))
  {
    var g, done := LaterArray(), FilledNames(table);
    LaterArrayCycles();
    assert WellFormed(g);
    forall a, b | EarlyCall(g, done, a, b) ensures ArrayMeasure(b) < ArrayMeasure(a) {
      LaterArrayDescends(done, a, b);
    }
    hide *;
    MeasuredHasNoLoop(g, done, ArrayMeasure, TypeNode(1, true));
    NoLoopEnds(g, 1, true, table);
  }

  function ArrayMeasure(a: Node): nat {
    match a
    case TypeNode(id, resolve) => if id == 2 then 5 else if id == 3 then 3 else if id == 1 && resolve then 2 else 0
    case PointeeNode(id) => if id == 2 then 6 else if id == 3 then 4 else 1
    case RecordNode(_) => 1
    case MembersNode(_) => 0
  }

  lemma LaterArrayDescends(done: set<string>, a: Node, b: Node)
    requires EarlyCall(LaterArray(), done, a, b)
    ensures ArrayMeasure(b) < ArrayMeasure(a)
  {
    if a.RecordNode? {
      FirstMember(LaterArray(), a.name, b.id);
    }
  }

  lemma LaterArrayCycles()
    ensures Reaches(LaterArray(), RecordNode(LIST), RecordNode(LIST))
  {
    var g, r := LaterArray(), RecordNode(LIST);
    FindsList(g.types);
    assert RecordName(true, "list") == LIST;
    var ms, f, p := MembersNode(1), TypeNode(2, true), PointeeNode(3);
    var q, e := TypeNode(3, false), TypeNode(1, true);
    assert Calls(g, r, ms) && Calls(g, f, p) && Calls(g, p, q) && Calls(g, q, e) && Calls(g, e, r);
    assert Calls(g, ms, f) by { LaterMember(); }
    hide *;
    CallReaches(g, e, r);
    CallReaches(g, q, e);
    CallReaches(g, p, q);
    CallReaches(g, f, p);
    CallReaches(g, ms, f);
    CallReaches(g, r, ms);
  }

  lemma LaterMember()
    ensures Calls(LaterArray(), MembersNode(1), TypeNode(2, true))
  {
    var g := LaterArray();
    var all := g.types[1].members;
    assert Live(g, all[1..][1..]) == [] && Live(g, all[1..]) == [all[1]];
    MemberIsCalled(g, 1, 1);
  }

  // struct list { int key; struct node (*first)[1]; struct { ? }; struct node (*last)[1]; }
  // struct node { struct list (*owner)[1]; }
  function Cleared(): Graph {
    Graph(map[1 := Composite(true, "list", 24, [Member("key", 4, 0, 0), Member("first", 2, 64, 0), Member("", 8, 128, 0),
                                                Member("last", 2, 128, 0)]),
              2 := Ptr(3), 3 := Arr(5, 1), 4 := Int(32, true, false),
              5 := Composite(true, "node", 8, [Member("owner", 6, 0, 0)]),
              6 := Ptr(7), 7 := Arr(1, 1), 8 := Composite(true, "", 8, [Member("lost", 9, 0, 0)])],
          map["list" := 1, "node" := 5], map[])
  }

  lemma FindsCleared()
    ensures Find(Cleared(), LIST) == Some(1) && Find(Cleared(), NODE) == Some(5)
    ensures RecordName(true, "list") == LIST && RecordName(true, "node") == NODE
  {
    StripName(true, "list");
    StripName(true, "node");
  }

  lemma ClearedWellFormed()
    ensures WellFormed(Cleared())
  {
  }

  lemma ClearedList()
    ensures var g := Cleared();
      && IsComposite(g, 1) && g.types[1].size == 24 && g.types[1].isStruct && g.types[1].name == "list"
      && g.types[1].members == [Member("key", 4, 0, 0), Member("first", 2, 64, 0), Member("", 8, 128, 0),
                                Member("last", 2, 128, 0)]
      && 2 in g.types && g.types[2].Ptr? && 4 in g.types && g.types[4] == Int(32, true, false)
      && IsComposite(g, 8) && g.types[8].members == [Member("lost", 9, 0, 0)] && 9 !in g.types
  {
  }

  lemma RunOwner(table: Table)
    requires LIST in table && table[LIST].fields != [] && WellFormed(Cleared())
    ensures RunType(Cleared(), 6, 6, true, table) == Some((Pointer(Array(1, Rec(LIST, table[LIST].size)), {}), table))
  {
    FindsCleared();
    var g, t := Cleared(), Rec(LIST, table[LIST].size);
    hide WellFormed, Find;
    assert RunNamed(g, 2, LIST, 24, true, table) == Some((t, table));
    assert RunType(g, 3, 1, true, table) == Some((t, table));
    assert RunType(g, 4, 7, false, table) == Some((Array(1, t), table));
    assert RunPointee(g, 5, 7, {}, table) == Some((Pointer(Array(1, t), {}), table));
  }

  const NODE := "struct node"

  // The owner of a node is a pointer to a list that has fields.
  function OwnerField(table: Table): Field<SType>
    requires LIST in table
  {
    Field("owner", Pointer(Array(1, Rec(LIST, table[LIST].size)), {}), 0, None)
  }

  lemma RunNode(table: Table) returns (now: Table)
    requires LIST in table && table[LIST].fields != [] && WellFormed(Cleared()) && NODE !in table
    ensures now == table[NODE := Record(8, [OwnerField(table)])]
    ensures RunType(Cleared(), 8, 5, true, table) == Some((Rec(NODE, 8), now))
  {
    FindsCleared();
    var g, added, m := Cleared(), LookupOrAdd(table, NODE, 8), Cleared().types[5].members[0];
    RunOwner(added);
    now := AddFieldTo(added, NODE, OwnerField(table));
    assert AddField([], OwnerField(table)) == [OwnerField(table)];
    hide WellFormed, Find, RunType, AddField;
    assert BitfieldOf(m) == None;
    assert RunMember(g, 6, m, NODE, 0, added) == Some(now);
    assert RunMembers(g, 6, 5, NODE, 0, now, 1) == Some(now);
    assert RunMembers(g, 6, 5, NODE, 0, added, 0) == Some(now);
    assert RunRecord(g, 7, NODE, added) == Some(now);
    assert RunNamed(g, 7, NODE, 8, true, table) == Some((Rec(NODE, 8), now));
    RunComposite(7, table, now);
  }

  lemma RunComposite(k: nat, table: Table, now: Table)
    requires WellFormed(Cleared()) && RunNamed(Cleared(), k, NODE, 8, true, table) == Some((Rec(NODE, 8), now))
    ensures RunType(Cleared(), k + 1, 5, true, table) == Some((Rec(NODE, 8), now))
  {
    FindsCleared();
    hide WellFormed, Find, RunNamed;
  }

  lemma RunNodes(k: nat, table: Table, now: Table)
    requires WellFormed(Cleared()) && RunType(Cleared(), k, 5, true, table) == Some((Rec(NODE, 8), now))
    ensures RunType(Cleared(), k + 3, 2, true, table) == Some((Pointer(Array(1, Rec(NODE, 8)), {}), now))
  {
    var g := Cleared();
    hide WellFormed;
    assert RunType(g, k + 1, 3, false, table) == Some((Array(1, Rec(NODE, 8)), now));
    assert RunPointee(g, k + 2, 3, {}, table) == Some((Pointer(Array(1, Rec(NODE, 8)), {}), now));
  }

  lemma NodeIsFilled(table: Table)
    requires WellFormed(Cleared()) && NODE in table && table[NODE].size == 8 && table[NODE].fields != []
    ensures RunType(Cleared(), 8, 5, true, table) == Some((Rec(NODE, 8), table))
  {
    assert RunRecord(Cleared(), 7, NODE, table) == Some(table);
    assert RunNamed(Cleared(), 7, NODE, 8, true, table) == Some((Rec(NODE, 8), table));
    RunComposite(7, table, table);
  }

  // A member that is not inlined, and has no bitfield.
  lemma RunLeaf(g: Graph, k: nat, m: Member, name: string, table: Table, t: SType, mid: Table)
    requires WellFormed(g) && name in table && RunType(g, k, m.ty, true, table) == Some((t, mid)) && name in mid
    requires !Inlined(g, m) && m.bitfieldSize == 0
    ensures RunMember(g, k, m, name, 0, table) == Some(AddFieldTo(mid, name, Field(m.name, t, m.bitOffset / 8, None)))
  {
    hide WellFormed, RunType, AddFieldTo;
  }

  // The four members of the list, one after the other.
  lemma RunList(k: nat, start: Table) returns (t1: Table, t2: Table, t3: Table, t4: Table)
    requires k == 11 && start == map[LIST := Record(24, [])] && WellFormed(Cleared()) && IsComposite(Cleared(), 1)
    requires |Cleared().types[1].members| == 4
    ensures var g, ms := Cleared(), Cleared().types[1].members;
      && LIST in t1 && LIST in t2 && LIST in t3
      && RunMember(g, k, ms[0], LIST, 0, start) == Some(t1) && RunMember(g, k, ms[1], LIST, 0, t1) == Some(t2)
      && RunMember(g, k, ms[2], LIST, 0, t2) == Some(t3) && RunMember(g, k, ms[3], LIST, 0, t3) == Some(t4)
      && LIST in t4
  {
    var g, ms, nodes := Cleared(), Cleared().types[1].members, Pointer(Array(1, Rec(NODE, 8)), {});
    ClearedList();
    var key := Field("key", Integer(32, true), 0, None);
    OneField(key);
    assert RunType(g, k, 4, true, start) == Some((Integer(32, true), start)) by { hide Cleared, WellFormed; }
    hide Cleared, WellFormed, AddField, RunType, RunMember;
    RunLeaf(g, k, ms[0], LIST, start, Integer(32, true), start);
    t1 := AddFieldTo(start, LIST, key);
    var mid := RunNode(t1);
    RunNodes(8, t1, mid);
    RunLeaf(g, k, ms[1], LIST, t1, nodes, mid);
    t2 := AddFieldTo(mid, LIST, Field("first", nodes, 8, None));
    t3 := SetFields(t2, LIST, []);
    RunLost(k, t2);
    NodeIsFilled(t3);
    RunNodes(8, t3, t3);
    RunLeaf(g, k, ms[3], LIST, t3, nodes, t3);
    t4 := AddFieldTo(t3, LIST, Field("last", nodes, 16, None));
  }

  lemma RunLost(k: nat, table: Table)
    requires k > 0 && WellFormed(Cleared()) && LIST in table
    ensures RunMember(Cleared(), k, Member("", 8, 128, 0), LIST, 0, table) == Some(SetFields(table, LIST, []))
  {
    ClearedList();
    hide Cleared, WellFormed, SetFields;
    assert RunMembers(Cleared(), k - 1, 8, LIST, 16, table, 0) == Some(SetFields(table, LIST, []));
  }

  lemma OneField(f: Field<SType>)
    ensures AddField([], f) == [f]
  {
  }

  lemma ClearedRuns(g: Graph, k: nat, empty: Table)
    requires g == Cleared() && WellFormed(g) && k == 11 && empty == map[]
    ensures Ends(g, 1, true, empty)
  {
    var start := LookupOrAdd(empty, LIST, 24);
    ClearedList();
    hide Cleared, WellFormed, Find, RunMembers, RunType, RunRecord;
    ListRuns(g, k, start);
    ListEnds(g, k, empty, start);
  }

  lemma ListRuns(g: Graph, k: nat, start: Table)
    requires g == Cleared() && WellFormed(g) && k == 11 && start == map[LIST := Record(24, [])] && IsComposite(g, 1)
    ensures RunMembers(g, k, 1, LIST, 0, start, 0).Some?
  {
    ClearedList();
    hide *;
    assert |g.types[1].members| == 4;
    var t1, t2, t3, t4 := RunList(k, start);
    EndStep(g, k, 1, LIST, t4);
    MembersStep(g, k, 1, LIST, t3, t4, 3);
    MembersStep(g, k, 1, LIST, t2, t3, 2);
    MembersStep(g, k, 1, LIST, t1, t2, 1);
    MembersStep(g, k, 1, LIST, start, t1, 0);
  }

  lemma ListEnds(g: Graph, k: nat, empty: Table, start: Table)
    requires g == Cleared() && WellFormed(g) && IsComposite(g, 1)
    requires start == LookupOrAdd(empty, LIST, 24) && LIST in start && start[LIST].fields == []
    requires RunMembers(g, k, 1, LIST, 0, start, 0).Some?
    ensures Ends(g, 1, true, empty)
  {
    FindsCleared();
    ClearedList();
    hide Cleared, WellFormed, Find, RunMembers, LookupOrAdd;
    assert RunRecord(g, k + 1, LIST, start).Some?;
    assert RunType(g, k + 2, 1, true, empty).Some?;
  }

  lemma EndStep(g: Graph, k: nat, id: Id, name: string, table: Table)
    requires WellFormed(g) && name in table && IsComposite(g, id)
    ensures RunMembers(g, k, id, name, 0, table, |g.types[id].members|).Some?
  {
    hide WellFormed;
  }

  lemma MembersStep(g: Graph, k: nat, id: Id, name: string, table: Table, next: Table, i: nat)
    requires WellFormed(g) && name in table && name in next && IsComposite(g, id) && i < |g.types[id].members|
    requires RunMember(g, k, g.types[id].members[i], name, 0, table) == Some(next)
    requires g.types[id].members[i].ty in g.types
    requires RunMembers(g, k, id, name, 0, next, i + 1).Some?
    ensures RunMembers(g, k, id, name, 0, table, i).Some?
  {
    hide WellFormed, RunMember;
  }

  // A member without a type discards the fields, so that the last member is an early call; but by
  // then its record is filled.  On inconsistent type information a loop need not be entered.
  lemma ClearedLoopEnds()
    ensures WellFormed(Cleared()) && Ends(Cleared(), 1, true, map[]) && !NoLoop(Cleared(), {}, TypeNode(1, true))
  {
    ClearedWellFormed();
    ClearedLoops(Cleared());
    hide *;
    ClearedRuns(Cleared(), 11, map[]);
  }

  lemma ClearedLoops(g: Graph)
    requires g == Cleared()
    ensures !NoLoop(g, {}, TypeNode(1, true))
  {
    var list, node, top := RecordNode(LIST), RecordNode(NODE), TypeNode(1, true);
    FindsCleared();
    ClearedFirst();
    ArrayPointerCalls(g, {}, 2, 3, 5, NODE);
    ArrayPointerCalls(g, {}, 6, 7, 1, LIST);
    hide *;
    RecordCalls(g, {}, LIST, 2);
    RecordCalls(g, {}, NODE, 6);
    EarlyReachesOn(g, {}, top, list, TypeNode(2, true));
    EarlyReachesOn(g, {}, top, TypeNode(2, true), TypeNode(5, true));
    EarlyReachesOn(g, {}, top, TypeNode(5, true), node);
    EarlyReachesOn(g, {}, top, node, TypeNode(6, true));
    EarlyReachesOn(g, {}, top, TypeNode(6, true), top);
    LoopsAt(g, {}, top);
  }

  lemma LoopsAt(g: Graph, done: set<string>, a: Node)
    requires EarlyReaches(g, done, a, a)
    ensures !NoLoop(g, done, a)
  {
    hide EarlyReaches, ReachesPast;
  }

  lemma ClearedFirst()
    ensures IsEarly(Cleared(), LIST, 2) && IsEarly(Cleared(), NODE, 6)
  {
    var g := Cleared();
    FindsCleared();
    hide Find;
    var ms := g.types[1].members;
    assert Early(g, 1, 1, true, 3).value.types == {2};
    assert Early(g, 0, 8, false, 0) == Some(Scan({}, true));
    assert EarlyMember(g, 1, ms[2], false) == Some(Scan({}, true));
    hide EarlyMember;
    assert 2 in Early(g, 1, 1, false, 2).value.types;
    ClearedScan();
    ClearedNode();
  }

  lemma ClearedScan()
    requires Early(Cleared(), 1, 1, false, 2).Some? && 2 in Early(Cleared(), 1, 1, false, 2).value.types
    ensures EarlyIn(Cleared(), 1, 1, 2)
  {
    var g := Cleared();
    assert EarlyMember(g, 1, g.types[1].members[1], false) == Some(Scan({}, false));
    assert EarlyMember(g, 1, g.types[1].members[0], true) == Some(Scan({4}, false));
    hide EarlyMember;
    assert 2 in Early(g, 1, 1, false, 1).value.types;
  }

  lemma ClearedNode()
    ensures EarlyIn(Cleared(), 0, 5, 6)
  {
    assert EarlyMember(Cleared(), 0, Cleared().types[5].members[0], true) == Some(Scan({6}, false));
  }
}
