/**
 Whenever an import ends, on any graph, the imported type is the denoted one and everything that the
 import leads to is settled.
 */
module ImportCorrect {
  import opened Prelude
  import opened TypeGraph
  import opened RecordFields
  import opened TypeRuns
  import opened TypeFrames
  import opened ImportState

  // Open records stay as they are, unless they had no fields and are filled completely.
  ghost predicate OpenFrame(g: Graph, was: Table, now: Table, open: set<string>)
    requires WellFormed(g)
  {
    forall name :: name in was && name in open ==> name in now && OpenKept(g, was, now, name)
  }

  ghost predicate OpenKept(g: Graph, was: Table, now: Table, name: string)
    requires WellFormed(g) && name in was && name in now
  {
    now[name].fields == was[name].fields || (was[name].fields == [] && Holds(g, now, name))
  }

  // What a finished call does.
  ghost predicate Good(g: Graph, was: Table, now: Table, open: set<string>, node: Node)
    requires WellFormed(g)
  {
    && Sound(g, now, open) && AllSettled(g, now, open, node)
    && OpenFrame(g, was, now, open) && ClosedKept(was, now, open)
  }

  lemma OpenFrameSame(g: Graph, table: Table, open: set<string>)
    requires WellFormed(g)
    ensures OpenFrame(g, table, table, open) && ClosedKept(table, table, open)
  {
  }

  lemma FrameTrans(g: Graph, t0: Table, t1: Table, t2: Table, open: set<string>)
    requires WellFormed(g)
    requires OpenFrame(g, t0, t1, open) && OpenFrame(g, t1, t2, open)
    requires ClosedKept(t0, t1, open) && ClosedKept(t1, t2, open)
    ensures OpenFrame(g, t0, t2, open) && ClosedKept(t0, t2, open)
  {
    hide WellFormed, Holds;
    forall name | name in t0 && name in open ensures OpenKept(g, t0, t2, name) {
      assert OpenKept(g, t0, t1, name) && OpenKept(g, t1, t2, name);
      if t2[name].fields == t1[name].fields && t1[name].fields != t0[name].fields {
        HoldsKept(g, t1, t2, name);
      }
    }
  }

  lemma EvolvesClosed(g: Graph, was: Table, now: Table, from: Node, open: set<string>)
    requires Evolves(g, was, now, from, None)
    ensures ClosedKept(was, now, open)
  {
    hide Covers, SizesDeclared;
  }

  // Types.

  lemma {:induction false} TypeCorrect(g: Graph, k: nat, id: Id, resolve: bool, table: Table, open: set<string>)
    requires WellFormed(g) && Sound(g, table, open) && RunType(g, k, id, resolve, table).Some?
    ensures var (t, now) := RunType(g, k, id, resolve, table).value;
      TypeOf(g, k, id, now) == Some(t) && Present(t, now) && Good(g, table, now, open, TypeNode(id, resolve))
    decreases k, 0
  {
    hide WellFormed, Good, RunPointee, RunNamed, PointerTo;
    var node := TypeNode(id, resolve);
    if id in g.types {
      var t := g.types[id];
      if t.Composite? && !Anonymous(t.name) {
        NamedCorrect(g, k, id, resolve, table, open);
      } else if t.Ptr? {
        PointeeCorrect(g, k - 1, t.target, {}, table, open);
        CalledGood(g, k, id, resolve, table, RunType(g, k, id, resolve, table).value.1, open, PointeeNode(t.target));
      } else if t.Arr? {
        TypeCorrect(g, k - 1, t.elem, true, table, open);
        CalledGood(g, k, id, resolve, table, RunType(g, k, id, resolve, table).value.1, open, TypeNode(t.elem, true));
      } else if t.Modifier? {
        TypeCorrect(g, k - 1, t.target, resolve, table, open);
        CalledGood(g, k, id, resolve, table, RunType(g, k, id, resolve, table).value.1, open, TypeNode(t.target, resolve));
      } else {
        LeafGood(g, k, node, table, open);
      }
    } else {
      LeafGood(g, k, node, table, open);
    }
  }

  lemma LeafGood(g: Graph, k: nat, node: Node, table: Table, open: set<string>)
    requires WellFormed(g) && Sound(g, table, open)
    requires node.TypeNode? && TypeSettled(g, k, node.id, table) && forall b :: !Calls(g, node, b)
    ensures Good(g, table, table, open, node)
  {
    hide WellFormed, Calls, TypeSettled, Sound;
    OpenFrameSame(g, table, open);
    assert Settled(g, table, node);
    AllSettledFrom(g, table, open, node);
  }

  // A type with a single call, which has been good.
  lemma CalledGood(
      g: Graph, k: nat, id: Id, resolve: bool, was: Table, now: Table, open: set<string>, called: Node)
    requires WellFormed(g) && Good(g, was, now, open, called) && TypeSettled(g, k, id, now)
    requires forall b :: Calls(g, TypeNode(id, resolve), b) ==> b == called
    ensures Good(g, was, now, open, TypeNode(id, resolve))
  {
    hide WellFormed, Calls, TypeSettled, Sound, OpenFrame, ClosedKept, AllSettled;
    assert Settled(g, now, TypeNode(id, resolve));
    AllSettledFrom(g, now, open, TypeNode(id, resolve));
  }

  lemma {:induction false} NamedCorrect(g: Graph, k: nat, id: Id, resolve: bool, table: Table, open: set<string>)
    requires WellFormed(g) && Sound(g, table, open) && RunType(g, k, id, resolve, table).Some?
    requires IsComposite(g, id) && !Anonymous(g.types[id].name)
    ensures var (t, now) := RunType(g, k, id, resolve, table).value;
      TypeOf(g, k, id, now) == Some(t) && Present(t, now) && Good(g, table, now, open, TypeNode(id, resolve))
    decreases k, 0, 0
  {
    hide WellFormed, Good, RunRecord, Sound;
    var c := g.types[id];
    var full := RecordName(c.isStruct, c.name);
    var added := LookupOrAdd(table, full, c.size);
    AddedGood(g, table, full, c.size, open);
    if resolve {
      var now := RunRecord(g, k - 1, full, added).value;
      RecordCorrect(g, k - 1, full, added, open);
      RecordEvolves(g, k - 1, full, added);
      SameSize(g, added, now, full, RecordNode(full));
      AfterAdding(g, table, added, now, open, RecordNode(full));
      CalledGood(g, k, id, resolve, table, now, open, RecordNode(full));
    } else {
      NoCallsGood(g, k, id, table, added, open);
    }
  }

  lemma SameSize(g: Graph, was: Table, now: Table, name: string, from: Node)
    requires Evolves(g, was, now, from, None) && name in was
    ensures name in now && now[name].size == was[name].size
  {
    hide Covers, SizesDeclared;
  }

  lemma AddedGood(g: Graph, table: Table, full: string, size: nat, open: set<string>)
    requires WellFormed(g) && Sound(g, table, open)
    ensures var added := LookupOrAdd(table, full, size);
      Sound(g, added, open) && OpenFrame(g, table, added, open) && ClosedKept(table, added, open)
  {
    hide WellFormed, Sound, Holds;
    SoundKept(g, table, LookupOrAdd(table, full, size), open);
  }

  lemma AfterAdding(g: Graph, t0: Table, t1: Table, t2: Table, open: set<string>, node: Node)
    requires WellFormed(g) && OpenFrame(g, t0, t1, open) && ClosedKept(t0, t1, open) && Good(g, t1, t2, open, node)
    ensures Good(g, t0, t2, open, node)
  {
    hide WellFormed, Sound, AllSettled, OpenFrame, ClosedKept;
    FrameTrans(g, t0, t1, t2, open);
  }

  // The target of a pointer: the record is entered, and not resolved.
  lemma NoCallsGood(g: Graph, k: nat, id: Id, was: Table, now: Table, open: set<string>)
    requires WellFormed(g) && IsComposite(g, id) && TypeSettled(g, k, id, now)
    requires Sound(g, now, open) && OpenFrame(g, was, now, open) && ClosedKept(was, now, open)
    ensures Good(g, was, now, open, TypeNode(id, false))
  {
    hide WellFormed, TypeSettled, Sound, OpenFrame, ClosedKept;
    assert Settled(g, now, TypeNode(id, false));
    AllSettledFrom(g, now, open, TypeNode(id, false));
  }

  lemma {:induction false} PointeeCorrect(
      g: Graph, k: nat, id: Id, tags: set<string>, table: Table, open: set<string>)
    requires WellFormed(g) && Sound(g, table, open) && RunPointee(g, k, id, tags, table).Some?
    ensures var (t, now) := RunPointee(g, k, id, tags, table).value;
      PointerTo(g, k, id, tags, now) == Some(t) && Present(t, now) && Good(g, table, now, open, PointeeNode(id))
    decreases k, 1
  {
    hide WellFormed, Good, RunType, TypeOf;
    var (t, now) := RunPointee(g, k, id, tags, table).value;
    if id in g.types && g.types[id].TypeTag? {
      var target := g.types[id].target;
      PointeeCorrect(g, k - 1, target, tags + {g.types[id].tag}, table, open);
      PointeeGood(g, k, id, tags, table, now, open, PointeeNode(target));
    } else {
      TypeCorrect(g, k - 1, id, false, table, open);
      PointeeGood(g, k, id, tags, table, now, open, TypeNode(id, false));
    }
  }

  lemma PointeeGood(
      g: Graph, k: nat, id: Id, tags: set<string>, was: Table, now: Table, open: set<string>, called: Node)
    requires WellFormed(g) && Good(g, was, now, open, called) && PointerSettled(g, k, id, tags, now)
    requires forall b :: Calls(g, PointeeNode(id), b) ==> b == called
    ensures Good(g, was, now, open, PointeeNode(id))
  {
    hide WellFormed, Calls, PointerSettled, Sound, OpenFrame, ClosedKept, AllSettled;
    assert Settled(g, now, PointeeNode(id));
    AllSettledFrom(g, now, open, PointeeNode(id));
  }

  // Records.

  lemma {:induction false} RecordCorrect(g: Graph, k: nat, name: string, table: Table, open: set<string>)
    requires WellFormed(g) && name in table && Sound(g, table, open) && RunRecord(g, k, name, table).Some?
    ensures Good(g, table, RunRecord(g, k, name, table).value, open, RecordNode(name))
    decreases k, 1
  {
    hide WellFormed, Good, RunMembers, Sound, Gather, Filled, IsExpected, OpenFrameBut, ClosedKept, MembersSettled, AddAll,
      Evolves;
    if table[name].fields != [] {
      AlreadyGood(g, table, open, name);
    } else if Find(g, name).None? {
      NoTypeGood(g, table, open, name);
    } else {
      FindIsComposite(g, name);
      var c, more := Find(g, name).value, open + {name};
      var now := RunMembers(g, k - 1, c, name, 0, table, 0).value;
      SoundOpened(g, table, open, more);
      GatherEnds(g, k - 1, c, name, 0, table, 0);
      var batch := Gather(g, k - 1, c, 0, 0).value;
      EmptyFilled(g, table, name);
      ExpectedIs(g, k - 1, name);
      NothingAdded(Apply(batch, []));
      var end := MembersCorrect(g, k - 1, c, name, 0, table, 0, more, [], NO_FIELDS, Apply(batch, []));
      NothingAdded(end);
      RecordEvolves(g, k, name, table);
      RecordFinished(g, k - 1, c, name, table, now, open, end);
    }
  }

  lemma AlreadyGood(g: Graph, table: Table, open: set<string>, name: string)
    requires WellFormed(g) && Sound(g, table, open) && name in table && table[name].fields != []
    ensures Good(g, table, table, open, RecordNode(name))
  {
    hide WellFormed, Settled, Calls;
    OpenFrameSame(g, table, open);
    if name in open {
      OpenSettled(g, table, open, name);
    }
  }

  lemma OpenSettled(g: Graph, table: Table, open: set<string>, name: string)
    requires WellFormed(g) && name in open
    ensures AllSettled(g, table, open, RecordNode(name))
  {
    hide WellFormed, Settled, Calls;
  }

  lemma NoTypeGood(g: Graph, table: Table, open: set<string>, name: string)
    requires WellFormed(g) && Sound(g, table, open) && name in table && table[name].fields == []
    requires Find(g, name).None?
    ensures Good(g, table, table, open, RecordNode(name))
  {
    hide WellFormed, Sound;
    OpenFrameSame(g, table, open);
    assert Expected(g, 0, name) == Some([]);
    EmptyFilled(g, table, name);
    assert Settled(g, table, RecordNode(name));
    AllSettledFrom(g, table, open, RecordNode(name));
  }

  lemma EmptyFilled(g: Graph, table: Table, name: string)
    requires name in table && table[name].fields == []
    ensures Filled(g, table, name, [])
  {
    assert Matches(g, 0, [], table[name].fields, table);
  }

  lemma ExpectedIs(g: Graph, k: nat, name: string)
    requires WellFormed(g) && Find(g, name).Some?
    ensures IsComposite(g, Find(g, name).value)
    ensures Gather(g, k, Find(g, name).value, 0, 0).Some? ==>
      IsExpected(g, name, Apply(Gather(g, k, Find(g, name).value, 0, 0).value, []))
  {
    hide WellFormed, Gather;
    FindIsComposite(g, name);
    if Gather(g, k, Find(g, name).value, 0, 0).Some? {
      assert Expected(g, k, name) == Some(Apply(Gather(g, k, Find(g, name).value, 0, 0).value, []));
    }
  }

  lemma RecordFinished(
      g: Graph, k: nat, c: Id, name: string, was: Table, now: Table, open: set<string>, fs: seq<Field<Id>>)
    requires WellFormed(g) && Find(g, name) == Some(c) && IsComposite(g, c) && name in was && was[name].fields == []
    requires Sound(g, now, open + {name}) && OpenFrameBut(g, was, now, open + {name}, name)
    requires Evolves(g, was, now, RecordNode(name), None)
    requires IsExpected(g, name, fs) && Filled(g, now, name, fs) && Gather(g, k, c, 0, 0).Some?
    requires MembersSettled(g, now, open + {name}, c, 0)
    ensures Good(g, was, now, open, RecordNode(name))
  {
    hide WellFormed, Sound, Gather, IsExpected, Filled;
    EvolvesClosed(g, was, now, RecordNode(name), open);
    assert Holds(g, now, name);
    assert Settled(g, now, MembersNode(c));
    assert OpenFrame(g, was, now, open) by {
      hide Holds, Evolves;
      forall n | n in was && n in open ensures n in now && OpenKept(g, was, now, n) {
      }
    }
    if name in open {
      assert open + {name} == open;
      OpenSettled(g, now, open, name);
    } else {
      CalledMembers(g, now, open + {name}, c);
      hide Settled, Holds, MembersSettled, Evolves, OpenFrame, OpenFrameBut, AllSettled;
      RecordClosed(g, now, open, name);
    }
  }

  // Members.

  ghost predicate OpenFrameBut(g: Graph, was: Table, now: Table, open: set<string>, but: string)
    requires WellFormed(g)
  {
    forall name :: name in was && name in open && name != but ==> name in now && OpenKept(g, was, now, name)
  }

  // The members of c from i on are settled.
  ghost predicate MembersSettled(g: Graph, table: Table, open: set<string>, c: Id, i: nat)
    requires WellFormed(g) && IsComposite(g, c)
  {
    forall j :: i <= j < |Live(g, g.types[c].members)| ==>
      AllSettled(g, table, open, MemberNode(g, g.types[c].members[j]))
  }

  lemma CalledMembers(g: Graph, table: Table, open: set<string>, c: Id)
    requires WellFormed(g) && IsComposite(g, c) && MembersSettled(g, table, open, c, 0)
    ensures forall x :: Calls(g, MembersNode(c), x) ==> AllSettled(g, table, open, x)
  {
    hide WellFormed, AllSettled;
    var ms := g.types[c].members;
    forall x | Calls(g, MembersNode(c), x) ensures AllSettled(g, table, open, x) {
      var m :| m in Live(g, ms) && x == MemberNode(g, m);
      var j :| 0 <= j < |Live(g, ms)| && Live(g, ms)[j] == m;
      assert ms[j] == m;
    }
  }

  // A finished run of members has gathered them.
  lemma {:induction false} GatherEnds(g: Graph, k: nat, id: Id, name: string, start: nat, table: Table, i: nat)
    requires WellFormed(g) && name in table && IsComposite(g, id) && i <= |g.types[id].members|
    requires RunMembers(g, k, id, name, start, table, i).Some?
    ensures Gather(g, k, id, start, i).Some?
    decreases k, 2 + |g.types[id].members| - i
  {
    hide WellFormed, RunType;
    var ms := g.types[id].members;
    if i < |ms| && ms[i].ty in g.types {
      if Inlined(g, ms[i]) {
        GatherEnds(g, k - 1, ms[i].ty, name, start + ms[i].bitOffset / 8, table, 0);
      }
      GatherEnds(g, k, id, name, start, RunMember(g, k, ms[i], name, start, table).value, i + 1);
    }
  }

  // What a run of members does: `cur` are the fields that the record holds before, `end` those that
  // it holds after, and `after` is what remains to be done until it holds `fs`.
  lemma {:induction false} MembersCorrect(
      g: Graph, k: nat, id: Id, name: string, start: nat, table: Table, i: nat, open: set<string>,
      cur: seq<Field<Id>>, after: Batch, fs: seq<Field<Id>>) returns (end: seq<Field<Id>>)
    requires WellFormed(g) && name in table && IsComposite(g, id) && i <= |Live(g, g.types[id].members)|
    requires name in open && Sound(g, table, open) && RunMembers(g, k, id, name, start, table, i).Some?
    requires IsExpected(g, name, fs) && Filled(g, table, name, cur)
    requires Gather(g, k, id, start, i).Some? && Apply(after, Apply(Gather(g, k, id, start, i).value, cur)) == fs
    ensures var now := RunMembers(g, k, id, name, start, table, i).value;
      && Filled(g, now, name, end) && Apply(after, end) == fs
      && Sound(g, now, open) && OpenFrameBut(g, table, now, open, name) && ClosedKept(table, now, open)
      && MembersSettled(g, now, open, id, i)
    decreases k, 2 + |g.types[id].members| - i
  {
    hide WellFormed, Sound, IsExpected, Filled, RunMember, GatherMember, Apply, Join, OpenFrameBut, ClosedKept,
      MembersSettled, AllSettled, MemberNode, Live, SetFields;
    var ms := g.types[id].members;
    if i < |Live(g, ms)| {
      LiveAt(g, ms, i);
      var mid := RunMember(g, k, ms[i], name, start, table).value;
      var first, rest := GatherMember(g, k, ms[i], start).value, Gather(g, k, id, start, i + 1).value;
      ApplyJoin(first, rest, cur);
      ApplyJoin(rest, after, Apply(first, cur));
      var reached := MemberCorrect(g, k, id, i, name, start, table, open, cur, Join(rest, after), fs);
      ApplyJoin(rest, after, reached);
      end := MembersCorrect(g, k, id, name, start, mid, i + 1, open, reached, after, fs);
      MembersFollow(g, table, mid, RunMembers(g, k, id, name, start, table, i).value, open, name, id, i);
    } else {
      LastMembers(g, k, id, name, start, table, i, open);
      if i == |ms| {
        end := cur;
        NothingAdded(cur);
      } else {
        end := [];
        Discarded(cur);
      }
    }
  }

  lemma NothingAdded(cur: seq<Field<Id>>)
    ensures Apply(NO_FIELDS, cur) == cur
  {
  }

  lemma Discarded(cur: seq<Field<Id>>)
    ensures Apply(Batch(true, []), cur) == []
  {
  }

  // The end of the loop: all members are done, or the next one has no type.
  lemma LastMembers(g: Graph, k: nat, id: Id, name: string, start: nat, table: Table, i: nat, open: set<string>)
    requires WellFormed(g) && name in table && IsComposite(g, id) && i == |Live(g, g.types[id].members)|
    requires name in open && Sound(g, table, open)
    ensures RunMembers(g, k, id, name, start, table, i).Some?
    ensures var now := RunMembers(g, k, id, name, start, table, i).value;
      && Sound(g, now, open) && OpenFrameBut(g, table, now, open, name) && ClosedKept(table, now, open)
      && MembersSettled(g, now, open, id, i)
      && (i < |g.types[id].members| ==> Filled(g, now, name, []))
      && (i == |g.types[id].members| ==> now == table)
  {
    hide WellFormed, Sound, Holds, AllSettled;
    if i < |g.types[id].members| {
      FieldsSetGood(g, table, name, [], open);
      EmptyFilled(g, SetFields(table, name, []), name);
    }
  }

  // Changing the fields of an open record.
  lemma FieldsSetGood(g: Graph, table: Table, name: string, fields: seq<Field<SType>>, open: set<string>)
    requires WellFormed(g) && name in table && name in open && Sound(g, table, open)
    ensures var now := SetFields(table, name, fields);
      && Sound(g, now, open) && OpenFrameBut(g, table, now, open, name) && ClosedKept(table, now, open)
      && forall a :: AllSettled(g, table, open, a) ==> AllSettled(g, now, open, a)
  {
    hide WellFormed, Sound, Holds, AllSettled;
    SoundKept(g, table, SetFields(table, name, fields), open);
  }

  lemma MembersFollow(
      g: Graph, t0: Table, t1: Table, t2: Table, open: set<string>, name: string, id: Id, i: nat)
    requires WellFormed(g) && IsComposite(g, id) && i < |Live(g, g.types[id].members)|
    requires OpenFrameBut(g, t0, t1, open, name) && OpenFrameBut(g, t1, t2, open, name)
    requires ClosedKept(t0, t1, open) && ClosedKept(t1, t2, open) && Sound(g, t2, open)
    requires AllSettled(g, t1, open, MemberNode(g, g.types[id].members[i])) && MembersSettled(g, t2, open, id, i + 1)
    ensures OpenFrameBut(g, t0, t2, open, name) && ClosedKept(t0, t2, open) && MembersSettled(g, t2, open, id, i)
  {
    hide WellFormed, Sound, AllSettled, MemberNode;
    AllSettledKept(g, t1, t2, open, MemberNode(g, g.types[id].members[i]));
    FrameButTrans(g, t0, t1, t2, open, name);
  }

  lemma FrameButTrans(g: Graph, t0: Table, t1: Table, t2: Table, open: set<string>, but: string)
    requires WellFormed(g)
    requires OpenFrameBut(g, t0, t1, open, but) && OpenFrameBut(g, t1, t2, open, but)
    requires ClosedKept(t0, t1, open) && ClosedKept(t1, t2, open)
    ensures OpenFrameBut(g, t0, t2, open, but) && ClosedKept(t0, t2, open)
  {
    hide WellFormed, Holds;
    forall name | name in t0 && name in open && name != but ensures name in t2 && OpenKept(g, t0, t2, name) {
      assert OpenKept(g, t0, t1, name) && OpenKept(g, t1, t2, name);
      if t2[name].fields == t1[name].fields && t1[name].fields != t0[name].fields {
        HoldsKept(g, t1, t2, name);
      }
    }
  }

  lemma {:induction false} MemberCorrect(
      g: Graph, k: nat, id: Id, i: nat, name: string, start: nat, table: Table, open: set<string>,
      cur: seq<Field<Id>>, after: Batch, fs: seq<Field<Id>>) returns (end: seq<Field<Id>>)
    requires WellFormed(g) && name in table && IsComposite(g, id) && i < |g.types[id].members|
    requires name in open && Sound(g, table, open) && RunMember(g, k, g.types[id].members[i], name, start, table).Some?
    requires IsExpected(g, name, fs) && Filled(g, table, name, cur)
    requires var b := GatherMember(g, k, g.types[id].members[i], start);
      b.Some? && Apply(after, Apply(b.value, cur)) == fs
    ensures var now := RunMember(g, k, g.types[id].members[i], name, start, table).value;
      && Filled(g, now, name, end) && Apply(after, end) == fs
      && Sound(g, now, open) && OpenFrameBut(g, table, now, open, name) && ClosedKept(table, now, open)
      && AllSettled(g, now, open, MemberNode(g, g.types[id].members[i]))
    decreases k, 1
  {
    hide WellFormed, Sound, IsExpected, Filled, RunMembers, RunType, Gather, Apply, OpenFrameBut, ClosedKept,
      MembersSettled, AllSettled, Live, SetFields, Good, OpenFrame;
    var m := g.types[id].members[i];
    var offset := start + m.bitOffset / 8;
    if Inlined(g, m) {
      end := MembersCorrect(g, k - 1, m.ty, name, offset, table, 0, open, cur, after, fs);
      InlinedSettled(g, k - 1, m.ty, offset, RunMember(g, k, m, name, start, table).value, open);
    } else {
      TypeCorrect(g, k, m.ty, true, table, open);
      var (t, mid) := RunType(g, k, m.ty, true, table).value;
      end := FieldCorrect(g, k, m, name, start, table, mid, t, open, cur, after, fs);
    }
  }

  lemma InlinedSettled(g: Graph, k: nat, id: Id, start: nat, table: Table, open: set<string>)
    requires WellFormed(g) && IsComposite(g, id) && MembersSettled(g, table, open, id, 0)
    requires Gather(g, k, id, start, 0).Some?
    ensures AllSettled(g, table, open, MembersNode(id))
  {
    hide WellFormed, Gather, AllSettled, MembersSettled, Calls;
    CalledMembers(g, table, open, id);
    assert Settled(g, table, MembersNode(id));
    AllSettledFrom(g, table, open, MembersNode(id));
  }

  // A member that adds a field.  The import of its type may have filled the whole record.
  lemma FieldCorrect(
      g: Graph, k: nat, m: Member, name: string, start: nat, table: Table, mid: Table, t: SType, open: set<string>,
      cur: seq<Field<Id>>, after: Batch, fs: seq<Field<Id>>) returns (end: seq<Field<Id>>)
    requires WellFormed(g) && name in table && name in open && !Inlined(g, m)
    requires IsExpected(g, name, fs) && Filled(g, table, name, cur)
    requires Apply(after, Apply(Batch(false, [FieldOf(m, start)]), cur)) == fs
    requires TypeOf(g, k, m.ty, mid) == Some(t) && Present(t, mid) && Good(g, table, mid, open, TypeNode(m.ty, true))
    ensures name in mid
    ensures var now := AddFieldTo(mid, name, Field(m.name, t, start + m.bitOffset / 8, BitfieldOf(m)));
      && Filled(g, now, name, end) && Apply(after, end) == fs
      && Sound(g, now, open) && OpenFrameBut(g, table, now, open, name) && ClosedKept(table, now, open)
      && AllSettled(g, now, open, MemberNode(g, m))
  {
    hide WellFormed, Sound, IsExpected, Filled, Apply, AllSettled, SetFields, Holds, TypeOf, Present, Calls;
    var f := FieldOf(m, start);
    assert name in mid;
    ApplyJoin(Batch(false, [f]), after, cur);
    var held := HeldBefore(g, table, mid, name, cur, Join(Batch(false, [f]), after), fs);
    ApplyJoin(Batch(false, [f]), after, held);
    ApplyOne(f, held);
    end := AddField(held, f);
    var s := Field(m.name, t, start + m.bitOffset / 8, BitfieldOf(m));
    FieldsSetGood(g, mid, name, AddField(mid[name].fields, s), open);
    FieldFilled(g, k, mid, name, held, f, s);
    FrameButTrans(g, table, mid, AddFieldTo(mid, name, s), open, name) by {
      assert OpenFrameBut(g, table, mid, open, name);
    }
  }

  // The fields that the record holds before one is added: the same as before its type was imported,
  // or all of them.
  lemma HeldBefore(
      g: Graph, table: Table, mid: Table, name: string, cur: seq<Field<Id>>, all: Batch, fs: seq<Field<Id>>)
      returns (held: seq<Field<Id>>)
    requires WellFormed(g) && name in table && name in mid && OpenKept(g, table, mid, name) && SizesKept(table, mid)
    requires IsExpected(g, name, fs) && Filled(g, table, name, cur) && Apply(all, cur) == fs
    ensures Filled(g, mid, name, held) && Apply(all, held) == fs
  {
    hide WellFormed, IsExpected, Filled, Apply;
    if mid[name].fields == table[name].fields {
      held := cur;
      FilledKept(g, table, mid, name, cur);
    } else {
      held :| IsExpected(g, name, held) && Filled(g, mid, name, held);
      ExpectedUnique(g, name, held, fs);
      FilledEmpty(g, table, name, cur);
      ApplyTwice(all);
    }
  }

  lemma FilledEmpty(g: Graph, table: Table, name: string, cur: seq<Field<Id>>)
    requires Filled(g, table, name, cur) && table[name].fields == []
    ensures cur == []
  {
  }

  lemma FieldFilled(g: Graph, k: nat, table: Table, name: string, cur: seq<Field<Id>>, f: Field<Id>, s: Field<SType>)
    requires Filled(g, table, name, cur) && FieldMatches(g, k, f, s, table)
    ensures name in table && Filled(g, AddFieldTo(table, name, s), name, AddField(cur, f))
  {
    hide TypeOf, Present;
    var l: nat :| Matches(g, l, cur, table[name].fields, table);
    var n := if k < l then l else k;
    MatchesMore(g, l, n, cur, table[name].fields, table);
    TypeOfMore(g, k, n, f.ty, table);
    var ss, now := table[name].fields, AddFieldTo(table, name, s);
    SameNames(g, n, cur, ss, table, f.name);
    assert Matches(g, n, AddField(cur, f), AddField(ss, s), table);
    MatchesKept(g, n, AddField(cur, f), AddField(ss, s), table, now);
  }

  lemma SameNames(g: Graph, k: nat, fs: seq<Field<Id>>, ss: seq<Field<SType>>, table: Table, name: string)
    requires Matches(g, k, fs, ss, table)
    ensures HasField(fs, name) <==> HasField(ss, name)
  {
    hide TypeOf, Present;
    if i :| 0 <= i < |fs| && fs[i].name == name {
      assert FieldMatches(g, k, fs[i], ss[i], table);
    }
    if i :| 0 <= i < |ss| && ss[i].name == name {
      assert FieldMatches(g, k, fs[i], ss[i], table);
    }
  }
}
