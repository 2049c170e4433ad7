/**
 What the fields of a record are in terms of paths: following anonymous composites down to a
 member, summing the offsets on the way, and keeping the first member of each name.
 */
module FlattenedFields {
  import opened Prelude
  import opened TypeGraph
  import opened RecordFields
  import opened DeclaredTypes
  import opened ImportState

  // The field at position j is the first of its name.
  predicate First(fields: seq<Field<Id>>, j: nat)
    requires j < |fields|
  {
    forall k :: 0 <= k < j ==> fields[k].name != fields[j].name
  }

  predicate IsFirst(fields: seq<Field<Id>>, f: Field<Id>) {
    exists j :: 0 <= j < |fields| && fields[j] == f && First(fields, j)
  }

  predicate DistinctNames(fields: seq<Field<Id>>) {
    forall j :: 0 <= j < |fields| ==> First(fields, j)
  }

  lemma {:induction false} AddAllFirsts(acc: seq<Field<Id>>, fs: seq<Field<Id>>, f: Field<Id>)
    requires DistinctNames(acc)
    ensures f in AddAll(acc, fs) <==> IsFirst(acc + fs, f)
    ensures DistinctNames(AddAll(acc, fs))
    decreases |fs|
  {
    if fs == [] {
      assert acc + fs == acc;
      assert f in acc <==> IsFirst(acc, f);
    } else {
      var more := AddField(acc, fs[0]);
      DistinctWithField(acc, fs[0]);
      AddAllFirsts(more, fs[1..], f);
      hide AddAll, IsFirst, DistinctNames;
      if HasField(acc, fs[0].name) {
        SkipRepeated(acc, fs, f);
      } else {
        assert acc + fs == more + fs[1..];
      }
    }
  }

  lemma DistinctWithField(acc: seq<Field<Id>>, f: Field<Id>)
    requires DistinctNames(acc)
    ensures DistinctNames(AddField(acc, f))
  {
    var more := AddField(acc, f);
    forall j | 0 <= j < |more| ensures First(more, j) {
      if j < |acc| {
        assert First(acc, j);
      }
    }
  }

  // A field whose name has occurred is the first of its name nowhere.
  lemma SkipRepeated(acc: seq<Field<Id>>, fs: seq<Field<Id>>, f: Field<Id>)
    requires fs != [] && HasField(acc, fs[0].name)
    ensures IsFirst(acc + fs, f) <==> IsFirst(acc + fs[1..], f)
  {
    var all, less, n := acc + fs, acc + fs[1..], |acc|;
    if IsFirst(all, f) {
      var j :| 0 <= j < |all| && all[j] == f && First(all, j);
      FirstWithout(acc, fs, j);
      assert IsFirst(less, f);
    }
    if IsFirst(less, f) {
      var j :| 0 <= j < |less| && less[j] == f && First(less, j);
      FirstWith(acc, fs, j);
      assert IsFirst(all, f);
    }
  }

  lemma FirstWithout(acc: seq<Field<Id>>, fs: seq<Field<Id>>, j: nat)
    requires fs != [] && HasField(acc, fs[0].name) && j < |acc + fs| && First(acc + fs, j)
    ensures j != |acc|
    ensures var i := if j < |acc| then j else j - 1;
      (acc + fs[1..])[i] == (acc + fs)[j] && First(acc + fs[1..], i)
  {
    var all, less, n := acc + fs, acc + fs[1..], |acc|;
    var p :| 0 <= p < n && acc[p].name == fs[0].name;
    assert all[p].name == all[n].name;
    var i := if j < n then j else j - 1;
    forall k | 0 <= k < i ensures less[k].name != less[i].name {
      assert less[k] == all[if k < n then k else k + 1];
    }
  }

  lemma FirstWith(acc: seq<Field<Id>>, fs: seq<Field<Id>>, i: nat)
    requires fs != [] && HasField(acc, fs[0].name) && i < |acc + fs[1..]| && First(acc + fs[1..], i)
    ensures var j := if i < |acc| then i else i + 1;
      (acc + fs)[j] == (acc + fs[1..])[i] && First(acc + fs, j)
  {
    var all, less, n := acc + fs, acc + fs[1..], |acc|;
    var p :| 0 <= p < n && acc[p].name == fs[0].name;
    var j := if i < n then i else i + 1;
    forall k | 0 <= k < j ensures all[k].name != all[j].name {
      var q := if k < n then k else if k == n then p else k - 1;
      assert less[q].name == all[k].name;
    }
  }

  // A composite without a name of its own, whose members are those of the outer composite.
  predicate LeadsInside(g: Graph, m: Member) {
    m.ty in g.types && g.types[m.ty].Composite? && (m.name == "" || m.name == "(anon)")
  }

  // Paths of member indices: all but the last lead through anonymous composites.
  function Follow(g: Graph, id: Id, start: nat, path: seq<nat>): Option<Field<Id>>
    decreases path
  {
    if !IsComposite(g, id) || path == [] || path[0] >= |g.types[id].members| then None
    else
      var m := g.types[id].members[path[0]];
      if LeadsInside(g, m) then Follow(g, m.ty, start + m.bitOffset / 8, path[1..])
      else if |path| == 1 then Some(FieldOf(m, start))
      else None
  }

  // The path ends at the field, entering at member i or later.
  ghost predicate LeadsTo(g: Graph, id: Id, start: nat, i: nat, path: seq<nat>, f: Field<Id>) {
    path != [] && path[0] >= i && Follow(g, id, start, path) == Some(f)
  }

  // The path ends at a member without a type.
  predicate Misses(g: Graph, id: Id, path: seq<nat>)
    decreases path
  {
    && IsComposite(g, id) && path != [] && path[0] < |g.types[id].members|
    && var m := g.types[id].members[path[0]];
       if LeadsInside(g, m) then Misses(g, m.ty, path[1..]) else |path| == 1 && m.ty !in g.types
  }

  ghost predicate MissesFrom(g: Graph, id: Id, i: nat, path: seq<nat>) {
    path != [] && path[0] >= i && Misses(g, id, path)
  }

  // Fields are discarded exactly when a member without a type lies on some anonymous path.
  lemma {:induction false} ClearedIff(g: Graph, k: nat, id: Id, start: nat, i: nat)
    requires IsComposite(g, id) && i <= |g.types[id].members| && Gather(g, k, id, start, i).Some?
    ensures Gather(g, k, id, start, i).value.cleared <==> exists path :: MissesFrom(g, id, i, path)
    decreases k, |g.types[id].members| - i
  {
    hide Misses;
    var ms := g.types[id].members;
    if i < |ms| {
      MissesHere(g, id, i);
      if ms[i].ty in g.types {
        if Inlined(g, ms[i]) {
          ClearedIff(g, k - 1, ms[i].ty, start + ms[i].bitOffset / 8, 0);
        }
        ClearedIff(g, k, id, start, i + 1);
      }
    } else if path :| MissesFrom(g, id, i, path) {
      MissesInside(g, id, path);
    }
  }

  lemma MissesInside(g: Graph, id: Id, path: seq<nat>)
    requires Misses(g, id, path)
    ensures IsComposite(g, id) && path != [] && path[0] < |g.types[id].members|
  {
  }

  // A path starts at member i or later.
  lemma MissesHere(g: Graph, id: Id, i: nat)
    requires IsComposite(g, id) && i < |g.types[id].members|
    ensures var m, n := g.types[id].members[i], i + 1;
      (exists path :: MissesFrom(g, id, i, path))
      <==> (if Inlined(g, m) then exists path :: MissesFrom(g, m.ty, 0, path) else m.ty !in g.types)
           || exists path :: MissesFrom(g, id, n, path)
  {
    var m, n := g.types[id].members[i], i + 1;
    if path :| MissesFrom(g, id, i, path) {
      if path[0] > i {
        assert MissesFrom(g, id, n, path);
      } else if Inlined(g, m) {
        MissesInside(g, m.ty, path[1..]);
        assert MissesFrom(g, m.ty, 0, path[1..]);
      }
    }
    if path :| MissesFrom(g, id, n, path) {
      assert MissesFrom(g, id, i, path);
    }
    if !Inlined(g, m) {
      if m.ty !in g.types {
        assert MissesFrom(g, id, i, [i]);
      }
    } else if path :| MissesFrom(g, m.ty, 0, path) {
      assert ([i] + path)[1..] == path;
      assert MissesFrom(g, id, i, [i] + path);
    }
  }

  // One member of a composite whose members all have types.
  lemma GatherStep(g: Graph, k: nat, id: Id, start: nat, i: nat)
    requires IsComposite(g, id) && i < |g.types[id].members|
    requires Gather(g, k, id, start, i).Some? && !Gather(g, k, id, start, i).value.cleared
    ensures var m := g.types[id].members[i];
      && m.ty in g.types && GatherMember(g, k, m, start).Some? && !GatherMember(g, k, m, start).value.cleared
      && Gather(g, k, id, start, i + 1).Some? && !Gather(g, k, id, start, i + 1).value.cleared
      && Gather(g, k, id, start, i).value.fields
         == GatherMember(g, k, m, start).value.fields + Gather(g, k, id, start, i + 1).value.fields
  {
    hide GatherMember;
  }

  lemma {:induction false} PathToField(g: Graph, k: nat, id: Id, start: nat, i: nat, path: seq<nat>, f: Field<Id>)
    requires IsComposite(g, id) && i <= |g.types[id].members|
    requires Gather(g, k, id, start, i).Some? && !Gather(g, k, id, start, i).value.cleared
    requires LeadsTo(g, id, start, i, path, f)
    ensures f in Gather(g, k, id, start, i).value.fields
    decreases k, |g.types[id].members| - i
  {
    hide Gather;
    var m := g.types[id].members[i];
    GatherStep(g, k, id, start, i);
    if path[0] > i {
      PathToField(g, k, id, start, i + 1, path, f);
    } else if Inlined(g, m) {
      FollowInlined(g, id, start, path);
      PathToField(g, k - 1, m.ty, start + m.bitOffset / 8, 0, path[1..], f);
    }
  }

  lemma FollowInlined(g: Graph, id: Id, start: nat, path: seq<nat>)
    requires IsComposite(g, id) && path != [] && path[0] < |g.types[id].members|
    requires Inlined(g, g.types[id].members[path[0]])
    ensures var m := g.types[id].members[path[0]];
      && Follow(g, id, start, path) == Follow(g, m.ty, start + m.bitOffset / 8, path[1..])
      && (path[1..] == [] ==> Follow(g, id, start, path) == None)
  {
  }

  lemma {:induction false} FieldToPath(g: Graph, k: nat, id: Id, start: nat, i: nat, f: Field<Id>)
      returns (path: seq<nat>)
    requires IsComposite(g, id) && i <= |g.types[id].members|
    requires Gather(g, k, id, start, i).Some? && !Gather(g, k, id, start, i).value.cleared
    requires f in Gather(g, k, id, start, i).value.fields
    ensures LeadsTo(g, id, start, i, path, f)
    decreases k, |g.types[id].members| - i
  {
    hide Follow;
    var ms := g.types[id].members;
    assert i < |ms|;
    GatherStep(g, k, id, start, i);
    hide Gather;
    if f in Gather(g, k, id, start, i + 1).value.fields {
      path := FieldToPath(g, k, id, start, i + 1, f);
    } else if Inlined(g, ms[i]) {
      var tail := FieldToPath(g, k - 1, ms[i].ty, start + ms[i].bitOffset / 8, 0, f);
      path := [i] + tail;
      assert path[1..] == tail;
      FollowInlined(g, id, start, path);
    } else {
      path := [i];
      FollowLeaf(g, id, start, i);
    }
  }

  lemma FollowLeaf(g: Graph, id: Id, start: nat, i: nat)
    requires IsComposite(g, id) && i < |g.types[id].members| && !Inlined(g, g.types[id].members[i])
    ensures Follow(g, id, start, [i]) == Some(FieldOf(g.types[id].members[i], start))
  {
  }

  // A record must have exactly the members that some anonymous path leads to, each with the offsets of
  // the path summed, one for each name, and that one the first in declaration order.
  lemma ExpectedFields(g: Graph, k: nat, record: string, f: Field<Id>)
    requires WellFormed(g) && Find(g, record).Some? && IsComposite(g, Find(g, record).value)
    requires Expected(g, k, record).Some? && !exists path :: MissesFrom(g, Find(g, record).value, 0, path)
    ensures Gather(g, k, Find(g, record).value, 0, 0).Some?
    ensures var id, fs := Find(g, record).value, Expected(g, k, record).value;
      var all := Gather(g, k, id, 0, 0).value.fields;
      && (f in fs <==> IsFirst(all, f))
      && (f in all <==> exists path :: LeadsTo(g, id, 0, 0, path, f))
      && DistinctNames(fs)
  {
    hide WellFormed, Gather;
    var id := Find(g, record).value;
    ClearedIff(g, k, id, 0, 0);
    var all := Gather(g, k, id, 0, 0).value.fields;
    AddAllFirsts([], all, f);
    assert [] + all == all;
    if f in all {
      var path := FieldToPath(g, k, id, 0, 0, f);
      assert LeadsTo(g, id, 0, 0, path, f);
    }
    if path :| LeadsTo(g, id, 0, 0, path, f) {
      PathToField(g, k, id, 0, 0, path, f);
    }
  }

  // The imported field is the member's, with the type that describes the member's.
  ghost predicate FieldDescribed(g: Graph, f: Field<Id>, s: Field<SType>, table: Table) {
    && s.name == f.name && s.offset == f.offset && s.bitfield == f.bitfield
    && Describes(g, f.ty, s.ty, table)
  }

  lemma FilledDescribed(g: Graph, table: Table, record: string, fs: seq<Field<Id>>)
    requires Filled(g, table, record, fs)
    ensures record in table && |table[record].fields| == |fs|
    ensures forall i :: 0 <= i < |fs| ==> FieldDescribed(g, fs[i], table[record].fields[i], table)
  {
    hide TypeOf, Describes, Present;
    var k :| Matches(g, k, fs, table[record].fields, table);
    forall i | 0 <= i < |fs| ensures FieldDescribed(g, fs[i], table[record].fields[i], table) {
      assert FieldMatches(g, k, fs[i], table[record].fields[i], table);
      TypeDescribes(g, k, fs[i].ty, table);
    }
  }

  // What an import leaves in the table, in terms of paths.
  lemma ImportedFields(g: Graph, table: Table, record: string) returns (all: seq<Field<Id>>, fs: seq<Field<Id>>)
    requires WellFormed(g) && Holds(g, table, record) && Find(g, record).Some?
    requires !exists path :: MissesFrom(g, Find(g, record).value, 0, path)
    ensures Filled(g, table, record, fs) && DistinctNames(fs)
    ensures forall f :: f in fs <==> IsFirst(all, f)
    ensures forall f :: f in all <==> exists path :: LeadsTo(g, Find(g, record).value, 0, 0, path, f)
    ensures record in table && |table[record].fields| == |fs|
    ensures forall i :: 0 <= i < |fs| ==> FieldDescribed(g, fs[i], table[record].fields[i], table)
  {
    hide WellFormed, Filled, Gather, LeadsTo, IsFirst, DistinctNames, FieldDescribed;
    fs :| IsExpected(g, record, fs) && Filled(g, table, record, fs);
    FilledDescribed(g, table, record, fs);
    var k :| Expected(g, k, record) == Some(fs);
    FindIsComposite(g, record);
    all := Gather(g, k, Find(g, record).value, 0, 0).value.fields;
    hide Expected;
    AllExpected(g, k, record);
  }

  lemma AllExpected(g: Graph, k: nat, record: string)
    requires WellFormed(g) && Find(g, record).Some? && IsComposite(g, Find(g, record).value)
    requires Expected(g, k, record).Some? && !exists path :: MissesFrom(g, Find(g, record).value, 0, path)
    ensures Gather(g, k, Find(g, record).value, 0, 0).Some? && DistinctNames(Expected(g, k, record).value)
    ensures var id, fs := Find(g, record).value, Expected(g, k, record).value;
      var all := Gather(g, k, id, 0, 0).value.fields;
      && (forall f :: f in fs <==> IsFirst(all, f))
      && (forall f :: f in all <==> exists path :: LeadsTo(g, id, 0, 0, path, f))
  {
    hide WellFormed, Gather, LeadsTo, IsFirst, DistinctNames;
    var id := Find(g, record).value;
    ExpectedFields(g, k, record, Field("", 0, 0, None));
    forall f
      ensures f in Expected(g, k, record).value <==> IsFirst(Gather(g, k, id, 0, 0).value.fields, f)
      ensures f in Gather(g, k, id, 0, 0).value.fields <==> exists path :: LeadsTo(g, id, 0, 0, path, f)
    {
      ExpectedFields(g, k, record, f);
    }
  }

  // One member without a type leaves the whole record without fields, whatever came before it.
  lemma {:induction false} MissingMemberClears(g: Graph, k: nat, id: Id, start: nat, i: nat, acc: seq<Field<Id>>)
    requires IsComposite(g, id) && i <= |Live(g, g.types[id].members)| && Gather(g, k, id, start, i).Some?
    requires exists m :: m in g.types[id].members && m.ty !in g.types
    ensures Gather(g, k, id, start, i) == Some(Batch(true, []))
    ensures Apply(Gather(g, k, id, start, i).value, acc) == []
    decreases |g.types[id].members| - i
  {
    hide GatherMember;
    if i < |Live(g, g.types[id].members)| {
      MissingMemberClears(g, k, id, start, i + 1, acc);
    }
  }
}
