/**
 What a finished import leaves behind: everything that it leads to is settled, except through the
 records that are still being filled, which are called open.
 */
module ImportState {
  import opened Prelude
  import opened TypeGraph
  import opened RecordFields

  // An imported field, and the type and field that it comes from.
  predicate FieldMatches(g: Graph, k: nat, f: Field<Id>, s: Field<SType>, table: Table) {
    && s.name == f.name && s.offset == f.offset && s.bitfield == f.bitfield
    && TypeOf(g, k, f.ty, table) == Some(s.ty) && Present(s.ty, table)
  }

  predicate Matches(g: Graph, k: nat, fs: seq<Field<Id>>, ss: seq<Field<SType>>, table: Table) {
    |fs| == |ss| && forall i :: 0 <= i < |fs| ==> FieldMatches(g, k, fs[i], ss[i], table)
  }

  // The record holds these fields, imported.
  ghost predicate Filled(g: Graph, table: Table, name: string, fs: seq<Field<Id>>) {
    name in table && exists k :: Matches(g, k, fs, table[name].fields, table)
  }

  ghost predicate IsExpected(g: Graph, name: string, fs: seq<Field<Id>>)
    requires WellFormed(g)
  {
    exists k :: Expected(g, k, name) == Some(fs)
  }

  // The record holds the fields that it must have.
  ghost predicate Holds(g: Graph, table: Table, name: string)
    requires WellFormed(g)
  {
    exists fs :: IsExpected(g, name, fs) && Filled(g, table, name, fs)
  }

  ghost predicate Settled(g: Graph, table: Table, node: Node)
    requires WellFormed(g)
  {
    match node
    case TypeNode(id, _) => exists k :: TypeSettled(g, k, id, table)
    case PointeeNode(id) => exists k, tags :: PointerSettled(g, k, id, tags, table)
    case RecordNode(name) => Holds(g, table, name)
    case MembersNode(id) => IsComposite(g, id) ==> exists k, start :: Gather(g, k, id, start, 0).Some?
  }

  predicate TypeSettled(g: Graph, k: nat, id: Id, table: Table) {
    TypeOf(g, k, id, table).Some? && Present(TypeOf(g, k, id, table).value, table)
  }

  predicate PointerSettled(g: Graph, k: nat, id: Id, tags: set<string>, table: Table) {
    PointerTo(g, k, id, tags, table).Some? && Present(PointerTo(g, k, id, tags, table).value, table)
  }

  // Chains of calls that do not go through open records.

  predicate IsOpen(node: Node, open: set<string>) {
    node.RecordNode? && node.name in open
  }

  predicate ChainPast(g: Graph, a: Node, path: seq<Node>, b: Node, open: set<string>)
    decreases path
  {
    !IsOpen(a, open) &&
    if path == [] then Calls(g, a, b) else Calls(g, a, path[0]) && ChainPast(g, path[0], path[1..], b, open)
  }

  // Everything that the call leads to, short of open records, is settled.
  ghost predicate AllSettled(g: Graph, table: Table, open: set<string>, a: Node)
    requires WellFormed(g)
  {
    && (IsOpen(a, open) || Settled(g, table, a))
    && forall path, b :: ChainPast(g, a, path, b, open) ==> IsOpen(b, open) || Settled(g, table, b)
  }

  // A record that has fields and is not open is complete, and so is everything that it leads to.
  ghost predicate Sound(g: Graph, table: Table, open: set<string>)
    requires WellFormed(g)
  {
    forall name :: name in table && table[name].fields != [] && name !in open ==>
      AllSettled(g, table, open, RecordNode(name))
  }

  // Stability.

  lemma MatchesMore(g: Graph, k: nat, l: nat, fs: seq<Field<Id>>, ss: seq<Field<SType>>, table: Table)
    requires k <= l && Matches(g, k, fs, ss, table)
    ensures Matches(g, l, fs, ss, table)
  {
    hide TypeOf, Present;
    forall i | 0 <= i < |fs| ensures FieldMatches(g, l, fs[i], ss[i], table) {
      assert FieldMatches(g, k, fs[i], ss[i], table);
      TypeOfMore(g, k, l, fs[i].ty, table);
    }
  }

  lemma MatchesKept(g: Graph, k: nat, fs: seq<Field<Id>>, ss: seq<Field<SType>>, was: Table, now: Table)
    requires Matches(g, k, fs, ss, was) && SizesKept(was, now)
    ensures Matches(g, k, fs, ss, now)
  {
    hide TypeOf, Present, SizesKept;
    forall i | 0 <= i < |fs| ensures FieldMatches(g, k, fs[i], ss[i], now) {
      assert FieldMatches(g, k, fs[i], ss[i], was);
      TypeKept(g, k, fs[i].ty, was, now);
    }
  }

  lemma FilledKept(g: Graph, was: Table, now: Table, name: string, fs: seq<Field<Id>>)
    requires Filled(g, was, name, fs) && SizesKept(was, now) && now[name].fields == was[name].fields
    ensures Filled(g, now, name, fs)
  {
    hide Matches;
    var k :| Matches(g, k, fs, was[name].fields, was);
    MatchesKept(g, k, fs, was[name].fields, was, now);
  }

  lemma ExpectedUnique(g: Graph, name: string, fs: seq<Field<Id>>, gs: seq<Field<Id>>)
    requires WellFormed(g) && IsExpected(g, name, fs) && IsExpected(g, name, gs)
    ensures fs == gs
  {
    hide WellFormed, Expected;
    var k :| Expected(g, k, name) == Some(fs);
    var l :| Expected(g, l, name) == Some(gs);
    if k <= l {
      ExpectedMore(g, k, l, name);
    } else {
      ExpectedMore(g, l, k, name);
    }
  }

  lemma HoldsKept(g: Graph, was: Table, now: Table, name: string)
    requires WellFormed(g) && Holds(g, was, name) && SizesKept(was, now) && now[name].fields == was[name].fields
    ensures Holds(g, now, name)
  {
    hide WellFormed, Filled, IsExpected;
    var fs :| IsExpected(g, name, fs) && Filled(g, was, name, fs);
    FilledKept(g, was, now, name, fs);
  }

  // Records that are not open keep the fields they have.
  ghost predicate ClosedKept(was: Table, now: Table, open: set<string>) {
    && SizesKept(was, now)
    && forall name :: name in was && name !in open && was[name].fields != [] ==> now[name].fields == was[name].fields
  }

  lemma SettledKept(g: Graph, was: Table, now: Table, open: set<string>, b: Node)
    requires WellFormed(g) && Settled(g, was, b) && !IsOpen(b, open) && ClosedKept(was, now, open)
    requires Sound(g, now, open)
             || (b.RecordNode? ==> b.name in was && now[b.name].fields == was[b.name].fields)
    ensures Settled(g, now, b)
  {
    hide WellFormed, Holds, TypeOf, PointerTo, Present, Gather;
    match b
    case TypeNode(id, _) =>
      var k :| TypeSettled(g, k, id, was);
      TypeKept(g, k, id, was, now);
      assert TypeSettled(g, k, id, now);
    case PointeeNode(id) =>
      var k, tags :| PointerSettled(g, k, id, tags, was);
      PointerKept(g, k, id, tags, was, now);
      assert PointerSettled(g, k, id, tags, now);
    case RecordNode(name) =>
      HeldIsThere(g, was, name);
      if now[name].fields == was[name].fields {
        HoldsKept(g, was, now, name);
      } else {
        assert AllSettled(g, now, open, b);
      }
    case MembersNode(_) =>
  }

  lemma HeldIsThere(g: Graph, table: Table, name: string)
    requires WellFormed(g) && Holds(g, table, name)
    ensures name in table
  {
    hide WellFormed;
  }

  lemma AllSettledKept(g: Graph, was: Table, now: Table, open: set<string>, a: Node)
    requires WellFormed(g) && AllSettled(g, was, open, a) && ClosedKept(was, now, open) && Sound(g, now, open)
    ensures AllSettled(g, now, open, a)
  {
    hide WellFormed, Settled, Sound, ClosedKept;
    if !IsOpen(a, open) {
      SettledKept(g, was, now, open, a);
    }
    forall path, b | ChainPast(g, a, path, b, open) ensures IsOpen(b, open) || Settled(g, now, b) {
      if !IsOpen(b, open) {
        SettledKept(g, was, now, open, b);
      }
    }
  }

  // Nothing changes but the fields of open records, and records without fields that are added.
  lemma SoundKept(g: Graph, was: Table, now: Table, open: set<string>)
    requires WellFormed(g) && Sound(g, was, open) && SizesKept(was, now)
    requires forall name :: name in was && name !in open ==> now[name].fields == was[name].fields
    requires forall name :: name in now && name !in was ==> now[name].fields == []
    ensures Sound(g, now, open)
    ensures forall a :: AllSettled(g, was, open, a) ==> AllSettled(g, now, open, a)
  {
    hide WellFormed, Settled;
    forall a | AllSettled(g, was, open, a) ensures AllSettled(g, now, open, a) {
      UnchangedKept(g, was, now, open, a);
    }
  }

  lemma UnchangedKept(g: Graph, was: Table, now: Table, open: set<string>, a: Node)
    requires WellFormed(g) && AllSettled(g, was, open, a) && SizesKept(was, now)
    requires forall name :: name in was && name !in open ==> now[name].fields == was[name].fields
    ensures AllSettled(g, now, open, a)
  {
    hide WellFormed, Holds;
    if !IsOpen(a, open) {
      UnchangedSettled(g, was, now, open, a);
    }
    forall path, b | ChainPast(g, a, path, b, open) ensures IsOpen(b, open) || Settled(g, now, b) {
      if !IsOpen(b, open) {
        UnchangedSettled(g, was, now, open, b);
      }
    }
  }

  lemma UnchangedSettled(g: Graph, was: Table, now: Table, open: set<string>, b: Node)
    requires WellFormed(g) && Settled(g, was, b) && !IsOpen(b, open) && SizesKept(was, now)
    requires forall name :: name in was && name !in open ==> now[name].fields == was[name].fields
    ensures Settled(g, now, b)
  {
    hide WellFormed, Holds;
    if b.RecordNode? {
      HeldIsThere(g, was, b.name);
    }
    SettledKept(g, was, now, open, b);
  }

  // Calls.

  lemma AllSettledStep(g: Graph, table: Table, open: set<string>, a: Node, b: Node)
    requires WellFormed(g) && AllSettled(g, table, open, a) && !IsOpen(a, open) && Calls(g, a, b)
    ensures AllSettled(g, table, open, b)
  {
    hide WellFormed, Settled, Calls;
    assert ChainPast(g, a, [], b, open);
    forall path, c | ChainPast(g, b, path, c, open) ensures IsOpen(c, open) || Settled(g, table, c) {
      assert ([b] + path)[1..] == path;
      assert ChainPast(g, a, [b] + path, c, open);
    }
  }

  lemma AllSettledFrom(g: Graph, table: Table, open: set<string>, a: Node)
    requires WellFormed(g) && (IsOpen(a, open) || Settled(g, table, a))
    requires forall b :: Calls(g, a, b) ==> AllSettled(g, table, open, b)
    ensures AllSettled(g, table, open, a)
  {
    hide WellFormed, Settled, Calls;
    forall path, c | ChainPast(g, a, path, c, open) ensures IsOpen(c, open) || Settled(g, table, c) {
      if path != [] {
        assert AllSettled(g, table, open, path[0]) && ChainPast(g, path[0], path[1..], c, open);
      } else {
        assert AllSettled(g, table, open, c);
      }
    }
  }

  // Opening a record asks for less.

  lemma {:induction false} ChainPastFewer(g: Graph, a: Node, path: seq<Node>, b: Node, open: set<string>, more: set<string>)
    requires open <= more && ChainPast(g, a, path, b, more)
    ensures ChainPast(g, a, path, b, open)
    decreases path
  {
    hide Calls;
    if path != [] {
      ChainPastFewer(g, path[0], path[1..], b, open, more);
    }
  }

  lemma SoundOpened(g: Graph, table: Table, open: set<string>, more: set<string>)
    requires WellFormed(g) && Sound(g, table, open) && open <= more
    ensures Sound(g, table, more)
  {
    hide WellFormed, Settled;
    forall name | name in table && table[name].fields != [] && name !in more
      ensures AllSettled(g, table, more, RecordNode(name))
    {
      assert AllSettled(g, table, open, RecordNode(name));
      forall path, b | ChainPast(g, RecordNode(name), path, b, more) ensures IsOpen(b, more) || Settled(g, table, b) {
        ChainPastFewer(g, RecordNode(name), path, b, open, more);
      }
    }
  }

  // Closing a record whose members are settled.

  // The record's members, settled short of the open records and of the record itself.
  ghost predicate MembersDone(g: Graph, table: Table, open: set<string>, name: string)
    requires WellFormed(g)
  {
    && Holds(g, table, name)
    && forall b, c :: Calls(g, RecordNode(name), b) && Calls(g, b, c) ==>
         Settled(g, table, b) && AllSettled(g, table, open + {name}, c)
  }

  lemma {:induction false} Walk(
      g: Graph, table: Table, open: set<string>, name: string, a: Node, path: seq<Node>, b: Node)
    requires WellFormed(g) && MembersDone(g, table, open, name) && AllSettled(g, table, open + {name}, a)
    requires ChainPast(g, a, path, b, open) && a != RecordNode(name)
    requires forall c :: Calls(g, RecordNode(name), c) ==> Settled(g, table, c)
    ensures IsOpen(b, open) || Settled(g, table, b)
    decreases path
  {
    hide WellFormed, Settled, Calls, Holds;
    var next := if path == [] then b else path[0];
    AllSettledStep(g, table, open + {name}, a, next);
    if path == [] {
      NameSettled(g, table, name);
    } else if next == RecordNode(name) {
      FromRecord(g, table, open, name, path[1..], b);
    } else {
      Walk(g, table, open, name, next, path[1..], b);
    }
  }

  lemma NameSettled(g: Graph, table: Table, name: string)
    requires WellFormed(g) && Holds(g, table, name)
    ensures Settled(g, table, RecordNode(name))
  {
  }

  lemma {:induction false} FromRecord(
      g: Graph, table: Table, open: set<string>, name: string, path: seq<Node>, b: Node)
    requires WellFormed(g) && MembersDone(g, table, open, name) && ChainPast(g, RecordNode(name), path, b, open)
    requires forall c :: Calls(g, RecordNode(name), c) ==> Settled(g, table, c)
    ensures IsOpen(b, open) || Settled(g, table, b)
    decreases path
  {
    hide WellFormed, Settled, Calls, Holds;
    if path != [] {
      var c := path[0];
      var next := if |path| == 1 then b else path[1];
      assert Calls(g, c, next) && AllSettled(g, table, open + {name}, next);
      MemberIsNoRecord(g, name, c, next);
      if |path| > 1 {
        assert path[1..][0] == next;
        Walk(g, table, open, name, next, path[1..][1..], b);
      }
    }
  }

  lemma MemberIsNoRecord(g: Graph, name: string, c: Node, x: Node)
    requires Calls(g, RecordNode(name), c) && Calls(g, c, x)
    ensures !x.RecordNode?
  {
  }

  lemma RecordClosed(g: Graph, table: Table, open: set<string>, name: string)
    requires WellFormed(g) && Sound(g, table, open + {name}) && MembersDone(g, table, open, name)
    requires forall c :: Calls(g, RecordNode(name), c) ==> Settled(g, table, c)
    ensures Sound(g, table, open) && AllSettled(g, table, open, RecordNode(name))
  {
    hide WellFormed, Settled, Calls, Holds;
    NameSettled(g, table, name);
    forall path, b | ChainPast(g, RecordNode(name), path, b, open) ensures IsOpen(b, open) || Settled(g, table, b) {
      FromRecord(g, table, open, name, path, b);
    }
    forall n | n in table && table[n].fields != [] && n !in open && n != name
      ensures AllSettled(g, table, open, RecordNode(n))
    {
      assert AllSettled(g, table, open + {name}, RecordNode(n));
      forall path, b | ChainPast(g, RecordNode(n), path, b, open) ensures IsOpen(b, open) || Settled(g, table, b) {
        Walk(g, table, open, name, RecordNode(n), path, b);
      }
    }
  }
}
