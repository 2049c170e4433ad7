/**
 The importer of BTF types (src/btf.cpp:390-469, 1130-1197; src/struct.cpp:139-162, 198-205), with the
 table of records that it fills in place.  A method is called only where it ends, and its number of
 nested calls serves as the measure.
 */
module TypeImport {
  import opened Prelude
  import opened TypeGraph
  import opened RecordFields
  import opened TypeRuns
  import opened TypeFrames
  import opened DeclaredTypes
  import opened ImportState
  import opened ImportCorrect
  import opened ImportEnds

  class Importer {
    const g: Graph
    var structs: Table

    // Between imports, every record is either without fields or complete, and so is everything that
    // a complete record leads to.
    ghost predicate Valid()
      reads this
    {
      WellFormed(g) && Sound(g, structs, {}) && SizesDeclared(g, structs)
    }

    constructor (g: Graph)
      requires WellFormed(g)
      ensures Valid() && this.g == g && structs == map[]
    {
      this.g := g;
      structs := map[];
    }

    // The type behind typedefs and qualifiers is imported in the place of the first one.
    method SkipModifiers(id: Id, ghost resolve: bool, ghost k: nat) returns (end: Id, ghost left: nat)
      requires WellFormed(g) && id in g.types && RunType(g, k, id, resolve, structs).Some?
      ensures end in g.types && !g.types[end].Modifier? && left <= k
      ensures RunType(g, left, end, resolve, structs) == RunType(g, k, id, resolve, structs)
    {
      end, left := id, k;
      while g.types[end].Modifier?
        invariant end in g.types && left <= k
        invariant RunType(g, left, end, resolve, structs) == RunType(g, k, id, resolve, structs)
        decreases left
      {
        end, left := g.types[end].target, left - 1;
      }
    }

    // The tags of the chain, and the type that they apply to.
    method GetTypeTags(id: Id, ghost k: nat) returns (tags: set<string>, end: Id, ghost left: nat)
      requires WellFormed(g) && RunPointee(g, k, id, {}, structs).Some?
      ensures !(end in g.types && g.types[end].TypeTag?) && left <= k
      ensures RunPointee(g, left, end, tags, structs) == RunPointee(g, k, id, {}, structs)
    {
      hide WellFormed, RunType;
      tags, end, left := {}, id, k;
      while end in g.types && g.types[end].TypeTag?
        invariant left <= k && RunPointee(g, left, end, tags, structs) == RunPointee(g, k, id, {}, structs)
        decreases left
      {
        tags, end, left := tags + {g.types[end].tag}, g.types[end].target, left - 1;
      }
    }

    method LookupOrAdd(name: string, size: nat)
      modifies this
      ensures structs == if name in old(structs) then old(structs) else old(structs)[name := Record(size, [])]
    {
      if name !in structs {
        structs := structs[name := Record(size, [])];
      }
    }

    method GetStype(id: Id, resolve: bool, ghost k: nat) returns (t: SType)
      requires WellFormed(g) && RunType(g, k, id, resolve, structs).Some?
      modifies this
      ensures RunType(g, k, id, resolve, old(structs)) == Some((t, structs))
      decreases k, 3
    {
      hide WellFormed;
      if id !in g.types {
        return Nothing;
      }
      ghost var left;
      var end;
      end, left := SkipModifiers(id, resolve, k);
      t := GetBareStype(end, resolve, left);
    }

    // The part of get_stype after the modifiers.
    method GetBareStype(id: Id, resolve: bool, ghost k: nat) returns (t: SType)
      requires WellFormed(g) && id in g.types && !g.types[id].Modifier?
      requires RunType(g, k, id, resolve, structs).Some?
      modifies this
      ensures RunType(g, k, id, resolve, old(structs)) == Some((t, structs))
      decreases k, 2
    {
      hide WellFormed, RunNamed;
      match g.types[id]
      case Int(bits, signed, isBool) =>
        t := if isBool then Bool else IntegerOf(bits, signed);
      case Enum(size) =>
        t := IntegerOf(size * 8, false);
      case Composite(isStruct, name, size, _) =>
        if Anonymous(name) {
          t := Nothing;
        } else {
          t := GetRecord(RecordName(isStruct, name), size, resolve, k - 1);
        }
      case Ptr(target) =>
        ghost var left;
        var tags, end;
        tags, end, left := GetTypeTags(target, k - 1);
        var pointee := GetStype(end, false, left - 1);
        t := Pointer(pointee, tags);
      case Arr(elem, count) =>
        var elemType := GetStype(elem, true, k - 1);
        t := ArrayOf(count, elemType);
      case TypeTag(_, _) => t := Nothing;
      case Other => t := Nothing;
    }

    method GetRecord(full: string, size: nat, resolve: bool, ghost k: nat) returns (t: SType)
      requires WellFormed(g) && RunNamed(g, k, full, size, resolve, structs).Some?
      modifies this
      ensures RunNamed(g, k, full, size, resolve, old(structs)) == Some((t, structs))
      decreases k, 5
    {
      hide WellFormed, RunRecord;
      LookupOrAdd(full, size);
      t := Rec(full, structs[full].size);
      if resolve {
        ResolveRecord(full, k);
      }
    }

    method ResolveRecord(name: string, ghost k: nat)
      requires WellFormed(g) && name in structs && RunRecord(g, k, name, structs).Some?
      modifies this
      ensures RunRecord(g, k, name, old(structs)) == Some(structs)
      decreases k, 4
    {
      hide WellFormed, RunMembers;
      if structs[name].fields != [] {
        return;
      }
      var c := Find(g, name);
      if c == None {
        return;
      }
      FindIsComposite(g, name);
      ResolveMembers(c.value, name, 0, k - 1);
    }

    method ResolveMembers(id: Id, name: string, start: nat, ghost k: nat)
      requires WellFormed(g) && name in structs && IsComposite(g, id)
      requires RunMembers(g, k, id, name, start, structs, 0).Some?
      modifies this
      ensures RunMembers(g, k, id, name, start, old(structs), 0) == Some(structs)
      decreases k, 5
    {
      hide WellFormed, RunMember;
      var ms := g.types[id].members;
      var i := 0;
      while i < |ms|
        invariant i <= |ms| && name in structs
        invariant RunMembers(g, k, id, name, start, structs, i) == RunMembers(g, k, id, name, start, old(structs), 0)
      {
        if ms[i].ty !in g.types {
          ClearFields(name);
          break;
        }
        ResolveMember(ms[i], name, start, k);
        i := i + 1;
      }
    }

    // One round of the loop over the members.
    method ResolveMember(m: Member, name: string, start: nat, ghost k: nat)
      requires WellFormed(g) && name in structs && RunMember(g, k, m, name, start, structs).Some?
      modifies this
      ensures RunMember(g, k, m, name, start, old(structs)) == Some(structs) && name in structs
      decreases k, 4
    {
      hide WellFormed, RunMembers, RunType;
      var offset := start + m.bitOffset / 8;
      if Inlined(g, m) {
        ResolveMembers(m.ty, name, offset, k - 1);
      } else {
        var t := GetStype(m.ty, true, k);
        AddFieldTo(name, Field(m.name, t, offset, BitfieldOf(m)));
      }
    }

    method AddFieldTo(name: string, f: Field<SType>)
      requires name in structs
      modifies this
      ensures structs == TypeRuns.AddFieldTo(old(structs), name, f)
    {
      var record := structs[name];
      if !HasField(record.fields, f.name) {
        structs := structs[name := record.(fields := record.fields + [f])];
      } else {
        assert structs == structs[name := record];
      }
    }

    method ClearFields(name: string)
      requires name in structs
      modifies this
      ensures structs == SetFields(old(structs), name, [])
    {
      structs := structs[name := structs[name].(fields := [])];
    }

    // get_stype called from outside.  Wherever it ends, it returns the type that describes the declared
    // one, leaves every record that it leads to with the fields the record must have, and gives fields to
    // no other.
    method ImportType(id: Id) returns (t: SType)
      requires Valid() && Ends(g, id, true, structs)
      modifies this
      ensures Valid()
      ensures Describes(g, id, t, structs) && exists k :: TypeOf(g, k, id, structs) == Some(t)
      ensures forall name :: Reaches(g, TypeNode(id, true), RecordNode(name)) ==> Holds(g, structs, name)
      ensures forall name :: name in structs && !Reaches(g, TypeNode(id, true), RecordNode(name)) ==>
        structs[name].fields == if name in old(structs) then old(structs)[name].fields else []
      ensures forall name :: name in old(structs) ==>
        name in structs && structs[name].size == old(structs)[name].size
    {
      hide WellFormed, Sound, SizesDeclared, RunType, Reaches, Holds, TypeOf, Describes;
      ghost var k :| RunType(g, k, id, true, structs).Some?;
      ghost var before := structs;
      t := GetStype(id, true, k);
      TypeCorrect(g, k, id, true, before, {});
      TypeDescribes(g, k, id, structs);
      TypeEvolves(g, k, id, true, before);
      GoodReached(g, before, structs, TypeNode(id, true));
      OthersKept(g, before, structs, TypeNode(id, true));
    }
  }

  lemma GoodReached(g: Graph, was: Table, now: Table, a: Node)
    requires WellFormed(g) && Good(g, was, now, {}, a)
    ensures Sound(g, now, {})
    ensures forall name :: Reaches(g, a, RecordNode(name)) ==> Holds(g, now, name)
  {
    hide WellFormed, Sound, Holds, OpenFrame, ClosedKept;
    forall name | Reaches(g, a, RecordNode(name)) ensures Holds(g, now, name) {
      var path :| Chain(g, a, path, RecordNode(name));
      PastNothing(g, a, path, RecordNode(name));
      assert Settled(g, now, RecordNode(name));
    }
  }

  lemma {:induction false} PastNothing(g: Graph, a: Node, path: seq<Node>, b: Node)
    requires Chain(g, a, path, b)
    ensures ChainPast(g, a, path, b, {})
    decreases path
  {
    hide Calls;
    if path != [] {
      PastNothing(g, path[0], path[1..], b);
    }
  }

  lemma OthersKept(g: Graph, was: Table, now: Table, from: Node)
    requires Evolves(g, was, now, from, None) && !from.RecordNode?
    ensures SizesKept(was, now) && (SizesDeclared(g, was) ==> SizesDeclared(g, now))
    ensures forall name :: name in now && !Reaches(g, from, RecordNode(name)) ==>
      now[name].fields == if name in was then was[name].fields else []
  {
    hide Reaches, SizesDeclared;
    forall name | name in now && !Reaches(g, from, RecordNode(name))
      ensures now[name].fields == if name in was then was[name].fields else []
    {
      assert !Covers(g, from, name) && !Gains(was, now, name);
    }
  }
}
