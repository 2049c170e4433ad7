/**
 The calls of an import that are made while the record being filled may still have no fields.  Only
 such a call can find the record in need of its fields again (src/btf.cpp:1135-1137), so only a
 cycle of such calls keeps an import from ending.
 */
module EarlyCalls {
  import opened Prelude
  import opened TypeGraph
  import opened ImportState

  // The types of members that are imported while the record may be without fields, and whether it
  // may be so afterwards.
  datatype Scan = Scan(types: set<Id>, bare: bool)

  // The members of a composite from member i on.
  function Early(g: Graph, k: nat, id: Id, bare: bool, i: nat): Option<Scan>
    requires IsComposite(g, id) && i <= |g.types[id].members|
    decreases k, 1 + |g.types[id].members| - i
  {
    var ms := g.types[id].members;
    if i == |ms| then Some(Scan({}, bare))
    else if ms[i].ty !in g.types then Some(Scan({}, true))
    else
      match EarlyMember(g, k, ms[i], bare)
      case None => None
      case Some(first) =>
        match Early(g, k, id, first.bare, i + 1)
        case None => None
        case Some(rest) => Some(Scan(first.types + rest.types, rest.bare))
  }

  // A member with a name adds a field.
  function EarlyMember(g: Graph, k: nat, m: Member, bare: bool): Option<Scan>
    decreases k, 0
  {
    if !Inlined(g, m) then Some(Scan(if bare then {m.ty} else {}, false))
    else if k == 0 then None
    else Early(g, k - 1, m.ty, bare, 0)
  }

  predicate EarlyIn(g: Graph, k: nat, id: Id, ty: Id)
    requires IsComposite(g, id)
  {
    Early(g, k, id, true, 0).Some? && ty in Early(g, k, id, true, 0).value.types
  }

  // The record's fields begin with the import of this type.
  ghost predicate IsEarly(g: Graph, name: string, ty: Id) {
    && Find(g, name).Some? && IsComposite(g, Find(g, name).value)
    && exists k :: EarlyIn(g, k, Find(g, name).value, ty)
  }

  // Records of `done` have fields from the start.
  ghost predicate EarlyCall(g: Graph, done: set<string>, a: Node, b: Node) {
    match a
    case TypeNode(_, _) => Calls(g, a, b)
    case PointeeNode(_) => Calls(g, a, b)
    case RecordNode(name) => name !in done && b.TypeNode? && b.resolve && IsEarly(g, name, b.id)
    case MembersNode(_) => Calls(g, a, b) && b.MembersNode?
  }

  ghost predicate EarlyChain(g: Graph, done: set<string>, a: Node, path: seq<Node>, b: Node)
    decreases path
  {
    if path == [] then EarlyCall(g, done, a, b)
    else EarlyCall(g, done, a, path[0]) && EarlyChain(g, done, path[0], path[1..], b)
  }

  ghost predicate EarlyReaches(g: Graph, done: set<string>, a: Node, b: Node) {
    exists path :: EarlyChain(g, done, a, path, b)
  }

  ghost predicate ReachesPast(g: Graph, done: set<string>, a: Node, b: Node) {
    exists path :: ChainPast(g, a, path, b, done)
  }

  // No call that `a` leads to comes back to itself by early calls.
  ghost predicate NoLoop(g: Graph, done: set<string>, a: Node) {
    forall b :: b == a || ReachesPast(g, done, a, b) ==> !EarlyReaches(g, done, b, b)
  }

  // Chains.

  lemma {:induction false} EarlyAppends(
      g: Graph, done: set<string>, a: Node, p: seq<Node>, b: Node, q: seq<Node>, c: Node)
    requires EarlyChain(g, done, a, p, b) && EarlyChain(g, done, b, q, c)
    ensures EarlyChain(g, done, a, p + [b] + q, c)
    decreases p
  {
    hide EarlyCall;
    if p == [] {
      assert ([] + [b] + q)[1..] == q;
    } else {
      EarlyAppends(g, done, p[0], p[1..], b, q, c);
      assert (p + [b] + q)[1..] == p[1..] + [b] + q;
    }
  }

  lemma EarlyReachesOn(g: Graph, done: set<string>, a: Node, b: Node, c: Node)
    requires EarlyReaches(g, done, a, b) && EarlyReaches(g, done, b, c)
    ensures EarlyReaches(g, done, a, c)
  {
    hide EarlyChain;
    var p :| EarlyChain(g, done, a, p, b);
    var q :| EarlyChain(g, done, b, q, c);
    EarlyAppends(g, done, a, p, b, q, c);
  }

  lemma EarlyCallReaches(g: Graph, done: set<string>, a: Node, b: Node)
    requires EarlyCall(g, done, a, b)
    ensures EarlyReaches(g, done, a, b)
  {
    hide EarlyCall;
    assert EarlyChain(g, done, a, [], b);
  }

  // A chain of early calls starts with one.
  lemma EarlyReachesVia(g: Graph, done: set<string>, a: Node, c: Node) returns (b: Node)
    requires EarlyReaches(g, done, a, c)
    ensures EarlyCall(g, done, a, b) && (b == c || EarlyReaches(g, done, b, c))
  {
    hide EarlyCall;
    var path :| EarlyChain(g, done, a, path, c);
    b := if path == [] then c else path[0];
    if path != [] {
      assert EarlyChain(g, done, b, path[1..], c);
    }
  }

  lemma {:induction false} PastAppends(
      g: Graph, done: set<string>, a: Node, p: seq<Node>, b: Node, q: seq<Node>, c: Node)
    requires ChainPast(g, a, p, b, done) && ChainPast(g, b, q, c, done)
    ensures ChainPast(g, a, p + [b] + q, c, done)
    decreases p
  {
    hide Calls;
    if p == [] {
      assert ([] + [b] + q)[1..] == q;
    } else {
      PastAppends(g, done, p[0], p[1..], b, q, c);
      assert (p + [b] + q)[1..] == p[1..] + [b] + q;
    }
  }

  lemma ReachesPastOn(g: Graph, done: set<string>, a: Node, b: Node, c: Node)
    requires ReachesPast(g, done, a, b) && ReachesPast(g, done, b, c)
    ensures ReachesPast(g, done, a, c)
  {
    hide ChainPast;
    var p :| ChainPast(g, a, p, b, done);
    var q :| ChainPast(g, b, q, c, done);
    PastAppends(g, done, a, p, b, q, c);
  }

  lemma CallReachesPast(g: Graph, done: set<string>, a: Node, b: Node)
    requires Calls(g, a, b) && !IsOpen(a, done)
    ensures ReachesPast(g, done, a, b)
  {
    hide Calls;
    assert ChainPast(g, a, [], b, done);
  }

  lemma NoLoopStep(g: Graph, done: set<string>, a: Node, b: Node)
    requires NoLoop(g, done, a) && Calls(g, a, b) && !IsOpen(a, done)
    ensures NoLoop(g, done, b)
  {
    hide Calls, ReachesPast, EarlyReaches;
    CallReachesPast(g, done, a, b);
    forall c | ReachesPast(g, done, b, c) ensures ReachesPast(g, done, a, c) {
      ReachesPastOn(g, done, a, b, c);
    }
  }

  // Early calls are calls, or short for several.

  lemma {:induction false} EarlyIsReached(g: Graph, done: set<string>, k: nat, id: Id, bare: bool, i: nat, ty: Id)
    requires IsComposite(g, id) && i <= |Live(g, g.types[id].members)|
    requires Early(g, k, id, bare, i).Some? && ty in Early(g, k, id, bare, i).value.types
    ensures ty in g.types && ReachesPast(g, done, MembersNode(id), TypeNode(ty, true))
    decreases k, 1 + |g.types[id].members| - i
  {
    hide Calls, ReachesPast, Live;
    var ms := g.types[id].members;
    if i < |Live(g, ms)| {
      var m := ms[i];
      MemberIsCalled(g, id, i);
      CallReachesPast(g, done, MembersNode(id), MemberNode(g, m));
      if ty !in EarlyMember(g, k, m, bare).value.types {
        EarlyIsReached(g, done, k, id, EarlyMember(g, k, m, bare).value.bare, i + 1, ty);
      } else if Inlined(g, m) {
        EarlyIsReached(g, done, k - 1, m.ty, bare, 0, ty);
        ReachesPastOn(g, done, MembersNode(id), MembersNode(m.ty), TypeNode(ty, true));
      }
    }
  }

  lemma EarlyCallIsReached(g: Graph, done: set<string>, a: Node, b: Node)
    requires EarlyCall(g, done, a, b)
    ensures ReachesPast(g, done, a, b)
  {
    hide Calls, ReachesPast;
    if a.RecordNode? {
      var id := Find(g, a.name).value;
      var k :| EarlyIn(g, k, id, b.id);
      EarlyIsReached(g, done, k, id, true, 0, b.id);
      assert Calls(g, a, MembersNode(id)) by { FoundIsCalled(g, a.name); }
      CallReachesPast(g, done, a, MembersNode(id));
      ReachesPastOn(g, done, a, MembersNode(id), b);
    } else {
      CallReachesPast(g, done, a, b);
    }
  }

  lemma FoundIsCalled(g: Graph, name: string)
    requires Find(g, name).Some?
    ensures Calls(g, RecordNode(name), MembersNode(Find(g, name).value))
  {
  }

  lemma {:induction false} EarlyChainIsReached(g: Graph, done: set<string>, a: Node, path: seq<Node>, b: Node)
    requires EarlyChain(g, done, a, path, b)
    ensures ReachesPast(g, done, a, b)
    decreases path
  {
    hide EarlyCall, ReachesPast;
    if path == [] {
      EarlyCallIsReached(g, done, a, b);
    } else {
      EarlyCallIsReached(g, done, a, path[0]);
      EarlyChainIsReached(g, done, path[0], path[1..], b);
      ReachesPastOn(g, done, a, path[0], b);
    }
  }

  // Without a loop, every early call reaches fewer calls than its caller.

  ghost function Nodes(g: Graph): set<Node> {
    (set id, r | id in Ids(g) && r in {true, false} :: TypeNode(id, r))
    + (set id | id in g.types && g.types[id].Composite? :: RecordNode(RecordName(g.types[id].isStruct, g.types[id].name)))
    + (set id | id in Ids(g) :: PointeeNode(id)) + (set id | id in Ids(g) :: MembersNode(id))
  }

  // Types, and the types they refer to.
  ghost function Ids(g: Graph): set<Id> {
    g.types.Keys
    + (set id | id in g.types && g.types[id].Ptr? :: g.types[id].target)
    + (set id | id in g.types && g.types[id].Modifier? :: g.types[id].target)
    + (set id | id in g.types && g.types[id].TypeTag? :: g.types[id].target)
    + (set id | id in g.types && g.types[id].Arr? :: g.types[id].elem)
  }

  // A missing type is called only through a pointer.
  ghost function Callable(g: Graph, a: Node): set<Node> {
    Nodes(g) + if a.PointeeNode? then {TypeNode(a.id, false)} else {}
  }

  lemma EarlyCalledIsNode(g: Graph, done: set<string>, a: Node, b: Node)
    requires EarlyCall(g, done, a, b)
    ensures b in Callable(g, a) && (b.PointeeNode? ==> Callable(g, b) == Nodes(g))
  {
    match a
    case TypeNode(id, resolve) =>
      if g.types[id].Composite? {
        assert b == RecordNode(RecordName(g.types[id].isStruct, g.types[id].name));
      } else {
        assert b.id in Ids(g) && (b.TypeNode? ==> b.resolve in {true, false});
      }
    case PointeeNode(id) =>
      if id in g.types {
        assert b.id in Ids(g) && (b.TypeNode? ==> b.resolve in {true, false});
      }
    case RecordNode(name) =>
      var c := Find(g, name).value;
      var k :| EarlyIn(g, k, c, b.id);
      EarlyIsReached(g, done, k, c, true, 0, b.id);
      assert b.id in Ids(g) && b.resolve in {true, false};
    case MembersNode(id) =>
      assert b.id in g.types.Keys;
  }

  lemma {:induction false} EarlyEndsAtNode(g: Graph, done: set<string>, a: Node, path: seq<Node>, b: Node)
    requires EarlyChain(g, done, a, path, b)
    ensures b in Callable(g, a)
    decreases path
  {
    hide EarlyCall, Nodes;
    if path == [] {
      EarlyCalledIsNode(g, done, a, b);
    } else {
      EarlyCalledIsNode(g, done, a, path[0]);
      EarlyEndsAtNode(g, done, path[0], path[1..], b);
    }
  }

  ghost function Reached(g: Graph, done: set<string>, a: Node): set<Node> {
    set b | b in Callable(g, a) && EarlyReaches(g, done, a, b)
  }

  ghost function Rank(g: Graph, done: set<string>, a: Node): nat {
    |Reached(g, done, a)|
  }

  lemma RankShrinks(g: Graph, done: set<string>, a: Node, b: Node)
    requires EarlyCall(g, done, a, b) && !EarlyReaches(g, done, b, b)
    ensures Rank(g, done, b) < Rank(g, done, a)
  {
    hide EarlyCall, Nodes, EarlyChain;
    EarlyCallReaches(g, done, a, b);
    forall c | c in Reached(g, done, b) + {b} ensures c in Reached(g, done, a) {
      if c != b {
        EarlyReachesOn(g, done, a, b, c);
      }
      var path :| EarlyChain(g, done, a, path, c);
      EarlyEndsAtNode(g, done, a, path, c);
    }
    assert b !in Reached(g, done, b);
    SubsetSize(Reached(g, done, b) + {b}, Reached(g, done, a));
  }

  lemma {:induction false} SubsetSize<T>(a: set<T>, b: set<T>)
    requires a <= b
    ensures |a| <= |b|
  {
    if a != {} {
      var x :| x in a;
      SubsetSize(a - {x}, b - {x});
    }
  }

  // Any measure that early calls make smaller rules out loops.
  lemma {:induction false} MeasuredChain(
      g: Graph, done: set<string>, measure: Node -> nat, a: Node, path: seq<Node>, b: Node)
    requires forall x, y :: EarlyCall(g, done, x, y) ==> measure(y) < measure(x)
    requires EarlyChain(g, done, a, path, b)
    ensures measure(b) < measure(a)
    decreases path
  {
    hide EarlyCall;
    if path != [] {
      MeasuredChain(g, done, measure, path[0], path[1..], b);
    }
  }

  lemma MeasuredHasNoLoop(g: Graph, done: set<string>, measure: Node -> nat, a: Node)
    requires forall x, y :: EarlyCall(g, done, x, y) ==> measure(y) < measure(x)
    ensures NoLoop(g, done, a)
  {
    hide EarlyCall, ReachesPast, EarlyChain;
    forall b ensures !EarlyReaches(g, done, b, b) {
      if path: seq<Node> :| EarlyChain(g, done, b, path, b) {
        MeasuredChain(g, done, measure, b, path, b);
      }
    }
  }

  // With more records filled, there are fewer early calls.

  lemma {:induction false} EarlyChainFewer(
      g: Graph, done: set<string>, more: set<string>, a: Node, path: seq<Node>, b: Node)
    requires done <= more && EarlyChain(g, more, a, path, b)
    ensures EarlyChain(g, done, a, path, b)
    decreases path
  {
    hide Calls, IsEarly;
    if path != [] {
      EarlyChainFewer(g, done, more, path[0], path[1..], b);
    }
  }

  lemma NoLoopKept(g: Graph, done: set<string>, more: set<string>, a: Node)
    requires done <= more && NoLoop(g, done, a)
    ensures NoLoop(g, more, a)
  {
    hide ChainPast, EarlyChain;
    forall b | b == a || ReachesPast(g, more, a, b) ensures !EarlyReaches(g, more, b, b) {
      if b != a {
        var path :| ChainPast(g, a, path, b, more);
        ChainPastFewer(g, a, path, b, done, more);
      }
      if path: seq<Node> :| EarlyChain(g, more, b, path, b) {
        EarlyChainFewer(g, done, more, b, path, b);
        assert EarlyReaches(g, done, b, b) && (b == a || ReachesPast(g, done, a, b));
      }
    }
  }
}
