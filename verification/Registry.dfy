/**
 The registry of callable functions and overload selection (src/functions.cpp:43-158).
 */
module Registry {
  import opened Prelude
  import opened SizedTypes
  import opened Widening
  import TypeOrder

  datatype Origin = Builtin | Script | External

  datatype Function = Function(origin: Origin, name: string, returnType: SizedType, params: seq<SizedType>)

  datatype FqName = FqName(ns: string, name: string)

  datatype LookupError = NotFound | CannotCall(candidate: Function)

  predicate CanImplicitCast(from: SizedType, to: SizedType) {
    || FitsInto(from, to)
    || (IsString(from) && to.Pointer? && IsInteger(to.pointee) && Size(to.pointee) == 1)
    || (IsString(from) && IsString(to))
  }

  predicate Accepts(f: Function, args: seq<SizedType>) {
    |f.params| == |args| && forall i :: 0 <= i < |args| ==> CanImplicitCast(args[i], f.params[i])
  }

  // The functions of one name: builtins, and after them at most one other function.
  predicate WellOrdered(fs: seq<Function>) {
    fs != [] && forall i :: 0 <= i < |fs| - 1 ==> fs[i].origin == Builtin
  }

  // The function that a call of the name means: the one that is not builtin, or the last builtin.
  predicate Preferred(fs: seq<Function>, f: Function) {
    if exists i :: 0 <= i < |fs| && fs[i].origin != Builtin then f in fs && f.origin != Builtin
    else fs != [] && f == fs[|fs| - 1]
  }

  // There is only one.
  lemma PreferredIsLast(fs: seq<Function>, f: Function)
    requires WellOrdered(fs)
    ensures Preferred(fs, f) <==> f == fs[|fs| - 1]
  {
    var last := fs[|fs| - 1];
    if exists i :: 0 <= i < |fs| && fs[i].origin != Builtin {
      var i :| 0 <= i < |fs| && fs[i].origin != Builtin;
      assert i == |fs| - 1;
      assert forall g :: g in fs && g.origin != Builtin ==> g == last;
    }
  }

  // Registrations as they come.
  type Call = (FqName, Function)

  // Whether a registration is refused: the name already has a function that is not builtin.
  predicate Refused(byName: map<FqName, seq<Function>>, name: FqName) {
    name in byName && exists i :: 0 <= i < |byName[name]| && byName[name][i].origin != Builtin
  }

  function Registered(calls: seq<Call>): (byName: map<FqName, seq<Function>>)
    ensures forall name :: name in byName ==> WellOrdered(byName[name])
    ensures forall i :: 0 <= i < |calls| ==> calls[i].0 in byName
  {
    if calls == [] then map[]
    else
      var before := Registered(calls[..|calls| - 1]);
      var (name, f) := calls[|calls| - 1];
      if Refused(before, name) then before
      else before[name := (if name in before then before[name] else []) + [f]]
  }

  class FunctionRegistry {
    var byName: map<FqName, seq<Function>>
    var all: seq<Function>
    ghost var calls: seq<Call>

    ghost predicate Valid()
      reads this
    {
      byName == Registered(calls)
    }

    constructor ()
      ensures Valid() && calls == [] && all == []
    {
      byName, all, calls := map[], [], [];
    }

    method Add(origin: Origin, ns: string, name: string, returnType: SizedType, params: seq<SizedType>)
        returns (added: Option<Function>)
      requires Valid()
      modifies this
      ensures Valid()
      ensures var f := Function(origin, name, returnType, params);
        && calls == old(calls) + [(FqName(ns, name), f)]
        && added == (if Refused(old(byName), FqName(ns, name)) then None else Some(f))
        && all == old(all) + (if added.Some? then [f] else [])
    {
      var fq := FqName(ns, name);
      var f := Function(origin, name, returnType, params);
      ghost var before := calls;
      calls := calls + [(fq, f)];
      assert calls[..|calls| - 1] == before;
      var existing := if fq in byName then byName[fq] else [];
      for i := 0 to |existing|
        invariant forall j :: 0 <= j < i ==> existing[j].origin == Builtin
      {
        if existing[i].origin != Builtin {
          return None;
        }
      }
      all := all + [f];
      byName := byName[fq := existing + [f]];
      added := Some(f);
    }

    // A function is returned exactly when the preferred function of the name accepts the
    // arguments; the candidate named in the error message exists.
    method Get(ns: string, name: string, args: seq<SizedType>) returns (r: Result<Function, LookupError>)
      requires Valid()
      ensures FqName(ns, name) !in byName <==> r == Err(NotFound)
      ensures FqName(ns, name) in byName ==>
        exists f :: Preferred(byName[FqName(ns, name)], f)
          && r == if Accepts(f, args) then Ok(f) else Err(CannotCall(f))
    {
      var fq := FqName(ns, name);
      if fq !in byName {
        return Err(NotFound);
      }
      var candidates := byName[fq];
      var candidate: Option<Function> := None;
      var i := 0;
      while i < |candidates|
        invariant i <= |candidates|
        invariant forall j :: 0 <= j < i ==> candidates[j].origin == Builtin
        invariant candidate == if i == 0 then None else Some(candidates[i - 1])
      {
        candidate := Some(candidates[i]);
        if candidate.value.origin != Builtin {
          break;
        }
        i := i + 1;
      }
      assert candidate.Some? && Preferred(candidates, candidate.value);
      var f := candidate.value;
      var valid := |f.params| == |args|;
      if valid {
        for k := 0 to |args|
          invariant valid <==> forall j :: 0 <= j < k ==> CanImplicitCast(args[j], f.params[j])
        {
          if !CanImplicitCast(args[k], f.params[k]) {
            valid := false;
            break;
          }
        }
      }
      assert valid <==> Accepts(f, args);
      if valid {
        return Ok(f);
      }
      r := Err(CannotCall(f));
    }
  }

  // What acceptance promises: every value of an argument is a value of its parameter, except that
  // strings are passed whatever their size, and as pointers to bytes.
  lemma AcceptedValuesFit(f: Function, args: seq<SizedType>, i: nat, v: Value)
    requires Accepts(f, args) && i < |args| && !IsString(args[i])
    requires Widenable(args[i]) && Widenable(f.params[i]) && Inhabits(v, args[i])
    ensures Inhabits(v, f.params[i])
  {
    FitsIntoSound(args[i], f.params[i], v);
  }

  // Nothing that fits is refused: an argument that is no string is accepted exactly when every value of
  // it is a value of the parameter, and a string exactly by strings and by pointers to single bytes.
  lemma AcceptedIff(from: SizedType, to: SizedType)
    ensures Widenable(from) && !IsString(from) && Widenable(to) ==>
      (CanImplicitCast(from, to) <==> forall v :: Inhabits(v, from) ==> Inhabits(v, to))
    ensures from.Scalar? && from.kind == StringTy ==>
      (CanImplicitCast(from, to) <==>
        (to.Scalar? && to.kind == StringTy)
        || (to.Pointer? && to.pointee.Scalar? && to.pointee.kind == IntegerTy && 8 <= to.pointee.bits < 16))
    ensures !from.Tuple? && !(from.Scalar? && from.kind in {IntegerTy, StringTy}) ==>
      (CanImplicitCast(from, to) <==> TypeOrder.Key(from) == TypeOrder.Key(to))
  {
    if Widenable(from) && Widenable(to) {
      FitsIntoIsInclusion(from, to);
    }
    hide Widenable, Inhabits;
    if from.Scalar? && from.kind == StringTy {
      StringFits(from, to);
    } else if !from.Tuple? && !IsInteger(from) {
      TypeOrder.EqualIffSameKey(from, to);
      OtherFits(from, to);
    }
  }

  lemma StringFits(from: SizedType, to: SizedType)
    requires IsString(from)
    ensures FitsInto(from, to) ==> IsString(to)
  {
    TypeOrder.SameTypeIffSameSkeleton(from, to);
    if FitsInto(from, to) && to.Scalar? {
      TypeOrder.KindRankInjective(from.kind, to.kind);
    }
  }

  lemma OtherFits(from: SizedType, to: SizedType)
    requires !from.Tuple? && !IsInteger(from) && !IsString(from)
    ensures FitsInto(from, to) <==> IsEqual(from, to)
  {
    if IsEqual(from, to) {
      TypeOrder.EqualTypesAreSame(from, to);
    }
  }

  // All registrations of a name, refused or not.
  function Of(calls: seq<Call>, name: FqName): seq<Function> {
    if calls == [] then []
    else
      var last := calls[|calls| - 1];
      Of(calls[..|calls| - 1], name) + if last.0 == name then [last.1] else []
  }

  // The prefix of fs that ends with its first function that is not builtin.
  function UpToFirstOther(fs: seq<Function>): seq<Function> {
    if fs == [] then []
    else if fs[0].origin != Builtin then [fs[0]]
    else [fs[0]] + UpToFirstOther(fs[1..])
  }

  lemma {:induction false} UpToFirstOtherSnoc(fs: seq<Function>, f: Function)
    ensures UpToFirstOther(fs + [f]) ==
      if exists i :: 0 <= i < |fs| && fs[i].origin != Builtin then UpToFirstOther(fs) else fs + [f]
    ensures (exists i :: 0 <= i < |fs| && fs[i].origin != Builtin) <==>
      exists i :: 0 <= i < |UpToFirstOther(fs)| && UpToFirstOther(fs)[i].origin != Builtin
    ensures (forall i :: 0 <= i < |fs| ==> fs[i].origin == Builtin) ==> UpToFirstOther(fs) == fs
  {
    if fs != [] {
      assert (fs + [f])[1..] == fs[1..] + [f];
      var rest := UpToFirstOther(fs[1..]);
      UpToFirstOtherSnoc(fs[1..], f);
      if fs[0].origin == Builtin {
        var all := UpToFirstOther(fs);
        assert forall i :: 0 < i < |fs| ==> fs[1..][i - 1] == fs[i];
        assert forall i :: 0 < i < |all| ==> rest[i - 1] == all[i];
      } else {
        assert UpToFirstOther(fs)[0].origin != Builtin;
      }
    }
  }

  // What a name means: its registrations in order, up to the first that is not builtin.
  lemma {:induction false} RegisteredIsPrefix(calls: seq<Call>, name: FqName)
    ensures name in Registered(calls) <==> Of(calls, name) != []
    ensures name in Registered(calls) ==> Registered(calls)[name] == UpToFirstOther(Of(calls, name))
  {
    if calls != [] {
      var n := |calls| - 1;
      var before := Of(calls[..n], name);
      RegisteredIsPrefix(calls[..n], name);
      UpToFirstOtherSnoc(before, calls[n].1);
      if calls[n].0 != name {
        assert Of(calls, name) == before;
      } else if Refused(Registered(calls[..n]), name) {
        assert UpToFirstOther(before + [calls[n].1]) == UpToFirstOther(before);
      } else {
        assert UpToFirstOther(before) == before;
      }
    }
  }

  // The lookup assumes at most two functions of a name.  That fails exactly for names whose first
  // two registrations, of at least three, are builtins.
  lemma AtMostTwoIff(calls: seq<Call>, name: FqName)
    requires name in Registered(calls)
    ensures var fs := Of(calls, name);
      |Registered(calls)[name]| > 2 <==> |fs| > 2 && fs[0].origin == Builtin && fs[1].origin == Builtin
  {
    RegisteredIsPrefix(calls, name);
    var fs := Of(calls, name);
    if |fs| > 1 && fs[0].origin == Builtin {
      assert UpToFirstOther(fs[1..]) == if fs[1].origin != Builtin then [fs[1]] else [fs[1]] + UpToFirstOther(fs[1..][1..]);
      if |fs| > 2 && fs[1].origin == Builtin {
        assert UpToFirstOther(fs[1..][1..]) != [];
      }
    }
  }

  // Two builtins and a function of the script share a name.
  lemma ThreeFunctions(name: FqName, builtin: Function, script: Function)
    requires builtin.origin == Builtin && script.origin == Script
    ensures var calls := [(name, builtin), (name, builtin), (name, script)];
      name in Registered(calls) && |Registered(calls)[name]| == 3
  {
    var one, two, three := (name, builtin), (name, builtin), (name, script);
    OfNext([], one, name);
    OfNext([one], two, name);
    OfNext([one, two], three, name);
    assert [] + [one] == [one] && [one] + [two] == [one, two] && [one, two] + [three] == [one, two, three];
    RegisteredIsPrefix([one, two, three], name);
    var fs := [builtin, builtin, script];
    assert Of([one, two, three], name) == fs;
    assert fs[1..] == [builtin, script] && fs[1..][1..] == [script];
    assert UpToFirstOther(fs[1..]) == [builtin, script];
  }

  lemma OfNext(calls: seq<Call>, call: Call, name: FqName)
    ensures Of(calls + [call], name) == Of(calls, name) + if call.0 == name then [call.1] else []
  {
    assert (calls + [call])[..|calls|] == calls;
  }
}
