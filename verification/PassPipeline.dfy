/**
 The pass pipeline (src/ast/pass_manager.h, src/ast/pass_manager.cpp).  A pass body is arbitrary:
 what it does in a run is given by a `Behavior`, one per pass, over which every result here is
 universally quantified.  The state object that pass i produces is named by i.
 */
module PassPipeline {
  import opened Prelude

  type TypeId = int

  // `byReference` passes return a reference to an object that lives elsewhere.  A pass has at
  // most one output.
  datatype Pass = Pass(name: string, inputs: seq<TypeId>, outputs: seq<TypeId>, byReference: bool)

  predicate WellFormedPass(p: Pass) {
    |p.outputs| <= 1
  }

  // What a pass body does when it runs: return an error or not, and add error diagnostics or not.
  datatype Behavior = Behavior(fails: bool, diagnoses: bool)

  // Identity of the one type whose diagnostics the manager looks at.
  const AST_CONTEXT: TypeId := 0

  class PassContext {
    // Where each type's object is, the objects owned by the context in order of creation, and
    // whether error diagnostics have been added.
    var stateIndex: map<TypeId, nat>
    var state: seq<nat>
    var errors: bool

    constructor ()
      ensures stateIndex == map[] && state == [] && !errors
    {
      stateIndex, state, errors := map[], [], false;
    }

    // None is the internal error of a failed lookup.
    method Get(id: TypeId) returns (found: Option<nat>)
      ensures found.Some? <==> id in stateIndex
      ensures found.Some? ==> found.value == stateIndex[id]
    {
      found := if id in stateIndex then Some(stateIndex[id]) else None;
    }

    // Neither form of put replaces an entry that is already there.
    method Put(id: TypeId, obj: nat, byReference: bool)
      modifies this
      ensures stateIndex == if id in old(stateIndex) then old(stateIndex) else old(stateIndex)[id := obj]
      ensures state == if byReference then old(state) else old(state) + [obj]
      ensures errors == old(errors)
    {
      if !byReference {
        state := state + [obj];
      }
      if id !in stateIndex {
        stateIndex := stateIndex[id := obj];
      }
    }

    predicate IsOk()
      reads this
    {
      AST_CONTEXT in stateIndex ==> !errors
    }

    // The destructor: objects die in the opposite order of their creation.
    method Teardown() returns (destroyed: seq<nat>)
      modifies this
      ensures state == [] && destroyed == Reversed(old(state))
    {
      destroyed := [];
      assert destroyed + Reversed(state) == Reversed(state);
      while state != []
        invariant destroyed + Reversed(state) == Reversed(old(state))
        decreases |state|
      {
        assert state == state[..|state| - 1] + [state[|state| - 1]];
        ReversedSnoc(state[..|state| - 1], state[|state| - 1]);
        assert destroyed + ([state[|state| - 1]] + Reversed(state[..|state| - 1]))
            == destroyed + [state[|state| - 1]] + Reversed(state[..|state| - 1]);
        destroyed := destroyed + [state[|state| - 1]];
        state := state[..|state| - 1];
      }
    }
  }

  function Reversed(s: seq<nat>): (r: seq<nat>)
    ensures |r| == |s|
  {
    if s == [] then [] else Reversed(s[1..]) + [s[0]]
  }

  lemma {:induction false} ReversedSnoc(s: seq<nat>, x: nat)
    ensures Reversed(s + [x]) == [x] + Reversed(s)
  {
    if s == [] {
      assert (s + [x])[1..] == [];
    } else {
      assert (s + [x])[1..] == s[1..] + [x];
      ReversedSnoc(s[1..], x);
    }
  }

  lemma {:induction false} ReversedAt(s: seq<nat>, i: nat)
    requires i < |s|
    ensures Reversed(s)[|s| - 1 - i] == s[i]
  {
    if i > 0 {
      ReversedAt(s[1..], i - 1);
    }
  }

  // Registration.

  datatype AddError = MissingInput(id: TypeId) | DuplicateOutput(id: TypeId)

  // Types produced by the first n passes.
  predicate Provided(passes: seq<Pass>, n: nat, id: TypeId)
    requires n <= |passes|
  {
    exists i :: 0 <= i < n && id in passes[i].outputs
  }

  // Each input comes from an earlier pass, and no type is produced twice.
  predicate Sound(passes: seq<Pass>) {
    && (forall i :: 0 <= i < |passes| ==> WellFormedPass(passes[i]))
    && (forall i, id :: 0 <= i < |passes| && id in passes[i].inputs ==> Provided(passes, i, id))
    && (forall i, j, id :: 0 <= i < j < |passes| && id in passes[i].outputs ==> id !in passes[j].outputs)
  }

  lemma {:induction false} ProvidedExtends(passes: seq<Pass>, p: Pass, n: nat, id: TypeId)
    requires n <= |passes|
    ensures Provided(passes + [p], n, id) == Provided(passes, n, id)
  {
    if Provided(passes, n, id) {
      var i :| 0 <= i < n && id in passes[i].outputs;
      assert (passes + [p])[i] == passes[i];
    }
  }

  lemma ProvidedSnoc(passes: seq<Pass>, n: nat, id: TypeId)
    requires n < |passes|
    ensures Provided(passes, n + 1, id) <==> Provided(passes, n, id) || id in passes[n].outputs
  {
    if Provided(passes, n + 1, id) && id !in passes[n].outputs {
      var i :| 0 <= i < n + 1 && id in passes[i].outputs;
      assert 0 <= i < n;
    }
  }

  lemma OutputProvided(passes: seq<Pass>, i: nat, id: TypeId)
    requires i < |passes| && id in passes[i].outputs
    ensures Provided(passes, |passes|, id)
  {
  }

  // A pass may be added when its inputs are available and its output is new.
  predicate Acceptable(passes: seq<Pass>, p: Pass) {
    && (forall id :: id in p.inputs ==> Provided(passes, |passes|, id))
    && (forall id :: id in p.outputs ==> !Provided(passes, |passes|, id))
  }

  lemma SoundSnoc(passes: seq<Pass>, p: Pass)
    requires Sound(passes) && WellFormedPass(p) && Acceptable(passes, p)
    ensures Sound(passes + [p])
  {
    var all := passes + [p];
    forall i, id | 0 <= i < |all| && id in all[i].inputs ensures Provided(all, i, id) {
      ProvidedExtends(passes, p, i, id);
      if i < |passes| {
        assert all[i] == passes[i];
      }
    }
    forall i, j, id | 0 <= i < j < |all| && id in all[i].outputs ensures id !in all[j].outputs {
      assert all[i] == passes[i];
      if j < |passes| {
        assert all[j] == passes[j];
      } else {
        OutputProvided(passes, i, id);
      }
    }
  }

  // A run.

  // Error diagnostics are visible once the context holds the AST context.
  predicate OkAfter(passes: seq<Pass>, behaviors: seq<Behavior>, n: nat)
    requires n <= |passes| == |behaviors|
  {
    !(Provided(passes, n, AST_CONTEXT) && exists i :: 0 <= i < n && behaviors[i].diagnoses)
  }

  // The passes that run are the first n: none before the last of them failed, diagnostics were
  // fine before each of them, and there was a reason to stop.
  predicate RanFirst(passes: seq<Pass>, behaviors: seq<Behavior>, n: nat)
    requires |passes| == |behaviors|
  {
    && n <= |passes|
    && (forall i :: 0 <= i < n ==> OkAfter(passes, behaviors, i))
    && (forall i :: 0 <= i < n - 1 ==> !behaviors[i].fails)
    && (n == |passes| || (n > 0 && behaviors[n - 1].fails) || !OkAfter(passes, behaviors, n))
  }

  // The context after the first n passes succeeded.
  ghost predicate HoldsOutputs(index: map<TypeId, nat>, passes: seq<Pass>, n: nat)
    requires n <= |passes|
  {
    && (forall id :: id in index <==> Provided(passes, n, id))
    && (forall id :: id in index ==> index[id] < n && id in passes[index[id]].outputs)
  }

  // Owned objects of the first n passes, in order of creation.
  function OwnedObjects(passes: seq<Pass>, n: nat): seq<nat>
    requires n <= |passes|
  {
    if n == 0 then []
    else OwnedObjects(passes, n - 1)
         + if passes[n - 1].outputs != [] && !passes[n - 1].byReference then [n - 1] else []
  }

  // What the caller gets: the context, the error of a pass, or the internal error of a lookup.
  datatype Outcome = Finished | FailedIn(pass: nat) | LookupFailure

  class PassManager {
    var passes: seq<Pass>
    var outputs: map<TypeId, nat>

    ghost predicate Valid()
      reads this
    {
      && Sound(passes)
      && (forall id :: id in outputs <==> Provided(passes, |passes|, id))
      && (forall id :: id in outputs ==> outputs[id] < |passes| && id in passes[outputs[id]].outputs)
    }

    constructor ()
      ensures Valid() && passes == []
    {
      passes, outputs := [], map[];
    }

    // An error here is an internal error that ends the program.
    method Add(p: Pass) returns (error: Option<AddError>)
      requires Valid() && WellFormedPass(p)
      modifies this
      ensures error.None? <==> Acceptable(old(passes), p)
      ensures error.None? ==> Valid() && passes == old(passes) + [p]
      ensures error.Some? && error.value.MissingInput? ==>
                error.value.id in p.inputs && !Provided(old(passes), |old(passes)|, error.value.id)
      ensures error.Some? && error.value.DuplicateOutput? ==>
                error.value.id in p.outputs && Provided(old(passes), |old(passes)|, error.value.id)
    {
      for i := 0 to |p.inputs|
        invariant forall j :: 0 <= j < i ==> p.inputs[j] in outputs
        invariant passes == old(passes) && outputs == old(outputs)
      {
        if p.inputs[i] !in outputs {
          return Some(MissingInput(p.inputs[i]));
        }
      }
      var passId := |passes|;
      for i := 0 to |p.outputs|
        invariant passes == old(passes)
        invariant forall j :: 0 <= j < i ==> p.outputs[j] !in old(outputs)
        invariant outputs == if i == 0 then old(outputs) else old(outputs)[p.outputs[0] := passId]
      {
        if p.outputs[i] in outputs {
          return Some(DuplicateOutput(p.outputs[i]));
        }
        outputs := outputs[p.outputs[i] := passId];
      }
      SoundSnoc(passes, p);
      passes := passes + [p];
      error := None;
      forall id ensures id in outputs <==> Provided(passes, |passes|, id) {
        ProvidedExtends(old(passes), p, passId, id);
        ProvidedSnoc(passes, passId, id);
      }
    }

    // Executes one pass: fetch the inputs, run the body, store the output.
    method RunPass(i: nat, behavior: Behavior, ctx: PassContext) returns (outcome: Outcome)
      requires i < |passes| && WellFormedPass(passes[i])
      modifies ctx
      ensures (outcome == LookupFailure) <==> exists id :: id in passes[i].inputs && id !in old(ctx.stateIndex)
      ensures outcome != LookupFailure ==>
                ctx.errors == (old(ctx.errors) || behavior.diagnoses)
                && outcome == if behavior.fails then FailedIn(i) else Finished
      ensures outcome == Finished && passes[i].outputs != [] ==>
                var id := passes[i].outputs[0];
                ctx.stateIndex == (if id in old(ctx.stateIndex) then old(ctx.stateIndex) else old(ctx.stateIndex)[id := i])
                && ctx.state == old(ctx.state) + if passes[i].byReference then [] else [i]
      ensures outcome != Finished || passes[i].outputs == [] ==>
                ctx.stateIndex == old(ctx.stateIndex) && ctx.state == old(ctx.state)
    {
      var p := passes[i];
      for j := 0 to |p.inputs|
        invariant ctx.stateIndex == old(ctx.stateIndex) && ctx.state == old(ctx.state)
        invariant ctx.errors == old(ctx.errors)
        invariant forall l :: 0 <= l < j ==> p.inputs[l] in ctx.stateIndex
      {
        var argument := ctx.Get(p.inputs[j]);
        if argument.None? {
          return LookupFailure;
        }
      }
      if behavior.diagnoses {
        ctx.errors := true;
      }
      if behavior.fails {
        return FailedIn(i);
      }
      if p.outputs != [] {
        ctx.Put(p.outputs[0], i, p.byReference);
      }
      outcome := Finished;
    }

    // Main result: whatever the bodies do, no lookup fails, a prefix of the passes runs, an
    // error is returned exactly when the last executed pass failed, and otherwise the context
    // holds exactly the outputs of the executed passes.
    method Run(behaviors: seq<Behavior>) returns (outcome: Outcome, ctx: PassContext, ghost ran: nat)
      requires Valid() && |behaviors| == |passes|
      ensures RanFirst(passes, behaviors, ran)
      ensures outcome == if ran > 0 && behaviors[ran - 1].fails then FailedIn(ran - 1) else Finished
      ensures outcome == Finished ==>
                HoldsOutputs(ctx.stateIndex, passes, ran) && ctx.state == OwnedObjects(passes, ran)
      ensures fresh(ctx)
    {
      hide RunState, OkAfter, Provided, OwnedObjects, HoldsOutputs, RanFirst;
      ctx := new PassContext();
      ran := 0;
      NothingRan(passes, behaviors);
      for i := 0 to |passes|
        invariant fresh(ctx) && passes == old(passes)
        invariant ran <= i && (ran < i ==> !OkAfter(passes, behaviors, ran))
        invariant RunState(passes, behaviors, ran, ctx.stateIndex, ctx.state, ctx.errors)
      {
        OkMeans(passes, behaviors, ran, ctx.stateIndex, ctx.state, ctx.errors);
        if ctx.IsOk() {
          InputsPresent(passes, behaviors, i, ctx.stateIndex, ctx.state, ctx.errors);
          label before:
          var result := RunPass(i, behaviors[i], ctx);
          ran := ran + 1;
          if result != Finished {
            StoppedAt(passes, behaviors, ran, old@before(ctx.stateIndex), old@before(ctx.state), old@before(ctx.errors));
            return result, ctx, ran;
          }
          OneMorePass(passes, behaviors, i, old@before(ctx.stateIndex), old@before(ctx.state), old@before(ctx.errors),
                      ctx.stateIndex, ctx.state, ctx.errors);
        }
      }
      RanToEnd(passes, behaviors, ran, ctx.stateIndex, ctx.state, ctx.errors);
      outcome := Finished;
    }
  }

  // The context after the first n passes ran without failing.
  ghost predicate RunState(passes: seq<Pass>, behaviors: seq<Behavior>, n: nat,
                           index: map<TypeId, nat>, state: seq<nat>, errors: bool)
    requires |passes| == |behaviors|
  {
    && n <= |passes|
    && (forall j :: 0 <= j < n ==> OkAfter(passes, behaviors, j) && !behaviors[j].fails)
    && HoldsOutputs(index, passes, n)
    && state == OwnedObjects(passes, n)
    && (errors <==> exists j :: 0 <= j < n && behaviors[j].diagnoses)
  }

  lemma NothingRan(passes: seq<Pass>, behaviors: seq<Behavior>)
    requires |passes| == |behaviors|
    ensures RunState(passes, behaviors, 0, map[], [], false)
  {
  }

  lemma OkMeans(passes: seq<Pass>, behaviors: seq<Behavior>, n: nat,
                index: map<TypeId, nat>, state: seq<nat>, errors: bool)
    requires |passes| == |behaviors| && RunState(passes, behaviors, n, index, state, errors)
    ensures n <= |passes| && (OkAfter(passes, behaviors, n) <==> (AST_CONTEXT in index ==> !errors))
  {
  }

  lemma InputsPresent(passes: seq<Pass>, behaviors: seq<Behavior>, n: nat,
                      index: map<TypeId, nat>, state: seq<nat>, errors: bool)
    requires Sound(passes) && n < |passes| == |behaviors|
    requires RunState(passes, behaviors, n, index, state, errors)
    ensures forall id :: id in passes[n].inputs ==> id in index
  {
  }

  lemma StoppedAt(passes: seq<Pass>, behaviors: seq<Behavior>, ran: nat,
                  index: map<TypeId, nat>, state: seq<nat>, errors: bool)
    requires 0 < ran <= |passes| == |behaviors|
    requires RunState(passes, behaviors, ran - 1, index, state, errors)
    requires OkAfter(passes, behaviors, ran - 1) && behaviors[ran - 1].fails
    ensures RanFirst(passes, behaviors, ran)
  {
  }

  lemma RanToEnd(passes: seq<Pass>, behaviors: seq<Behavior>, ran: nat,
                 index: map<TypeId, nat>, state: seq<nat>, errors: bool)
    requires ran <= |passes| == |behaviors|
    requires RunState(passes, behaviors, ran, index, state, errors)
    requires ran == |passes| || !OkAfter(passes, behaviors, ran)
    ensures RanFirst(passes, behaviors, ran) && (ran > 0 ==> !behaviors[ran - 1].fails)
    ensures HoldsOutputs(index, passes, ran) && state == OwnedObjects(passes, ran)
  {
  }

  lemma OneMorePass(passes: seq<Pass>, behaviors: seq<Behavior>, i: nat,
                    index: map<TypeId, nat>, state: seq<nat>, errors: bool,
                    index': map<TypeId, nat>, state': seq<nat>, errors': bool)
    requires Sound(passes) && i < |passes| == |behaviors|
    requires RunState(passes, behaviors, i, index, state, errors)
    requires OkAfter(passes, behaviors, i) && !behaviors[i].fails
    requires errors' == (errors || behaviors[i].diagnoses)
    requires if passes[i].outputs == [] then index' == index && state' == state
             else
               var id := passes[i].outputs[0];
               index' == (if id in index then index else index[id := i])
               && state' == state + if passes[i].byReference then [] else [i]
    ensures RunState(passes, behaviors, i + 1, index', state', errors')
  {
    OneMoreOutput(passes, i);
    if exists j :: 0 <= j < i + 1 && behaviors[j].diagnoses {
      var j :| 0 <= j < i + 1 && behaviors[j].diagnoses;
      assert j < i || j == i;
    }
    assert state' == OwnedObjects(passes, i + 1);
  }

  lemma OneMoreOutput(passes: seq<Pass>, i: nat)
    requires Sound(passes) && i < |passes|
    ensures forall id :: Provided(passes, i + 1, id) <==> Provided(passes, i, id) || id in passes[i].outputs
    ensures forall id :: id in passes[i].outputs ==> !Provided(passes, i, id)
  {
    forall id ensures Provided(passes, i + 1, id) <==> Provided(passes, i, id) || id in passes[i].outputs {
      ProvidedSnoc(passes, i, id);
    }
  }

  // Teardown order: the object of a pass dies before the objects of every pass it could use.

  lemma {:induction false} OwnedIncreasing(passes: seq<Pass>, n: nat)
    requires n <= |passes|
    ensures forall a, b :: 0 <= a < b < |OwnedObjects(passes, n)| ==>
              OwnedObjects(passes, n)[a] < OwnedObjects(passes, n)[b]
    ensures forall a :: 0 <= a < |OwnedObjects(passes, n)| ==> OwnedObjects(passes, n)[a] < n
  {
    if n > 0 {
      OwnedIncreasing(passes, n - 1);
    }
  }

  lemma ConsumersDieFirst(passes: seq<Pass>, n: nat, a: nat, b: nat, producer: nat, consumer: nat, id: TypeId)
    requires Sound(passes) && n <= |passes| && producer < |passes| && consumer < |passes|
    requires id in passes[producer].outputs && id in passes[consumer].inputs
    requires var d := Reversed(OwnedObjects(passes, n));
             a < |d| && b < |d| && d[a] == producer && d[b] == consumer
    ensures b < a
  {
    var s := OwnedObjects(passes, n);
    OwnedIncreasing(passes, n);
    ReversedAt(s, |s| - 1 - a);
    ReversedAt(s, |s| - 1 - b);
    var i :| 0 <= i < consumer && id in passes[i].outputs;
    assert i == producer;
  }
}
