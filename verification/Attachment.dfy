/**
 Attaching the probes in two passes (src/bpftrace.cpp:363-392, 720-758).
 */
module Attachment {
  datatype ProbeType =
    | Special | Test | Benchmark | Kprobe | Uprobe | Uretprobe | Usdt | Fentry | Fexit | Iter
    | Kretprobe | Tracepoint | Profile | Interval | Watchpoint | AsyncWatchpoint | Hardware
    | RawTracepoint | Software

  // Probes that the second pass attaches, from the last to the first.
  predicate AttachReverse(t: ProbeType) {
    match t
    case Special => true
    case Test => true
    case Benchmark => true
    case Kprobe => true
    case Uprobe => true
    case Uretprobe => true
    case Usdt => true
    case Fentry => true
    case Fexit => true
    case Iter => true
    case Kretprobe => false
    case Tracepoint => false
    case Profile => false
    case Interval => false
    case Watchpoint => false
    case AsyncWatchpoint => false
    case Hardware => false
    case RawTracepoint => false
    case Software => false
  }

  // Probes are named by their position in the program.

  // The probes of one class among the first n, in order of declaration.
  function Class(probes: seq<ProbeType>, n: nat, reverse: bool): seq<nat>
    requires n <= |probes|
  {
    if n == 0 then []
    else Class(probes, n - 1, reverse) + if AttachReverse(probes[n - 1]) == reverse then [n - 1] else []
  }

  function Reversed(s: seq<nat>): (r: seq<nat>)
    ensures |r| == |s|
    ensures forall i :: 0 <= i < |s| ==> r[i] == s[|s| - 1 - i]
  {
    if s == [] then [] else [s[|s| - 1]] + Reversed(s[..|s| - 1])
  }

  // The order in which attaching is attempted.
  function Plan(probes: seq<ProbeType>): seq<nat> {
    Class(probes, |probes|, false) + Reversed(Class(probes, |probes|, true))
  }

  // Those that the attempt succeeds for.
  function Succeeding(attempts: seq<nat>, works: set<nat>): seq<nat> {
    if attempts == [] then []
    else
      var n := |attempts| - 1;
      Succeeding(attempts[..n], works) + if attempts[n] in works then [attempts[n]] else []
  }

  predicate Increasing(s: seq<nat>) {
    forall i, j :: 0 <= i < j < |s| ==> s[i] < s[j]
  }

  predicate AllBelow(s: seq<nat>, n: nat) {
    forall i :: 0 <= i < |s| ==> s[i] < n
  }

  lemma {:induction false} ClassMembers(probes: seq<ProbeType>, n: nat, reverse: bool)
    requires n <= |probes|
    ensures Increasing(Class(probes, n, reverse)) && AllBelow(Class(probes, n, reverse), n)
    ensures forall p: nat :: p in Class(probes, n, reverse) <==> p < n && AttachReverse(probes[p]) == reverse
  {
    if n > 0 {
      ClassMembers(probes, n - 1, reverse);
    }
  }

  lemma {:induction false} SucceedingNext(attempts: seq<nat>, k: nat, works: set<nat>)
    requires k < |attempts|
    ensures Succeeding(attempts[..k + 1], works)
         == Succeeding(attempts[..k], works) + if attempts[k] in works then [attempts[k]] else []
  {
    assert attempts[..k + 1][..k] == attempts[..k];
  }

  // The attempts so far: probes are attached in the order of the plan, and in the mode in which a
  // missing probe is an error, all attempts but the last have worked.
  ghost predicate Progress(plan: seq<nat>, works: set<nat>, strict: bool, attempts: nat, attached: seq<nat>) {
    && attempts <= |plan|
    && attached == Succeeding(plan[..attempts], works)
    && (strict ==> forall k :: 0 <= k < attempts - 1 ==> plan[k] in works)
  }

  ghost predicate AllWorked(plan: seq<nat>, works: set<nat>, strict: bool, attempts: nat)
    requires attempts <= |plan|
  {
    strict && attempts > 0 ==> plan[attempts - 1] in works
  }

  lemma Attempted(plan: seq<nat>, works: set<nat>, strict: bool, attempts: nat, attached: seq<nat>)
    requires attempts < |plan| && Progress(plan, works, strict, attempts, attached)
    requires AllWorked(plan, works, strict, attempts)
    ensures var more := attached + if plan[attempts] in works then [plan[attempts]] else [];
      Progress(plan, works, strict, attempts + 1, more)
  {
    SucceedingNext(plan, attempts, works);
  }

  // Why a pass ended early: an exit signal, or a missing probe.
  ghost predicate Interrupted(
      plan: seq<nat>, works: set<nat>, strict: bool, exitAt: set<nat>, attempts: nat, from: nat, to: nat)
    requires attempts <= |plan|
  {
    (exists t :: from <= t < to && t in exitAt) || !AllWorked(plan, works, strict, attempts)
  }

  // `works` are the probes for which attaching succeeds, `strict` is the mode in which a missing
  // probe is an error, and `exitAt` are the rounds of the loops that find an exit signal.
  method AttachForward(probes: seq<ProbeType>, works: set<nat>, strict: bool, exitAt: set<nat>)
      returns (ok: bool, attached: seq<nat>, ghost attempts: nat)
    ensures Progress(Plan(probes), works, strict, attempts, attached)
    ensures ok ==> attempts == |Class(probes, |probes|, false)| && AllWorked(Plan(probes), works, strict, attempts)
    ensures ok ==> forall t :: 0 <= t < |probes| ==> t !in exitAt
    ensures !ok ==> Interrupted(Plan(probes), works, strict, exitAt, attempts, 0, |probes|)
  {
    hide AttachReverse, Succeeding;
    var n := |probes|;
    ghost var plan := Plan(probes);
    attached, attempts := [], 0;
    NoAttempts(plan, works);
    for i := 0 to n
      invariant attempts == |Class(probes, i, false)|
      invariant Progress(plan, works, strict, attempts, attached) && AllWorked(plan, works, strict, attempts)
      invariant forall t :: 0 <= t < i ==> t !in exitAt
    {
      if i in exitAt {
        return false, attached, attempts;
      }
      if !AttachReverse(probes[i]) {
        PlanForward(probes, i);
        Attempted(plan, works, strict, attempts, attached);
        attempts := attempts + 1;
        if i in works {
          attached := attached + [i];
        } else {
          assert attached + [] == attached;
          if strict {
            return false, attached, attempts;
          }
        }
      }
    }
    PlanLength(probes);
    ok := true;
  }

  method AttachBackward(probes: seq<ProbeType>, works: set<nat>, strict: bool, exitAt: set<nat>,
                        before: seq<nat>, ghost tried: nat)
      returns (ok: bool, attached: seq<nat>, ghost attempts: nat)
    requires tried == |Class(probes, |probes|, false)| <= |Plan(probes)|
    requires Progress(Plan(probes), works, strict, tried, before) && AllWorked(Plan(probes), works, strict, tried)
    ensures Progress(Plan(probes), works, strict, attempts, attached)
    ensures ok ==> attempts == |Plan(probes)| && AllWorked(Plan(probes), works, strict, attempts)
    ensures ok ==> forall t :: |probes| <= t < 2 * |probes| ==> t !in exitAt
    ensures !ok ==> Interrupted(Plan(probes), works, strict, exitAt, attempts, |probes|, 2 * |probes|)
  {
    hide AttachReverse, Succeeding;
    var n := |probes|;
    ghost var plan := Plan(probes);
    attached, attempts := before, tried;
    PlanLength(probes);
    for j := n downto 0
      invariant attempts == |plan| - |Class(probes, j, true)|
      invariant Progress(plan, works, strict, attempts, attached) && AllWorked(plan, works, strict, attempts)
      invariant forall t :: n <= t < 2 * n - j ==> t !in exitAt
    {
      if 2 * n - 1 - j in exitAt {
        return false, attached, attempts;
      }
      if AttachReverse(probes[j]) {
        PlanBackward(probes, j);
        Attempted(plan, works, strict, attempts, attached);
        attempts := attempts + 1;
        if j in works {
          attached := attached + [j];
        } else {
          assert attached + [] == attached;
          if strict {
            return false, attached, attempts;
          }
        }
      }
    }
    ok := true;
  }

  // The part of run() that attaches the probes: 0, or -1 when it ends early.
  method AttachProbes(probes: seq<ProbeType>, works: set<nat>, strict: bool, exitAt: set<nat>)
      returns (ret: int, attached: seq<nat>, ghost attempts: nat)
    ensures Progress(Plan(probes), works, strict, attempts, attached)
    ensures ret == 0 || ret == -1
    ensures ret == 0 ==> attempts == |Plan(probes)| && AllWorked(Plan(probes), works, strict, attempts)
    ensures ret == 0 ==> forall t :: 0 <= t < 2 * |probes| ==> t !in exitAt
    ensures ret == -1 ==> Interrupted(Plan(probes), works, strict, exitAt, attempts, 0, 2 * |probes|)
  {
    hide Plan, Progress, Class;
    PlanLength(probes);
    var ok;
    ok, attached, attempts := AttachForward(probes, works, strict, exitAt);
    if !ok {
      return -1, attached, attempts;
    }
    ok, attached, attempts := AttachBackward(probes, works, strict, exitAt, attached, attempts);
    ret := if ok then 0 else -1;
  }

  lemma NoAttempts(plan: seq<nat>, works: set<nat>)
    ensures forall strict :: Progress(plan, works, strict, 0, []) && AllWorked(plan, works, strict, 0)
  {
    assert plan[..0] == [];
  }

  lemma PlanLength(probes: seq<ProbeType>)
    ensures |Plan(probes)| == |Class(probes, |probes|, false)| + |Class(probes, |probes|, true)|
    ensures Class(probes, 0, true) == []
  {
  }

  // The position of a probe in the plan.
  lemma PlanForward(probes: seq<ProbeType>, i: nat)
    requires i < |probes| && !AttachReverse(probes[i])
    ensures |Class(probes, i, false)| < |Plan(probes)| && Plan(probes)[|Class(probes, i, false)|] == i
  {
    ClassPrefix(probes, i + 1, |probes|, false);
    assert Class(probes, i + 1, false)[|Class(probes, i, false)|] == i;
  }

  lemma PlanBackward(probes: seq<ProbeType>, j: nat)
    requires j < |probes| && AttachReverse(probes[j])
    ensures var k := |Plan(probes)| - |Class(probes, j + 1, true)|;
      0 <= k < |Plan(probes)| && Plan(probes)[k] == j
  {
    ClassPrefix(probes, j + 1, |probes|, true);
    assert Class(probes, j + 1, true)[|Class(probes, j, true)|] == j;
  }

  lemma {:induction false} ClassPrefix(probes: seq<ProbeType>, n: nat, m: nat, reverse: bool)
    requires n <= m <= |probes|
    ensures Class(probes, n, reverse) <= Class(probes, m, reverse)
    decreases m - n
  {
    if n < m {
      ClassPrefix(probes, n + 1, m, reverse);
    }
  }

  // What follows for the probes.

  predicate Distinct(s: seq<nat>) {
    forall i, j :: 0 <= i < j < |s| ==> s[i] != s[j]
  }

  // The class and the position of each attempt of the plan.
  lemma PlanAt(probes: seq<ProbeType>, i: nat)
    requires i < |Plan(probes)|
    ensures var forward, back := Class(probes, |probes|, false), Class(probes, |probes|, true);
      && |Plan(probes)| == |forward| + |back|
      && Plan(probes)[i] == (if i < |forward| then forward[i] else back[|back| - 1 - (i - |forward|)])
      && Plan(probes)[i] < |probes| && AttachReverse(probes[Plan(probes)[i]]) == (i >= |forward|)
  {
    var forward, back := Class(probes, |probes|, false), Class(probes, |probes|, true);
    hide AttachReverse, Class, Reversed;
    if i < |forward| {
      ClassAt(probes, false, i);
    } else {
      ClassAt(probes, true, |back| - 1 - (i - |forward|));
    }
  }

  lemma ClassAt(probes: seq<ProbeType>, reverse: bool, j: nat)
    requires j < |Class(probes, |probes|, reverse)|
    ensures var p := Class(probes, |probes|, reverse)[j];
      p < |probes| && AttachReverse(probes[p]) == reverse
  {
    ClassMembers(probes, |probes|, reverse);
    hide AttachReverse, Class;
    assert Class(probes, |probes|, reverse)[j] in Class(probes, |probes|, reverse);
  }

  // The plan is every probe once.
  lemma PlanIsEveryProbe(probes: seq<ProbeType>)
    ensures Distinct(Plan(probes)) && AllBelow(Plan(probes), |probes|)
    ensures forall p: nat :: p in Plan(probes) <==> p < |probes|
  {
    hide AttachReverse, Class, Reversed, Plan;
    var plan := Plan(probes);
    ClassMembers(probes, |probes|, false);
    ClassMembers(probes, |probes|, true);
    forall i | 0 <= i < |plan| ensures plan[i] < |probes| {
      PlanAt(probes, i);
    }
    forall i, j | 0 <= i < j < |plan| ensures plan[i] != plan[j] {
      PlanAt(probes, i);
      PlanAt(probes, j);
    }
    forall p: nat | p < |probes| ensures p in plan {
      ProbeInPlan(probes, p);
    }
  }

  lemma ProbeInPlan(probes: seq<ProbeType>, p: nat)
    requires p < |probes|
    ensures p in Plan(probes)
  {
    hide AttachReverse;
    if AttachReverse(probes[p]) {
      PlanBackward(probes, p);
    } else {
      PlanForward(probes, p);
    }
  }

  lemma {:induction false} SucceedingMembers(attempts: seq<nat>, works: set<nat>)
    requires Distinct(attempts)
    ensures Distinct(Succeeding(attempts, works))
    ensures forall p :: p in Succeeding(attempts, works) <==> p in attempts && p in works
    ensures forall m :: AllBelow(attempts, m) ==> AllBelow(Succeeding(attempts, works), m)
  {
    if attempts != [] {
      var n := |attempts| - 1;
      SucceedingMembers(attempts[..n], works);
      assert attempts == attempts[..n] + [attempts[n]];
      assert attempts[n] !in attempts[..n];
      forall m | AllBelow(attempts, m) ensures AllBelow(Succeeding(attempts, works), m) {
        assert AllBelow(attempts[..n], m);
      }
    }
  }

  // No probe is attached twice.  When the passes complete, the attached probes are exactly those
  // for which attaching succeeds, so a failure costs only the probe that fails.
  lemma AttachedOnce(probes: seq<ProbeType>, works: set<nat>, strict: bool, attempts: nat, attached: seq<nat>)
    requires Progress(Plan(probes), works, strict, attempts, attached)
    ensures Distinct(attached)
    ensures AllBelow(attached, |probes|) && forall p :: p in attached ==> p in works
    ensures attempts == |Plan(probes)| ==> forall p: nat :: p in attached <==> p < |probes| && p in works
    ensures strict && attempts == |Plan(probes)| && AllWorked(Plan(probes), works, strict, attempts) ==>
      forall p: nat :: p < |probes| ==> p in attached
  {
    hide Plan, Succeeding;
    PlanIsEveryProbe(probes);
    var plan := Plan(probes);
    SucceedingMembers(plan[..attempts], works);
    if attempts == |plan| {
      assert plan[..attempts] == plan;
      if strict && AllWorked(plan, works, strict, attempts) {
        forall p: nat | p < |probes| ensures p in works {
          assert p in plan;
          var k :| 0 <= k < |plan| && plan[k] == p;
        }
      }
    }
  }

  // Which of two attached probes fires first is up to the kernel: the one attached last for these
  // kinds, and the one attached first for all others.
  predicate FiresLastFirst(t: ProbeType) {
    t in {Special, Test, Benchmark, Kprobe, Uprobe, Uretprobe, Usdt, Fentry, Fexit, Iter}
  }

  // The passes attach every kind in the direction that it needs.
  lemma DirectionsAgree(t: ProbeType)
    ensures AttachReverse(t) <==> FiresLastFirst(t)
  {
  }

  // The order in which the attached probes of one class fire: as attached, or the other way.
  function Firing(probes: seq<ProbeType>, attached: seq<nat>, lastFirst: bool): seq<nat>
    requires AllBelow(attached, |probes|)
  {
    if attached == [] then []
    else
      var n := |attached| - 1;
      var rest := Firing(probes, attached[..n], lastFirst);
      if FiresLastFirst(probes[attached[n]]) != lastFirst then rest
      else if lastFirst then [attached[n]] + rest
      else rest + [attached[n]]
  }

  lemma {:induction false} FiringMembers(probes: seq<ProbeType>, attached: seq<nat>, lastFirst: bool)
    requires AllBelow(attached, |probes|)
    ensures forall p :: p in Firing(probes, attached, lastFirst)
                        <==> p in attached && FiresLastFirst(probes[p]) == lastFirst
  {
    if attached != [] {
      hide FiresLastFirst;
      var n := |attached| - 1;
      FiringMembers(probes, attached[..n], lastFirst);
      assert attached == attached[..n] + [attached[n]];
    }
  }

  // Successive attempts of one class go up in the first pass and down in the second.
  ghost predicate Directed(probes: seq<ProbeType>, s: seq<nat>) {
    && AllBelow(s, |probes|)
    && forall i, j :: 0 <= i < j < |s| && AttachReverse(probes[s[i]]) == AttachReverse(probes[s[j]]) ==>
         if AttachReverse(probes[s[i]]) then s[j] < s[i] else s[i] < s[j]
  }

  lemma PlanIsDirected(probes: seq<ProbeType>)
    ensures Directed(probes, Plan(probes))
  {
    hide AttachReverse, Class, Reversed, Plan;
    var plan := Plan(probes);
    ClassMembers(probes, |probes|, false);
    ClassMembers(probes, |probes|, true);
    forall i | 0 <= i < |plan| ensures plan[i] < |probes| {
      PlanAt(probes, i);
    }
    forall i, j | 0 <= i < j < |plan| && AttachReverse(probes[plan[i]]) == AttachReverse(probes[plan[j]])
      ensures if AttachReverse(probes[plan[i]]) then plan[j] < plan[i] else plan[i] < plan[j]
    {
      PlanAt(probes, i);
      PlanAt(probes, j);
    }
  }

  lemma {:induction false} SucceedingDirected(probes: seq<ProbeType>, attempts: seq<nat>, works: set<nat>)
    requires Directed(probes, attempts) && Distinct(attempts)
    ensures Directed(probes, Succeeding(attempts, works))
  {
    if attempts != [] {
      var n := |attempts| - 1;
      assert attempts == attempts[..n] + [attempts[n]];
      SucceedingDirected(probes, attempts[..n], works);
      SucceedingMembers(attempts[..n], works);
      hide AttachReverse, Succeeding;
      var before := Succeeding(attempts[..n], works);
      forall i | 0 <= i < |before| ensures exists k :: 0 <= k < n && attempts[k] == before[i] {
        assert before[i] in attempts[..n];
      }
    }
  }

  lemma IncreasingExtends(s: seq<nat>, x: nat)
    requires Increasing(s)
    ensures (forall i :: 0 <= i < |s| ==> s[i] < x) ==> Increasing(s + [x])
    ensures (forall i :: 0 <= i < |s| ==> x < s[i]) ==> Increasing([x] + s)
  {
  }

  lemma LastIsNext(probes: seq<ProbeType>, attached: seq<nat>, p: nat)
    requires attached != [] && Directed(probes, attached) && p in attached[..|attached| - 1]
    requires AttachReverse(probes[p]) == AttachReverse(probes[attached[|attached| - 1]])
    ensures var last := attached[|attached| - 1];
      if AttachReverse(probes[last]) then last < p else p < last
  {
    hide AttachReverse;
    var i :| 0 <= i < |attached| - 1 && attached[i] == p;
  }

  lemma {:induction false} DirectedFires(probes: seq<ProbeType>, attached: seq<nat>, lastFirst: bool)
    requires Directed(probes, attached)
    ensures Increasing(Firing(probes, attached, lastFirst))
  {
    if attached != [] {
      hide AttachReverse, FiresLastFirst, Directed, Increasing;
      var n := |attached| - 1;
      DirectedPrefix(probes, attached);
      DirectedFires(probes, attached[..n], lastFirst);
      var rest := Firing(probes, attached[..n], lastFirst);
      if FiresLastFirst(probes[attached[n]]) == lastFirst {
        FiringMembers(probes, attached[..n], lastFirst);
        DirectionsAgree(probes[attached[n]]);
        forall k | 0 <= k < |rest| ensures if lastFirst then attached[n] < rest[k] else rest[k] < attached[n] {
          assert rest[k] in rest;
          DirectionsAgree(probes[rest[k]]);
          LastIsNext(probes, attached, rest[k]);
        }
        IncreasingExtends(rest, attached[n]);
      }
    }
  }

  lemma DirectedPrefix(probes: seq<ProbeType>, attached: seq<nat>)
    requires attached != [] && Directed(probes, attached)
    ensures Directed(probes, attached[..|attached| - 1])
    ensures AllBelow(attached, |probes|) && attached[|attached| - 1] < |probes|
  {
    hide AttachReverse;
  }

  // Main result: however many attempts were made and whichever of them worked, the attached probes
  // of each class fire in the order of their declaration.
  lemma FireInDeclarationOrder(
      probes: seq<ProbeType>, works: set<nat>, strict: bool, attempts: nat, attached: seq<nat>, lastFirst: bool)
    requires Progress(Plan(probes), works, strict, attempts, attached)
    ensures AllBelow(attached, |probes|)
    ensures Increasing(Firing(probes, attached, lastFirst))
    ensures forall p :: p in Firing(probes, attached, lastFirst)
                        <==> p in attached && FiresLastFirst(probes[p]) == lastFirst
  {
    hide Plan, Succeeding, Firing, AttachReverse, FiresLastFirst;
    var plan := Plan(probes);
    PlanIsEveryProbe(probes);
    PlanIsDirected(probes);
    var made := plan[..attempts];
    assert forall p :: p in made ==> p in plan;
    assert Directed(probes, made);
    SucceedingDirected(probes, made, works);
    DirectedFires(probes, attached, lastFirst);
    FiringMembers(probes, attached, lastFirst);
  }
}
