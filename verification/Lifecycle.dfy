/** The start-up driver of extension/manager/lifecycle.go. */
module Lifecycle {
  import opened Common
  import opened DependencyGraph
  import opened InitOrder
  import opened Resolver

  datatype Phase = PreInit | Init | PostInit

  /** One hook invocation. Whether it returns an error is a parameter of the model. */
  datatype Call = Call(phase: Phase, name: string)

  datatype InitError =
    | AlreadyInitialized
    | NotAvailable(name: string, dependency: string)
    | Cyclic(remaining: seq<string>)
    | HookFailed(call: Call)

  function CallsOf(phase: Phase, order: seq<string>): (r: seq<Call>)
    ensures |r| == |order| && forall k :: 0 <= k < |r| ==> r[k] == Call(phase, order[k])
  {
    seq(|order|, k requires 0 <= k < |order| => Call(phase, order[k]))
  }

  /** All PreInit hooks, then all Init hooks, then all PostInit hooks. */
  function Schedule(order: seq<string>): seq<Call> {
    CallsOf(PreInit, order) + CallsOf(Init, order) + CallsOf(PostInit, order)
  }

  /** The schedule is followed up to and including the first failing hook. */
  ghost predicate FollowsSchedule(order: seq<string>, fails: Call -> bool, trace: seq<Call>, ok: bool) {
    && trace <= Schedule(order)
    && (forall k :: 0 <= k < |trace| ==> (fails(trace[k]) <==> !ok && k == |trace| - 1))
    && (if ok then trace == Schedule(order) else trace != [])
  }

  /** Lines 110-128 for one phase. */
  method RunPhase(phase: Phase, order: seq<string>, fails: Call -> bool) returns (ok: bool, calls: seq<Call>)
    ensures calls <= CallsOf(phase, order)
    ensures forall k :: 0 <= k < |calls| ==> (fails(calls[k]) <==> !ok && k == |calls| - 1)
    ensures if ok then calls == CallsOf(phase, order) else calls != []
  {
    calls := [];
    for i := 0 to |order|
      invariant calls == CallsOf(phase, order)[..i]
      invariant forall k :: 0 <= k < |calls| ==> !fails(calls[k])
    {
      calls := calls + [Call(phase, order[i])];
      if fails(Call(phase, order[i])) {
        return false, calls;
      }
    }
    return true, calls;
  }

  /** Lines 109-129. */
  method InitializeInPhases(order: seq<string>, fails: Call -> bool) returns (ok: bool, trace: seq<Call>)
    ensures FollowsSchedule(order, fails, trace, ok)
  {
    var phases := [PreInit, Init, PostInit];
    trace := [];
    ghost var pre, mid, post := CallsOf(PreInit, order), CallsOf(Init, order), CallsOf(PostInit, order);
    for p := 0 to |phases|
      invariant trace == if p == 0 then [] else if p == 1 then pre else if p == 2 then pre + mid else pre + mid + post
      invariant forall k :: 0 <= k < |trace| ==> !fails(trace[k])
    {
      var calls;
      ok, calls := RunPhase(phases[p], order, fails);
      trace := trace + calls;
      if !ok {
        assert trace <= Schedule(order);
        return;
      }
    }
    return true, trace;
  }

  /** Everything in front of the call at position `k` succeeded. */
  lemma EarlierCallsSucceeded(order: seq<string>, fails: Call -> bool, trace: seq<Call>, ok: bool, k: nat)
    requires FollowsSchedule(order, fails, trace, ok) && k < |trace|
    ensures forall c :: c in trace[..k] ==> !fails(c)
  {
    forall c | c in trace[..k] ensures !fails(c) {
      var i :| 0 <= i < k && trace[i] == c;
    }
  }

  /** No hook of an extension is invoked twice in one start-up. */
  lemma EachHookOnce(all: set<string>, order: seq<string>, fails: Call -> bool, trace: seq<Call>, ok: bool)
    requires multiset(order) == multiset(all)
    requires FollowsSchedule(order, fails, trace, ok)
    ensures NoDup(trace)
  {
    SetListing(order, all);
    forall i, j | 0 <= i < j < |trace| ensures trace[i] != trace[j] {
      assert trace[i] == Schedule(order)[i] && trace[j] == Schedule(order)[j];
    }
  }

  /**
   * Whenever Init of `x` is invoked, every PreInit has been invoked and has succeeded, and
   * so has Init of every dependency of `x`.
   */
  lemma InitAfterDependencies(g: Graph, all: set<string>, order: seq<string>, fails: Call -> bool,
                              trace: seq<Call>, ok: bool, k: nat, x: string)
    requires IsInitOrder(g, all, order)
    requires FollowsSchedule(order, fails, trace, ok)
    requires k < |trace| && trace[k] == Call(Init, x)
    ensures forall y :: y in all ==> Call(PreInit, y) in trace[..k] && !fails(Call(PreInit, y))
    ensures forall d :: Edge(g, x, d) ==> Call(Init, d) in trace[..k] && !fails(Call(Init, d))
  {
    EarlierCallsSucceeded(order, fails, trace, ok, k);
    SetListing(order, all);
    InitStands(order, k, x);
    forall y | y in all ensures Call(PreInit, y) in trace[..k] {
      PreInitEarlier(order, trace, k, Index(order, y));
    }
    forall d | Edge(g, x, d) ensures Call(Init, d) in trace[..k] {
      assert d in order[..k - |order|];
      InitEarlier(order, trace, k, Index(order[..k - |order|], d));
    }
  }

  /**
   * If the declared graph has no cycle, a registered weak dependency counts like a dependency:
   * whenever Init of `x` is invoked, Init of `d` has been invoked and has succeeded.
   */
  lemma InitAfterDeclared(registry: Registry, sizes: seq<string>, resolved: Graph, all: set<string>,
                          order: seq<string>, fails: Call -> bool, trace: seq<Call>, ok: bool, k: nat,
                          x: string, d: string)
    requires IsResolved(registry, DeclaredGraph(registry), sizes, resolved) && !HasCycle(DeclaredGraph(registry))
    requires IsInitOrder(resolved, all, order) && FollowsSchedule(order, fails, trace, ok)
    requires k < |trace| && trace[k] == Call(Init, x)
    requires x in registry && (d in registry[x].dependencies || (d in registry[x].weak && d in registry))
    ensures Call(Init, d) in trace[..k] && !fails(Call(Init, d))
  {
    DeclaredEdgeIff(registry, x, d);
    InitAfterDependencies(resolved, all, order, fails, trace, ok, k, x);
  }

  /** PostInit of anything is invoked only after every PreInit and every Init has succeeded. */
  lemma PostInitAfterInit(order: seq<string>, fails: Call -> bool, trace: seq<Call>, ok: bool, k: nat,
                          x: string, y: string)
    requires FollowsSchedule(order, fails, trace, ok) && k < |trace| && trace[k] == Call(PostInit, x) && y in order
    ensures Call(PreInit, y) in trace[..k] && !fails(Call(PreInit, y))
    ensures Call(Init, y) in trace[..k] && !fails(Call(Init, y))
  {
    EarlierCallsSucceeded(order, fails, trace, ok, k);
    var n, i := |order|, Index(order, y);
    assert trace[k] == Schedule(order)[k];
    assert trace[..k][i] == Schedule(order)[i];
    assert trace[..k][n + i] == Schedule(order)[n + i];
  }

  /** A successful start-up invokes every hook of every extension, and all succeed. */
  lemma FullStartup(order: seq<string>, fails: Call -> bool, trace: seq<Call>, x: string)
    requires FollowsSchedule(order, fails, trace, true) && x in order
    ensures |trace| == 3 * |order|
    ensures Call(PreInit, x) in trace && Call(Init, x) in trace && Call(PostInit, x) in trace
    ensures !fails(Call(PreInit, x)) && !fails(Call(Init, x)) && !fails(Call(PostInit, x))
  {
    var n, i := |order|, Index(order, x);
    assert trace[i] == Call(PreInit, x) && trace[n + i] == Call(Init, x) && trace[2 * n + i] == Call(PostInit, x);
  }

  /** Where in the schedule the Init hooks stand. */
  lemma InitStands(order: seq<string>, k: nat, x: string)
    requires k < |Schedule(order)| && Schedule(order)[k] == Call(Init, x)
    ensures |order| <= k < 2 * |order| && order[k - |order|] == x
  {
  }

  lemma PreInitEarlier(order: seq<string>, trace: seq<Call>, k: nat, i: nat)
    requires trace <= Schedule(order) && |order| <= k < |trace| && i < |order|
    ensures Call(PreInit, order[i]) in trace[..k]
  {
    assert trace[..k][i] == Schedule(order)[i];
  }

  lemma InitEarlier(order: seq<string>, trace: seq<Call>, k: nat, i: nat)
    requires trace <= Schedule(order) && |order| <= k < |trace| && i < k - |order| && k < 2 * |order|
    ensures Call(Init, order[i]) in trace[..k]
  {
    assert trace[..k][|order| + i] == Schedule(order)[|order| + i];
  }

  /** The resolved graph has the registered extensions as nodes, and only declared edges. */
  lemma ResolvedIsDeclared(registry: Registry, order: seq<string>, resolved: Graph, a: string, b: string)
    requires IsResolved(registry, DeclaredGraph(registry), order, resolved) && Edge(resolved, a, b)
    ensures a in registry && (b in registry[a].dependencies || b in registry)
  {
    var g := DeclaredGraph(registry);
    ResolvedShape(registry, g, order, resolved);
    SubsequenceMember(resolved[a], g[a], b);
    assert b in Declared(registry, registry[a]);
  }

  /** If every dependency is registered, every edge of the resolved graph stays inside it. */
  lemma ResolvedIsClosed(registry: Registry, order: seq<string>, resolved: Graph)
    requires IsResolved(registry, DeclaredGraph(registry), order, resolved)
    requires forall k, d :: k in registry && d in registry[k].dependencies ==> d in registry
    ensures resolved.Keys == registry.Keys && Closed(resolved)
  {
    ResolvedShape(registry, DeclaredGraph(registry), order, resolved);
    forall a, b | Edge(resolved, a, b) ensures b in resolved {
      ResolvedIsDeclared(registry, order, resolved, a, b);
    }
  }

  lemma {:induction false} SubsequenceMember<T>(r: seq<T>, s: seq<T>, x: T)
    requires Subsequence(r, s) && x in r
    ensures x in s
    decreases |s|
  {
    if r[0] == s[0] && Subsequence(r[1..], s[1..]) {
      if x != r[0] {
        SubsequenceMember(r[1..], s[1..], x);
      }
    } else {
      SubsequenceMember(r, s[1..], x);
    }
  }

  /** The dependency lists of the manager's extensions once the registry has been merged in. */
  function Merged(extensions: Graph, registry: Registry): Graph {
    map k | k in extensions.Keys + registry.Keys :: if k in extensions then extensions[k] else registry[k].dependencies
  }

  ghost predicate AllAvailable(extensions: Graph) {
    forall k, d :: k in extensions && d in extensions[k] ==> d in extensions
  }

  /** Where the manager knew an extension before, it declares what the registry says. */
  ghost predicate Agree(extensions: Graph, registry: Registry) {
    forall k :: k in extensions && k in registry ==> extensions[k] == registry[k].dependencies
  }

  /** Whatever the manager knew before: something is blocked exactly by a cycle or an unknown name. */
  lemma BlockedIffCyclicOrUnknown(extensions: Graph, registry: Registry, sizes: seq<string>, resolved: Graph)
    requires IsResolved(registry, DeclaredGraph(registry), sizes, resolved)
    ensures var all := Merged(extensions, registry).Keys;
      (exists x :: x in all && Blocked(resolved, all, x)) <==> HasCycle(resolved) || Leaves(resolved, all)
  {
    ResolvedShape(registry, DeclaredGraph(registry), sizes, resolved);
    BlockedIff(resolved, Merged(extensions, registry).Keys);
  }

  /**
   * Once the availability check has passed, some extension is blocked exactly when the
   * resolved graph still has a cycle: the search that the resolver trusts and the ordering
   * that the manager computes never disagree, whichever extensions were loaded before.
   */
  lemma BlockedIffStillCyclic(extensions: Graph, registry: Registry, sizes: seq<string>, resolved: Graph)
    requires IsResolved(registry, DeclaredGraph(registry), sizes, resolved)
    requires Agree(extensions, registry) && AllAvailable(Merged(extensions, registry))
    ensures var all := Merged(extensions, registry).Keys;
      (exists x :: x in all && Blocked(resolved, all, x)) <==> HasCycle(resolved)
  {
    BlockedIffCyclicOrUnknown(extensions, registry, sizes, resolved);
    forall a, b | Edge(resolved, a, b) ensures b in Merged(extensions, registry) {
      ResolvedIsDeclared(registry, sizes, resolved, a, b);
      assert Merged(extensions, registry)[a] == registry[a].dependencies;
    }
  }

  /**
   * What lines 35-55 may arrive at: the order in which to initialize the extensions, or
   * the reason why there is none. `resolved` is the resolved dependency graph.
   */
  ghost predicate IsPlan(extensions: Graph, resolved: Graph, plan: Result<seq<string>, InitError>) {
    match plan
    case Success(order) =>
      && AllAvailable(extensions)
      && IsInitOrder(resolved, extensions.Keys, order)
      && (forall x :: x in extensions ==> !Blocked(resolved, extensions.Keys, x))
    case Failure(Cyclic(remaining)) =>
      && AllAvailable(extensions)
      && remaining != []
      && (forall x :: x in remaining <==> x in extensions && Blocked(resolved, extensions.Keys, x))
    case Failure(NotAvailable(k, d)) => k in extensions && d in extensions[k] && d !in extensions
    case Failure(_) => false
  }

  /** Without a plan nothing runs; with one, the hooks follow its schedule. */
  ghost predicate IsStartup(plan: Result<seq<string>, InitError>, fails: Call -> bool, trace: seq<Call>,
                            r: Result<(), InitError>)
  {
    match plan
    case Failure(e) => trace == [] && r == Failure(e)
    case Success(order) =>
      && FollowsSchedule(order, fails, trace, r.Success?)
      && (r.Failure? ==> r.error == HookFailed(trace[|trace| - 1]))
  }

  class Manager {
    /** The known extensions with what their instances declare as dependencies. */
    var extensions: Graph
    var initialized: bool
    /** Every hook invocation ever made, oldest first. */
    ghost var log: seq<Call>

    constructor ()
      ensures extensions == map[] && !initialized && log == []
    {
      extensions, initialized, log := map[], false, [];
    }

    /** checkDependencies. */
    method CheckDependencies() returns (missing: Option<(string, string)>)
      ensures match missing
        case None => AllAvailable(extensions)
        case Some((k, d)) => k in extensions && d in extensions[k] && d !in extensions
    {
      var todo := extensions.Keys;
      while todo != {}
        invariant todo <= extensions.Keys
        invariant forall k, d :: k in extensions && k !in todo && d in extensions[k] ==> d in extensions
      {
        var name :| name in todo;
        todo := todo - {name};
        var deps := extensions[name];
        for i := 0 to |deps|
          invariant forall j :: 0 <= j < i ==> deps[j] in extensions
        {
          if deps[i] !in extensions {
            return Some((name, deps[i]));
          }
        }
      }
      return None;
    }

    /** Lines 37-44: registered extensions are added, known ones are kept as they are. */
    method MergeRegistry(registry: Registry)
      modifies this`extensions
      ensures extensions == Merged(old(extensions), registry)
      ensures extensions.Keys == old(extensions).Keys + registry.Keys
      ensures forall k :: k in old(extensions) ==> extensions[k] == old(extensions)[k]
      ensures forall k :: k in registry && k !in old(extensions) ==> extensions[k] == registry[k].dependencies
    {
      var todo := registry.Keys;
      while todo != {}
        invariant todo <= registry.Keys
        invariant extensions.Keys == old(extensions).Keys + (registry.Keys - todo)
        invariant forall k :: k in extensions ==> extensions[k] == Merged(old(extensions), registry)[k]
      {
        var name :| name in todo;
        todo := todo - {name};
        if name !in extensions {
          extensions := extensions[name := registry[name].dependencies];
        }
      }
    }

    /** Lines 35-56. */
    method Prepare(registry: Registry)
      returns (plan: Result<seq<string>, InitError>, ghost resolved: Graph, ghost sizes: seq<string>)
      modifies this`extensions
      ensures extensions == Merged(old(extensions), registry)
      ensures IsResolved(registry, DeclaredGraph(registry), sizes, resolved)
      ensures IsPlan(extensions, resolved, plan)
    {
      var graph;
      graph, sizes := GetExtensionsAndDependencies(registry);
      resolved := graph;
      MergeRegistry(registry);
      var missing := CheckDependencies();
      if missing.Some? {
        return Failure(NotAvailable(missing.value.0, missing.value.1)), resolved, sizes;
      }
      var order := GetInitOrder(extensions, Some(graph));
      if order.Failure? {
        return Failure(Cyclic(order.error)), resolved, sizes;
      }
      return Success(order.value), resolved, sizes;
    }

    /**
     * initExtensionsInternal. The ghost results name the resolved graph, the plan made
     * from it and the hooks that this call invoked.
     */
    method InitExtensions(registry: Registry, fails: Call -> bool)
      returns (r: Result<(), InitError>, ghost resolved: Graph, ghost sizes: seq<string>,
               ghost plan: Result<seq<string>, InitError>, ghost trace: seq<Call>)
      modifies this
      ensures log == old(log) + trace
      ensures initialized <==> old(initialized) || r.Success?
      ensures old(initialized) ==> r == Failure(AlreadyInitialized) && trace == [] && extensions == old(extensions)
      ensures !old(initialized) ==>
        && extensions == Merged(old(extensions), registry)
        && IsResolved(registry, DeclaredGraph(registry), sizes, resolved)
        && IsPlan(extensions, resolved, plan)
        && IsStartup(plan, fails, trace, r)
    {
      resolved, sizes, plan, trace := map[], [], Failure(AlreadyInitialized), [];
      if initialized {
        return Failure(AlreadyInitialized), resolved, sizes, plan, trace;
      }
      var order;
      order, resolved, sizes := Prepare(registry);
      plan := order;
      if order.Failure? {
        return Failure(order.error), resolved, sizes, plan, trace;
      }
      var ok, calls := InitializeInPhases(order.value, fails);
      log, trace := log + calls, calls;
      if !ok {
        return Failure(HookFailed(calls[|calls| - 1])), resolved, sizes, plan, trace;
      }
      initialized := true;
      return Success(()), resolved, sizes, plan, trace;
    }
  }

  // ----- Overlapping calls -----

  /** Where a call of InitExtensions stands. The lock is free between its test and its end. */
  datatype CallState = NotCalled | Rejected | Started | Ended(ok: bool)

  datatype Calls = Calls(initialized: bool, calls: seq<CallState>)

  datatype CallStep =
    | Test(c: nat)                             // lines 22-27
    | End(c: nat, ok: bool)                    // lines 72-74, or the return of an error

  predicate InitCalls(s: Calls) {
    !s.initialized && forall c :: 0 <= c < |s.calls| ==> s.calls[c] == NotCalled
  }

  predicate CanStep(s: Calls, step: CallStep) {
    match step
    case Test(c) => c < |s.calls| && s.calls[c] == NotCalled
    case End(c, _) => c < |s.calls| && s.calls[c] == Started
  }

  function Step(s: Calls, step: CallStep): Calls
    requires CanStep(s, step)
  {
    match step
    case Test(c) => s.(calls := s.calls[c := if s.initialized then Rejected else Started])
    case End(c, ok) => Calls(s.initialized || ok, s.calls[c := Ended(ok)])
  }

  ghost predicate IsCallRun(states: seq<Calls>, steps: seq<CallStep>) {
    && |states| == |steps| + 1 && InitCalls(states[0])
    && forall i :: 0 <= i < |steps| ==> CanStep(states[i], steps[i]) && states[i + 1] == Step(states[i], steps[i])
  }

  /** The call has passed the test, so it runs hooks. */
  predicate RunsHooks(s: Calls, c: nat) {
    c < |s.calls| && (s.calls[c].Started? || s.calls[c].Ended?)
  }

  /** A call has ended with success among the first `i` steps. */
  ghost predicate Succeeded(steps: seq<CallStep>, i: nat) {
    exists j :: 0 <= j < i && j < |steps| && steps[j].End? && steps[j].ok
  }

  /** The test of call `c` is among the first `i` steps, and no call has ended with success before it. */
  ghost predicate TestedInTime(steps: seq<CallStep>, i: nat, c: nat) {
    exists j: nat :: j < i && j < |steps| && steps[j] == Test(c) && !Succeeded(steps, j)
  }

  lemma SucceededStep(steps: seq<CallStep>, i: nat)
    requires i < |steps|
    ensures Succeeded(steps, i + 1) <==> Succeeded(steps, i) || (steps[i].End? && steps[i].ok)
  {
  }

  lemma TestedStep(steps: seq<CallStep>, i: nat, c: nat)
    requires i < |steps|
    ensures TestedInTime(steps, i + 1, c) <==>
      TestedInTime(steps, i, c) || (steps[i] == Test(c) && !Succeeded(steps, i))
  {
  }

  /**
   * In every interleaving of any number of calls: the flag is set exactly when some call has
   * ended with success, and a call runs hooks exactly when it made its test before that.
   */
  lemma {:induction false} RunsHooksIff(states: seq<Calls>, steps: seq<CallStep>, i: nat, c: nat)
    requires IsCallRun(states, steps) && i < |states| && c < |states[0].calls|
    ensures states[i].initialized <==> Succeeded(steps, i)
    ensures |states[i].calls| == |states[0].calls|
    ensures RunsHooks(states[i], c) <==> TestedInTime(steps, i, c)
  {
    if i > 0 {
      RunsHooksIff(states, steps, i - 1, c);
      assert CanStep(states[i - 1], steps[i - 1]) && states[i - 1 + 1] == Step(states[i - 1], steps[i - 1]);
      SucceededStep(steps, i - 1);
      TestedStep(steps, i - 1, c);
    }
  }

  /** Calls that do not overlap: none makes its test while another stands between test and end. */
  ghost predicate OneAtATime(states: seq<Calls>, steps: seq<CallStep>)
    requires |states| == |steps| + 1
  {
    forall i, c :: 0 <= i < |steps| && steps[i].Test? && 0 <= c < |states[i].calls| ==> states[i].calls[c] != Started
  }

  ghost predicate AtMostOneSuccess(s: Calls) {
    forall c, d :: 0 <= c < d < |s.calls| ==> !(s.calls[c] == Ended(true) && s.calls[d] == Ended(true))
  }

  /** While a call is under way no other is, and no other has ended with success. */
  ghost predicate NoRival(s: Calls) {
    forall c, d :: 0 <= c < |s.calls| && 0 <= d < |s.calls| && c != d && s.calls[c] == Started ==>
      s.calls[d] != Started && s.calls[d] != Ended(true)
  }

  lemma StepKeepsNoRival(s: Calls, step: CallStep)
    requires CanStep(s, step) && NoRival(s) && AtMostOneSuccess(s)
    requires forall c :: 0 <= c < |s.calls| && s.calls[c] == Ended(true) ==> s.initialized
    requires step.Test? ==> forall c :: 0 <= c < |s.calls| ==> s.calls[c] != Started
    ensures var s' := Step(s, step);
      && NoRival(s') && AtMostOneSuccess(s')
      && forall c :: 0 <= c < |s'.calls| && s'.calls[c] == Ended(true) ==> s'.initialized
  {
  }

  /** Without overlap at most one call succeeds, however many are made and however many fail. */
  lemma {:induction false} SuccessOnceWithoutOverlap(states: seq<Calls>, steps: seq<CallStep>, i: nat)
    requires IsCallRun(states, steps) && OneAtATime(states, steps) && i < |states|
    ensures NoRival(states[i]) && AtMostOneSuccess(states[i])
    ensures forall c :: 0 <= c < |states[i].calls| && states[i].calls[c] == Ended(true) ==> states[i].initialized
  {
    if i > 0 {
      SuccessOnceWithoutOverlap(states, steps, i - 1);
      assert CanStep(states[i - 1], steps[i - 1]) && states[i - 1 + 1] == Step(states[i - 1], steps[i - 1]);
      StepKeepsNoRival(states[i - 1], steps[i - 1]);
    }
  }
}
