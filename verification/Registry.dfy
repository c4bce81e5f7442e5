/** The probe registry: order the checks by their dependencies and run them. */
module Registry {
  import opened Dependencies
  import opened Wrappers

  /** _resolve_order with its three local collections. */
  class Resolver {
    const specs: Specs
    var visited: set<Name>
    var visiting: set<Name>
    var order: seq<Name>

    constructor (specs: Specs)
      ensures this.specs == specs && visiting == {} && order == [] && Valid()
    {
      this.specs := specs;
      visited, visiting, order := {}, {}, [];
    }

    /** What has been ordered is closed under dependencies, without repetition. */
    ghost predicate Valid()
      reads this
    {
      && Distinct(order) && Topological(specs, order)
      && (forall n :: n in visited <==> n in order)
      && visited !! visiting && visited <= Universe(specs)
    }

    /** The grey names are the path of the recursion, each depending on the next. */
    ghost predicate OnPath(path: seq<Name>)
      reads this
    {
      && (forall n :: n in visiting <==> n in path)
      && visiting <= Universe(specs)
      && (path != [] ==> IsPath(specs, path))
    }

    /**
     _visit: true when the name and all it needs are ordered; false where the source raises, and
     then there is a cycle.
     */
    method Visit(name: Name, ghost path: seq<Name>) returns (ok: bool)
      requires Valid() && OnPath(path) && name in Universe(specs)
      requires path != [] ==> name in DependsOn(specs, path[|path| - 1])
      modifies this
      ensures ok ==> Valid() && visiting == old(visiting) && name in visited && old(order) <= order
      ensures !ok ==> HasCycle(specs)
      decreases Universe(specs) - visiting
    {
      if name in visited {
        return true;
      }
      if name in visiting {
        CycleOnPath(specs, path, name);
        return false;
      }
      visiting := visiting + {name};
      if name in specs {
        var dependsOn := specs[name].dependsOn;
        for i := 0 to |dependsOn|
          invariant Valid() && visiting == old(visiting) + {name} && old(order) <= order
          invariant forall k :: 0 <= k < i ==> dependsOn[k] in visited
        {
          LongerPath(specs, path, name);
          ok := Visit(dependsOn[i], path + [name]);
          if !ok {
            return;
          }
        }
      }
      assert forall d :: d in DependsOn(specs, name) ==> d in order;
      OneMore(specs, order, name);
      visiting := visiting - {name};
      visited := visited + {name};
      order := order + [name];
      return true;
    }
  }

  lemma CycleOnPath(specs: Specs, path: seq<Name>, name: Name)
    requires IsPath(specs, path) && name in path && name in DependsOn(specs, path[|path| - 1])
    ensures HasCycle(specs)
  {
    var i :| 0 <= i < |path| && path[i] == name;
    assert IsCycle(specs, path[i..] + [name]);
  }

  lemma LongerPath(specs: Specs, path: seq<Name>, name: Name)
    requires path != [] ==> IsPath(specs, path) && name in DependsOn(specs, path[|path| - 1])
    ensures IsPath(specs, path + [name])
  {}

  lemma OneMore(specs: Specs, order: seq<Name>, name: Name)
    requires Topological(specs, order) && forall d :: d in DependsOn(specs, name) ==> d in order
    ensures Topological(specs, order + [name])
  {
    forall i, d | 0 <= i < |order + [name]| && d in DependsOn(specs, (order + [name])[i])
      ensures d in (order + [name])[..i]
    {
      assert (order + [name])[..i] == if i < |order| then order[..i] else order;
    }
  }

  ghost predicate Lists(keys: seq<Name>, s: set<Name>) {
    forall n :: n in keys <==> n in s
  }

  /**
   _resolve_order, over the keys in any order: every key and every dependency once, dependencies
   first, or None exactly when there is a cycle.
   */
  method ResolveOrder(specs: Specs, keys: seq<Name>) returns (order: Option<seq<Name>>)
    requires Lists(keys, specs.Keys)
    ensures order.None? <==> HasCycle(specs)
    ensures order.Some? ==>
              && Distinct(order.value) && Topological(specs, order.value)
              && forall n :: n in order.value <==> n in Universe(specs)
  {
    var resolver := new Resolver(specs);
    for i := 0 to |keys|
      invariant resolver.Valid() && resolver.visiting == {}
      invariant forall k :: 0 <= k < i ==> keys[k] in resolver.visited
    {
      assert keys[i] in keys;
      var ok := resolver.Visit(keys[i], []);
      if !ok {
        return None;
      }
    }
    order := Some(resolver.order);
    OrderCovers(specs, resolver.order);
    OrderedIsAcyclic(specs, resolver.order);
  }

  lemma OrderCovers(specs: Specs, order: seq<Name>)
    requires Topological(specs, order) && forall n :: n in specs ==> n in order
    ensures forall d :: d in Universe(specs) ==> d in order
  {
    forall d | d in Universe(specs)
      ensures d in order
    {
      if d !in specs {
        var n :| n in specs && d in specs[n].dependsOn;
        var i :| 0 <= i < |order| && order[i] == n;
        assert d in DependsOn(specs, order[i]);
      }
    }
  }

  // ----- _expand

  class Expansion {
    const registry: Specs
    var needed: set<Name>

    constructor (registry: Specs)
      ensures this.registry == registry && needed == {}
    {
      this.registry := registry;
      needed := {};
    }

    /** Every needed name but the open ones has its dependencies among the needed. */
    ghost predicate Closed(open: set<Name>)
      reads this
    {
      forall n, d :: n in needed && n !in open && d in DependsOn(registry, n) ==> d in needed
    }

    /** _expand; `open` are the names whose dependencies are still being expanded. */
    method Expand(name: Name, ghost open: set<Name>, ghost bound: set<Name>)
      requires Closed(open) && needed <= bound && name in bound && Universe(registry) <= bound
      modifies this
      ensures Closed(open) && old(needed) <= needed <= bound && name in needed
      ensures forall n :: n in needed && n !in old(needed) ==> Reaches(registry, name, n)
      decreases bound - needed
    {
      if name in needed {
        return;
      }
      needed := needed + {name};
      ReachesItself(registry, name);
      if name in registry {
        var dependsOn := registry[name].dependsOn;
        for i := 0 to |dependsOn|
          invariant Closed(open + {name}) && old(needed) + {name} <= needed <= bound
          invariant forall k :: 0 <= k < i ==> dependsOn[k] in needed
          invariant forall n :: n in needed && n !in old(needed) ==> Reaches(registry, name, n)
        {
          ghost var before := needed;
          assert dependsOn[i] in DependsOn(registry, name);
          Expand(dependsOn[i], open + {name}, bound);
          forall n | n in needed && n !in before
            ensures Reaches(registry, name, n)
          {
            ReachesThrough(registry, name, dependsOn[i], n);
          }
        }
      }
    }
  }

  /** The checks to consider: all of them, or those asked for and what they depend on. */
  ghost predicate Selected(registry: Specs, only: Option<set<Name>>, specs: Specs) {
    if only.None? then specs == registry else IsPart(registry, specs, only.value)
  }

  method Select(registry: Specs, only: Option<set<Name>>) returns (specs: Specs)
    ensures Selected(registry, only, specs)
  {
    if only.None? {
      return registry;
    }
    var expansion := new Expansion(registry);
    var left := only.value;
    ghost var bound := Universe(registry) + only.value;
    while left != {}
      invariant left <= only.value && only.value - left <= expansion.needed <= bound && expansion.Closed({})
      invariant forall n :: n in expansion.needed ==> exists a :: a in only.value && Reaches(registry, a, n)
      decreases left
    {
      var n :| n in left;
      expansion.Expand(n, {}, bound);
      left := left - {n};
    }
    ghost var needed := expansion.needed;
    forall a, n | a in only.value && Reaches(registry, a, n)
      ensures n in needed
    {
      ClosedContains(registry, needed, a, n);
    }
    specs := map n | n in expansion.needed && n in registry :: registry[n];
  }

  // ----- run_checks

  datatype CheckResult = CheckResult(name: Name, status: Status, severity: Severity, failedDeps: seq<Name>)

  /** ValueError of a cycle, KeyError of a dependency that is not registered, or the results. */
  datatype Outcome = CycleDetected | NotRegistered(name: Name) | Results(results: seq<CheckResult>)

  ghost predicate Reported(specs: Specs, verdict: Name -> Verdict, r: CheckResult) {
    && r.name in specs && r.severity == specs[r.name].severity
    && r.status == StatusOf(specs, verdict, r.name)
    && r.failedDeps == Unsound(specs, verdict, DependsOn(specs, r.name))
  }

  /** Those of the names that do not pass, in their order. */
  ghost function Unsound(specs: Specs, verdict: Name -> Verdict, names: seq<Name>): (r: seq<Name>)
    ensures forall d :: d in r <==> d in names && !Sound(specs, verdict, d)
  {
    if names == [] then []
    else (if Sound(specs, verdict, names[0]) then [] else [names[0]]) + Unsound(specs, verdict, names[1..])
  }

  function NamesOf(results: seq<CheckResult>): (names: seq<Name>)
    ensures |names| == |results| && forall i :: 0 <= i < |names| ==> names[i] == results[i].name
  {
    seq(|results|, i requires 0 <= i < |results| => results[i].name)
  }

  /** Each selected check is reported once, behind its dependencies, and nothing else is. */
  ghost predicate AllReported(specs: Specs, verdict: Name -> Verdict, results: seq<CheckResult>) {
    && (forall i :: 0 <= i < |results| ==> Reported(specs, verdict, results[i]))
    && (forall n :: n in specs ==> n in NamesOf(results))
    && Distinct(NamesOf(results)) && Topological(specs, NamesOf(results))
  }

  function FailedAmong(deps: seq<Name>, failed: set<Name>): (r: seq<Name>)
    ensures forall d :: d in r <==> d in deps && d in failed
  {
    if deps == [] then [] else (if deps[0] in failed then [deps[0]] else []) + FailedAmong(deps[1..], failed)
  }

  /** Each check function is called at most once, and only when its dependencies were called and passed. */
  ghost predicate CalledInTurn(specs: Specs, verdict: Name -> Verdict, calls: seq<Name>) {
    && Distinct(calls)
    && forall i :: 0 <= i < |calls| ==> NeedsPassed(specs, verdict, calls[..i], calls[i])
  }

  ghost predicate NeedsPassed(specs: Specs, verdict: Name -> Verdict, before: seq<Name>, n: Name) {
    forall d :: d in DependsOn(specs, n) ==> d in before && StatusOf(specs, verdict, d) == PASS
  }

  /** What the loop knows after the first n checks of the order. */
  ghost predicate RanSoFar(specs: Specs, verdict: Name -> Verdict, order: seq<Name>, n: nat,
                           results: seq<CheckResult>, failed: set<Name>, calls: seq<Name>)
    requires n <= |order|
  {
    && |results| == n
    && (forall i :: 0 <= i < n ==> results[i].name == order[i] && Reported(specs, verdict, results[i]))
    && (forall d :: d in failed <==> d in order[..n] && !Sound(specs, verdict, d))
    && (forall d :: d in calls <==> d in order[..n] && StatusOf(specs, verdict, d) != SKIP)
    && CalledInTurn(specs, verdict, calls)
  }

  lemma NothingCalled(specs: Specs, verdict: Name -> Verdict)
    ensures CalledInTurn(specs, verdict, [])
  {}

  /** One round: skip the check or call it; a check that raises counts as failed. */
  method RunOne(specs: Specs, ghost order: seq<Name>, ghost n: nat, name: Name, verdict: Name -> Verdict,
                results: seq<CheckResult>, failed: set<Name>, ghost calls: seq<Name>)
    returns (results': seq<CheckResult>, failed': set<Name>, ghost calls': seq<Name>)
    requires Topological(specs, order) && Distinct(order) && n < |order| && order[n] == name && name in specs
    requires RanSoFar(specs, verdict, order, n, results, failed, calls)
    ensures RanSoFar(specs, verdict, order, n + 1, results', failed', calls')
  {
    hide Sound, StatusOf, RanSoFar;
    var spec := specs[name];
    var depsFailed := FailedAmong(spec.dependsOn, failed);
    FailedDependencies(specs, verdict, order, n, results, failed, calls);
    StatusKnown(specs, verdict, name);
    FailedAreUnsound(specs, verdict, spec.dependsOn, failed);
    var r;
    failed' := failed;
    if depsFailed != [] {
      assert depsFailed[0] in depsFailed;
      r := CheckResult(name, SKIP, spec.severity, depsFailed);
      failed' := failed + {name};
    } else {
      assert forall d :: d in DependsOn(specs, name) ==> d !in depsFailed;
      var passed := verdict(name).Passed?;
      if !passed {
        failed' := failed + {name};
      }
      r := CheckResult(name, if passed then PASS else FAIL, spec.severity, depsFailed);
    }
    results' := results + [r];
    calls' := if r.status == SKIP then calls else calls + [name];
    OneMoreRan(specs, verdict, order, n, results, failed, calls, r);
    assert failed' == if Sound(specs, verdict, name) then failed else failed + {name};
  }

  lemma FailedDependencies(specs: Specs, verdict: Name -> Verdict, order: seq<Name>, n: nat,
                           results: seq<CheckResult>, failed: set<Name>, calls: seq<Name>)
    requires Topological(specs, order) && n < |order| && RanSoFar(specs, verdict, order, n, results, failed, calls)
    ensures forall d :: d in DependsOn(specs, order[n]) ==> (d in failed <==> !Sound(specs, verdict, d))
  {}

  lemma {:induction false} FailedAreUnsound(specs: Specs, verdict: Name -> Verdict, names: seq<Name>, failed: set<Name>)
    requires forall d :: d in names ==> (d in failed <==> !Sound(specs, verdict, d))
    ensures FailedAmong(names, failed) == Unsound(specs, verdict, names)
  {
    hide Sound;
    if names != [] {
      FailedAreUnsound(specs, verdict, names[1..], failed);
    }
  }

  lemma StatusKnown(specs: Specs, verdict: Name -> Verdict, n: Name)
    ensures StatusOf(specs, verdict, n) == SKIP <==> exists d :: d in DependsOn(specs, n) && !Sound(specs, verdict, d)
    ensures StatusOf(specs, verdict, n) != SKIP ==>
              StatusOf(specs, verdict, n) == if verdict(n).Passed? then PASS else FAIL
    ensures StatusOf(specs, verdict, n) == PASS <==> Sound(specs, verdict, n)
  {
    PassIff(specs, verdict, n);
  }

  lemma OneMoreRan(specs: Specs, verdict: Name -> Verdict, order: seq<Name>, n: nat,
                   results: seq<CheckResult>, failed: set<Name>, calls: seq<Name>, r: CheckResult)
    requires Topological(specs, order) && Distinct(order) && n < |order| && r.name == order[n]
    requires RanSoFar(specs, verdict, order, n, results, failed, calls) && Reported(specs, verdict, r)
    ensures RanSoFar(specs, verdict, order, n + 1, results + [r],
                     if Sound(specs, verdict, order[n]) then failed else failed + {order[n]},
                     if r.status == SKIP then calls else calls + [order[n]])
  {
    hide Sound, StatusOf, CalledInTurn;
    assert order[..n + 1] == order[..n] + [order[n]];
    if r.status != SKIP {
      StatusKnown(specs, verdict, order[n]);
      CallNext(specs, verdict, order, n, calls);
    }
  }

  lemma CallNext(specs: Specs, verdict: Name -> Verdict, order: seq<Name>, n: nat, calls: seq<Name>)
    requires Topological(specs, order) && Distinct(order) && n < |order|
    requires forall d :: d in calls <==> d in order[..n] && StatusOf(specs, verdict, d) != SKIP
    requires CalledInTurn(specs, verdict, calls)
    requires forall d :: d in DependsOn(specs, order[n]) ==> Sound(specs, verdict, d)
    ensures CalledInTurn(specs, verdict, calls + [order[n]])
  {
    var more := calls + [order[n]];
    assert order[n] !in order[..n];
    forall d | d in DependsOn(specs, order[n])
      ensures d in calls && StatusOf(specs, verdict, d) == PASS
    {
      assert d in order[..n];
      PassIff(specs, verdict, d);
    }
    forall i | 0 <= i < |more|
      ensures NeedsPassed(specs, verdict, more[..i], more[i])
    {
      assert more[..i] == if i < |calls| then calls[..i] else calls;
      assert i < |calls| ==> NeedsPassed(specs, verdict, calls[..i], calls[i]);
    }
  }

  /**
   run_checks.  The keys may come in any order, and so may the selected ones: neither changes
   what is reported of a check.
   */
  method RunChecks(registry: Specs, only: Option<set<Name>>, verdict: Name -> Verdict)
    returns (outcome: Outcome, ghost specs: Specs, ghost calls: seq<Name>)
    ensures Selected(registry, only, specs)
    ensures outcome.CycleDetected? <==> HasCycle(specs)
    ensures outcome.NotRegistered? <==> !HasCycle(specs) && Universe(specs) != specs.Keys
    ensures outcome.NotRegistered? ==> outcome.name in Universe(specs) - specs.Keys
    ensures outcome.Results? ==> AllReported(specs, verdict, outcome.results)
    ensures CalledInTurn(specs, verdict, calls)
    ensures outcome.Results? ==> forall n :: n in calls <==> n in specs && StatusOf(specs, verdict, n) != SKIP
  {
    hide Sound, StatusOf, HasCycle, Selected, Topological, Universe, CalledInTurn, AllReported;
    calls := [];
    var chosen := Select(registry, only);
    specs := chosen;
    NothingCalled(chosen, verdict);
    var keys := KeysOf(chosen);
    var ordered := ResolveOrder(chosen, keys);
    if ordered.None? {
      return CycleDetected, specs, calls;
    }
    outcome, calls := RunInOrder(chosen, ordered.value, verdict);
  }

  /** The loop of run_checks over the names in their order. */
  method RunInOrder(specs: Specs, order: seq<Name>, verdict: Name -> Verdict)
    returns (outcome: Outcome, ghost calls: seq<Name>)
    requires Distinct(order) && Topological(specs, order) && forall n :: n in order <==> n in Universe(specs)
    ensures !outcome.CycleDetected?
    ensures outcome.NotRegistered? <==> Universe(specs) != specs.Keys
    ensures outcome.NotRegistered? ==> outcome.name in Universe(specs) - specs.Keys
    ensures outcome.Results? ==> AllReported(specs, verdict, outcome.results)
    ensures CalledInTurn(specs, verdict, calls)
    ensures outcome.Results? ==> forall n :: n in calls <==> n in specs && StatusOf(specs, verdict, n) != SKIP
  {
    hide Sound, StatusOf, Topological, CalledInTurn, Reported;
    calls := [];
    NothingCalled(specs, verdict);
    var results: seq<CheckResult>, failed: set<Name> := [], {};
    for i := 0 to |order|
      invariant RanSoFar(specs, verdict, order, i, results, failed, calls)
      invariant forall k :: 0 <= k < i ==> order[k] in specs
    {
      assert order[i] in order;
      if order[i] !in specs {
        return NotRegistered(order[i]), calls;
      }
      results, failed, calls := RunOne(specs, order, i, order[i], verdict, results, failed, calls);
    }
    assert order[..|order|] == order;
    outcome := Results(results);
    assert NamesOf(results) == order;
  }

  /** The keys of a dictionary, in some order. */
  method KeysOf(specs: Specs) returns (keys: seq<Name>)
    ensures Lists(keys, specs.Keys)
  {
    keys := [];
    var left := specs.Keys;
    while left != {}
      invariant left <= specs.Keys && forall n :: n in keys <==> n in specs.Keys && n !in left
      decreases left
    {
      var n :| n in left;
      keys, left := keys + [n], left - {n};
    }
  }

  /** A run of some checks reports of each exactly what a run of all of them reports. */
  lemma PartialRunAgrees(registry: Specs, only: set<Name>, specs: Specs, verdict: Name -> Verdict,
                         some: CheckResult, all: CheckResult)
    requires Selected(registry, Some(only), specs)
    requires Reported(specs, verdict, some) && Reported(registry, verdict, all) && some.name == all.name
    ensures some == all
  {
    PartStatus(registry, specs, only, verdict, some.name);
    UnsoundAgrees(registry, specs, only, verdict, some.name, DependsOn(registry, some.name));
  }

  lemma {:induction false} UnsoundAgrees(registry: Specs, part: Specs, s: set<Name>, verdict: Name -> Verdict,
                                         n: Name, names: seq<Name>)
    requires IsPart(registry, part, s) && n in part && forall d :: d in names ==> d in DependsOn(registry, n)
    ensures Unsound(part, verdict, names) == Unsound(registry, verdict, names)
  {
    hide Sound, IsPart;
    if names != [] {
      PartSound(registry, part, s, verdict, n, names[0]);
      UnsoundAgrees(registry, part, s, verdict, n, names[1..]);
    }
  }
}
