/** Checks that depend on one another: paths, cycles, orders, and what each check comes to. */
module Dependencies {
  type Name = string

  datatype Severity = Info | Warning | Critical

  datatype Spec = Spec(severity: Severity, dependsOn: seq<Name>)

  type Specs = map<Name, Spec>

  function DependsOn(specs: Specs, n: Name): seq<Name> {
    if n in specs then specs[n].dependsOn else []
  }

  /** Every name that is registered or that a registered check names. */
  function Universe(specs: Specs): (u: set<Name>)
    ensures forall n, d :: n in specs && d in specs[n].dependsOn ==> d in u
    ensures forall n :: n in specs ==> n in u
  {
    specs.Keys + set n, d | n in specs && d in specs[n].dependsOn :: d
  }

  /** Each name depends on the next one. */
  predicate IsPath(specs: Specs, p: seq<Name>) {
    p != [] && forall i :: 0 <= i < |p| - 1 ==> p[i + 1] in DependsOn(specs, p[i])
  }

  predicate IsCycle(specs: Specs, c: seq<Name>) {
    |c| >= 2 && c[0] == c[|c| - 1] && IsPath(specs, c)
  }

  ghost predicate HasCycle(specs: Specs) {
    exists c :: IsCycle(specs, c)
  }

  predicate Joins(specs: Specs, p: seq<Name>, a: Name, b: Name) {
    IsPath(specs, p) && p[0] == a && p[|p| - 1] == b
  }

  /** b is a or a dependency of a, direct or not. */
  ghost predicate Reaches(specs: Specs, a: Name, b: Name) {
    exists p :: Joins(specs, p, a, b)
  }

  lemma ReachesItself(specs: Specs, a: Name)
    ensures Reaches(specs, a, a)
  {
    assert Joins(specs, [a], a, a);
  }

  lemma ReachesThrough(specs: Specs, a: Name, d: Name, b: Name)
    requires d in DependsOn(specs, a) && Reaches(specs, d, b)
    ensures Reaches(specs, a, b)
  {
    var p :| Joins(specs, p, d, b);
    assert Joins(specs, [a] + p, a, b);
  }

  lemma ReachesFurther(specs: Specs, a: Name, b: Name, d: Name)
    requires Reaches(specs, a, b) && d in DependsOn(specs, b)
    ensures Reaches(specs, a, d)
  {
    var p :| Joins(specs, p, a, b);
    assert Joins(specs, p + [d], a, d);
  }

  lemma FirstStep(specs: Specs, a: Name, b: Name) returns (d: Name)
    requires Reaches(specs, a, b) && a != b
    ensures d in DependsOn(specs, a) && Reaches(specs, d, b)
  {
    var p :| Joins(specs, p, a, b);
    d := p[1];
    assert Joins(specs, p[1..], d, b);
  }

  /** A set that contains every dependency of its members contains all that they reach. */
  lemma {:induction false} ClosedContains(specs: Specs, s: set<Name>, a: Name, b: Name)
    requires forall n, d :: n in s && d in DependsOn(specs, n) ==> d in s
    requires a in s && Reaches(specs, a, b)
    ensures b in s
  {
    var p :| Joins(specs, p, a, b);
    var i := 0;
    while i < |p| - 1
      invariant 0 <= i < |p| && p[i] in s
    {
      assert p[i + 1] in DependsOn(specs, p[i]);
      i := i + 1;
    }
  }

  // ----- orders

  predicate Distinct(s: seq<Name>) {
    forall i, j :: 0 <= i < j < |s| ==> s[i] != s[j]
  }

  /** Dependencies come first. */
  predicate Topological(specs: Specs, order: seq<Name>) {
    forall i, d :: 0 <= i < |order| && d in DependsOn(specs, order[i]) ==> d in order[..i]
  }

  /** Along a path one moves toward the front of the order. */
  lemma {:induction false} PathMovesForward(specs: Specs, order: seq<Name>, p: seq<Name>, i: nat) returns (j: nat)
    requires Topological(specs, order) && IsPath(specs, p) && i < |order| && order[i] == p[0]
    ensures j <= i && order[j] == p[|p| - 1] && (|p| >= 2 ==> j < i)
    decreases |p|
  {
    if |p| == 1 {
      j := i;
    } else {
      assert p[1] in DependsOn(specs, p[0]);
      assert p[1] in order[..i];
      var k :| 0 <= k < i && order[k] == p[1];
      assert IsPath(specs, p[1..]);
      j := PathMovesForward(specs, order, p[1..], k);
    }
  }

  /** An order of all checks leaves no room for a cycle. */
  lemma OrderedIsAcyclic(specs: Specs, order: seq<Name>)
    requires Topological(specs, order) && Distinct(order) && forall n :: n in specs ==> n in order
    ensures !HasCycle(specs)
  {
    forall c | IsCycle(specs, c)
      ensures false
    {
      assert c[1] in DependsOn(specs, c[0]);
      assert c[0] in order;
      var i :| 0 <= i < |order| && order[i] == c[0];
      var j := PathMovesForward(specs, order, c, i);
    }
  }

  // ----- what a check comes to

  datatype Verdict = Passed | NotPassed | Raised

  datatype Status = PASS | FAIL | SKIP

  /** The check and everything it depends on, directly or not, pass on their own. */
  ghost predicate Sound(specs: Specs, verdict: Name -> Verdict, n: Name) {
    forall d :: Reaches(specs, n, d) ==> verdict(d).Passed?
  }

  ghost function StatusOf(specs: Specs, verdict: Name -> Verdict, n: Name): Status {
    if exists d :: d in DependsOn(specs, n) && !Sound(specs, verdict, d) then SKIP
    else if verdict(n).Passed? then PASS
    else FAIL
  }

  lemma SoundStep(specs: Specs, verdict: Name -> Verdict, n: Name)
    ensures Sound(specs, verdict, n) <==>
            verdict(n).Passed? && forall d :: d in DependsOn(specs, n) ==> Sound(specs, verdict, d)
  {
    ReachesItself(specs, n);
    if Sound(specs, verdict, n) {
      forall d, b | d in DependsOn(specs, n) && Reaches(specs, d, b)
        ensures verdict(b).Passed?
      {
        ReachesThrough(specs, n, d, b);
      }
    }
    if verdict(n).Passed? && forall d :: d in DependsOn(specs, n) ==> Sound(specs, verdict, d) {
      forall b | Reaches(specs, n, b)
        ensures verdict(b).Passed?
      {
        if b != n {
          var d := FirstStep(specs, n, b);
        }
      }
    }
  }

  /** PASS exactly when the check and all its transitive dependencies pass. */
  lemma PassIff(specs: Specs, verdict: Name -> Verdict, n: Name)
    ensures StatusOf(specs, verdict, n) == PASS <==> Sound(specs, verdict, n)
  {
    SoundStep(specs, verdict, n);
  }

  /** SKIP exactly when some direct dependency is not PASS. */
  lemma SkipIff(specs: Specs, verdict: Name -> Verdict, n: Name)
    ensures StatusOf(specs, verdict, n) == SKIP <==>
            exists d :: d in DependsOn(specs, n) && StatusOf(specs, verdict, d) != PASS
  {
    forall d
      ensures StatusOf(specs, verdict, d) == PASS <==> Sound(specs, verdict, d)
    {
      PassIff(specs, verdict, d);
    }
  }

  // ----- part of a registry

  /** The registered checks that the names in s reach. */
  ghost predicate IsPart(registry: Specs, part: Specs, s: set<Name>) {
    && (forall n :: n in part <==> n in registry && exists a :: a in s && Reaches(registry, a, n))
    && (forall n :: n in part ==> part[n] == registry[n])
  }

  lemma {:induction false} PartReaches(registry: Specs, part: Specs, s: set<Name>, a: Name, b: Name)
    requires IsPart(registry, part, s) && a in part
    ensures Reaches(part, a, b) <==> Reaches(registry, a, b)
  {
    if p :| Joins(part, p, a, b) {
      forall i | 0 <= i < |p| - 1
        ensures p[i + 1] in DependsOn(registry, p[i])
      {
        assert p[i + 1] in DependsOn(part, p[i]);
      }
      assert Joins(registry, p, a, b);
    }
    if p :| Joins(registry, p, a, b) {
      PathStays(registry, part, s, p);
      assert Joins(part, p, a, b);
    }
  }

  lemma PathStays(registry: Specs, part: Specs, s: set<Name>, p: seq<Name>)
    requires IsPart(registry, part, s) && IsPath(registry, p) && p[0] in part
    ensures IsPath(part, p)
  {
    var i := 0;
    while i < |p| - 1
      invariant 0 <= i < |p|
      invariant exists a :: a in s && Reaches(registry, a, p[i])
      invariant forall k :: 0 <= k < i ==> p[k + 1] in DependsOn(part, p[k])
    {
      assert p[i + 1] in DependsOn(registry, p[i]);
      var a :| a in s && Reaches(registry, a, p[i]);
      ReachesFurther(registry, a, p[i], p[i + 1]);
      i := i + 1;
    }
  }

  /** A check comes to the same in a part of the registry as in all of it. */
  lemma PartStatus(registry: Specs, part: Specs, s: set<Name>, verdict: Name -> Verdict, n: Name)
    requires IsPart(registry, part, s) && n in part
    ensures StatusOf(part, verdict, n) == StatusOf(registry, verdict, n)
  {
    forall d | d in DependsOn(registry, n)
      ensures Sound(part, verdict, d) <==> Sound(registry, verdict, d)
    {
      PartSound(registry, part, s, verdict, n, d);
    }
  }

  lemma PartSound(registry: Specs, part: Specs, s: set<Name>, verdict: Name -> Verdict, n: Name, d: Name)
    requires IsPart(registry, part, s) && n in part && d in DependsOn(registry, n)
    ensures Sound(part, verdict, d) <==> Sound(registry, verdict, d)
  {
    if d in part {
      forall b
        ensures Reaches(part, d, b) <==> Reaches(registry, d, b)
      {
        PartReaches(registry, part, s, d, b);
      }
    } else {
      var a :| a in s && Reaches(registry, a, n);
      ReachesFurther(registry, a, n, d);
      assert DependsOn(registry, d) == DependsOn(part, d) == [];
      SoundStep(registry, verdict, d);
      SoundStep(part, verdict, d);
    }
  }
}
