/** Collecting the OBJECT libraries a GN target depends on, by recursion over the dependency graph
    that adds to one shared set and keeps no record of visited targets. */
module GnDependencies {

  /** The GN target types that matter here; a target without a type counts as `OtherType`. */
  datatype Kind = Executable | LoadableModule | SharedLibrary | StaticLibrary | SourceSet | OtherType(name: string)

  datatype Target = Target(kind: Kind, deps: seq<string>)

  type Project = map<string, Target>

  predicate Absorbs(kind: Kind) {
    kind == Executable || kind == LoadableModule || kind == SharedLibrary || kind == StaticLibrary
  }

  /** Which kinds of dependency a collection looks behind. */
  predicate BehindForSources(kind: Kind) {
    !Absorbs(kind)
  }

  predicate BehindForLibraries(kind: Kind) {
    kind == SourceSet
  }

  ghost predicate Closed(p: Project) {
    forall t, d :: t in p && d in p[t].deps ==> d in p
  }

  // ----- Dependency chains -----

  /** A chain of dependencies, one or more, whose intermediate targets are all looked behind. */
  ghost predicate IsChain(p: Project, behind: Kind -> bool, chain: seq<string>) {
    |chain| >= 2 &&
    (forall i :: 0 <= i < |chain| ==> chain[i] in p) &&
    (forall i :: 0 <= i < |chain| - 1 ==> chain[i + 1] in p[chain[i]].deps) &&
    forall i :: 0 < i < |chain| - 1 ==> behind(p[chain[i]].kind)
  }

  ghost predicate Leads(p: Project, behind: Kind -> bool, from: string, to: string) {
    exists chain :: IsChain(p, behind, chain) && chain[0] == from && chain[|chain| - 1] == to
  }

  /** No target that is looked behind depends on itself through targets that are. */
  ghost predicate Acyclic(p: Project, behind: Kind -> bool) {
    forall t :: t in p && behind(p[t].kind) ==> !Leads(p, behind, t, t)
  }

  /** A target that depends on itself, through whatever targets. */
  ghost predicate HasCycle(p: Project) {
    exists t :: t in p && Leads(p, _ => true, t, t)
  }

  lemma PlainAcyclicIsEnough(p: Project, behind: Kind -> bool)
    requires !HasCycle(p)
    ensures Acyclic(p, behind)
  {
    forall t | t in p && behind(p[t].kind)
      ensures !Leads(p, behind, t, t)
    {
      if Leads(p, behind, t, t) {
        var chain :| IsChain(p, behind, chain) && chain[0] == t && chain[|chain| - 1] == t;
        assert IsChain(p, _ => true, chain);
      }
    }
  }

  /** The source sets a target reaches. */
  ghost function Collected(p: Project, behind: Kind -> bool, name: string): set<string> {
    set d | d in p && p[d].kind == SourceSet && Leads(p, behind, name, d)
  }

  /** What one dependency contributes. */
  ghost function Contribution(p: Project, behind: Kind -> bool, dep: string): set<string>
    requires dep in p
  {
    (if p[dep].kind == SourceSet then {dep} else {}) + (if behind(p[dep].kind) then Collected(p, behind, dep) else {})
  }

  lemma LeadsDirectly(p: Project, behind: Kind -> bool, a: string, b: string)
    requires Closed(p) && a in p && b in p[a].deps
    ensures Leads(p, behind, a, b)
  {
    assert IsChain(p, behind, [a, b]);
    assert [a, b][0] == a && [a, b][1] == b;
  }

  lemma LeadsOn(p: Project, behind: Kind -> bool, a: string, b: string, c: string)
    requires Closed(p) && a in p && b in p[a].deps && behind(p[b].kind) && Leads(p, behind, b, c)
    ensures Leads(p, behind, a, c)
  {
    var chain :| IsChain(p, behind, chain) && chain[0] == b && chain[|chain| - 1] == c;
    var longer := [a] + chain;
    assert longer[|longer| - 1] == c;
    assert forall i :: 1 <= i < |longer| ==> longer[i] == chain[i - 1];
    assert IsChain(p, behind, longer);
  }

  lemma LeadsFurther(p: Project, behind: Kind -> bool, a: string, b: string, c: string)
    requires Closed(p) && Leads(p, behind, a, b) && b in p && behind(p[b].kind) && c in p[b].deps
    ensures Leads(p, behind, a, c)
  {
    var chain :| IsChain(p, behind, chain) && chain[0] == a && chain[|chain| - 1] == b;
    var longer := chain + [c];
    assert longer[0] == a && longer[|longer| - 1] == c;
    assert IsChain(p, behind, longer);
  }

  /** A chain starts with a dependency, which it ends at or looks behind. */
  lemma FirstLink(p: Project, behind: Kind -> bool, a: string, c: string) returns (b: string)
    requires Closed(p) && a in p && Leads(p, behind, a, c)
    ensures b in p[a].deps && (b == c || (behind(p[b].kind) && Leads(p, behind, b, c)))
  {
    var chain :| IsChain(p, behind, chain) && chain[0] == a && chain[|chain| - 1] == c;
    b := chain[1];
    if |chain| > 2 {
      assert IsChain(p, behind, chain[1..]);
      assert chain[1..][0] == b && chain[1..][|chain| - 2] == c;
    }
  }

  ghost predicate AllTargets(p: Project, deps: seq<string>) {
    forall i :: 0 <= i < |deps| ==> deps[i] in p
  }

  lemma DepsAreTargets(p: Project, name: string)
    requires Closed(p) && name in p
    ensures AllTargets(p, p[name].deps)
  {
  }

  /** What a target collects is what its first `n` dependencies contribute. */
  ghost predicate Gathered(p: Project, behind: Kind -> bool, deps: seq<string>, n: nat, found: set<string>)
    requires n <= |deps| && AllTargets(p, deps)
  {
    forall d :: d in found <==> exists i :: 0 <= i < n && d in Contribution(p, behind, deps[i])
  }

  lemma GatherOne(p: Project, behind: Kind -> bool, deps: seq<string>, n: nat, found: set<string>)
    requires n < |deps| && AllTargets(p, deps) && Gathered(p, behind, deps, n, found)
    ensures Gathered(p, behind, deps, n + 1, found + Contribution(p, behind, deps[n]))
  {
  }

  lemma AllGathered(p: Project, behind: Kind -> bool, name: string, found: set<string>)
    requires Closed(p) && name in p && AllTargets(p, p[name].deps)
    requires Gathered(p, behind, p[name].deps, |p[name].deps|, found)
    ensures found == Collected(p, behind, name)
  {
    var deps := p[name].deps;
    forall d | d in Collected(p, behind, name)
      ensures d in found
    {
      var b := FirstLink(p, behind, name, d);
      var i :| 0 <= i < |deps| && deps[i] == b;
      assert d in Contribution(p, behind, deps[i]);
    }
    forall d | d in found
      ensures d in Collected(p, behind, name)
    {
      var i :| 0 <= i < |deps| && d in Contribution(p, behind, deps[i]);
      assert deps[i] in deps;
      LeadsDirectly(p, behind, name, deps[i]);
      if behind(p[deps[i]].kind) && d in Collected(p, behind, deps[i]) {
        LeadsOn(p, behind, name, deps[i], d);
      }
    }
  }

  /** A way of dependencies from one target to another, whose targets in between are of none of the kinds given,
      or, if `only`, all of them. */
  ghost predicate IsPath(p: Project, path: seq<string>, from: string, to: string, kinds: set<Kind>, only: bool) {
    |path| >= 2 && path[0] == from && path[|path| - 1] == to &&
    (forall i :: 0 <= i < |path| ==> path[i] in p) &&
    (forall i :: 0 <= i < |path| - 1 ==> path[i + 1] in p[path[i]].deps) &&
    forall i :: 0 < i < |path| - 1 ==> (p[path[i]].kind in kinds <==> only)
  }

  /** The sources collected: the source sets at the end of a way past no executable, module or library. */
  lemma SourcesExactly(p: Project, name: string, d: string)
    ensures d in Collected(p, BehindForSources, name) <==>
            d in p && p[d].kind == SourceSet &&
            exists path :: IsPath(p, path, name, d, {Executable, LoadableModule, SharedLibrary, StaticLibrary}, false)
  {
    if chain :| IsChain(p, BehindForSources, chain) && chain[0] == name && chain[|chain| - 1] == d {
      assert IsPath(p, chain, name, d, {Executable, LoadableModule, SharedLibrary, StaticLibrary}, false);
    }
    if path :| IsPath(p, path, name, d, {Executable, LoadableModule, SharedLibrary, StaticLibrary}, false) {
      assert IsChain(p, BehindForSources, path);
    }
  }

  /** The libraries collected: the source sets at the end of a way past source sets only. */
  lemma LibrariesExactly(p: Project, name: string, d: string)
    ensures d in Collected(p, BehindForLibraries, name) <==>
            d in p && p[d].kind == SourceSet && exists path :: IsPath(p, path, name, d, {SourceSet}, true)
  {
    if chain :| IsChain(p, BehindForLibraries, chain) && chain[0] == name && chain[|chain| - 1] == d {
      assert IsPath(p, chain, name, d, {SourceSet}, true);
    }
    if path :| IsPath(p, path, name, d, {SourceSet}, true) {
      assert IsChain(p, BehindForLibraries, path);
    }
  }

  // ----- The recursion -----

  /** The callers `above` all lead to `name`; that is why the recursion never comes back to one. */
  ghost predicate OnStack(p: Project, behind: Kind -> bool, above: set<string>, name: string) {
    above <= p.Keys && name in p && name !in above &&
    (above != {} ==> behind(p[name].kind)) &&
    forall a :: a in above ==> Leads(p, behind, a, name)
  }

  lemma Deeper(p: Project, behind: Kind -> bool, above: set<string>, name: string, dep: string)
    requires Sound(p, behind) && OnStack(p, behind, above, name)
    requires dep in p[name].deps && behind(p[dep].kind)
    ensures OnStack(p, behind, above + {name}, dep)
  {
    LeadsDirectly(p, behind, name, dep);
    forall a | a in above
      ensures Leads(p, behind, a, dep)
    {
      LeadsFurther(p, behind, a, name, dep);
    }
  }

  /** All dependencies are targets, and there is no cycle among those looked behind. */
  ghost predicate Sound(p: Project, behind: Kind -> bool) {
    Closed(p) && Acyclic(p, behind)
  }

  class DependencySet {
    var items: set<string>

    constructor ()
      ensures items == {}
    {
      items := {};
    }
  }

  /** The set has grown by what one more dependency contributes. */
  lemma GrownByOne(p: Project, behind: Kind -> bool, deps: seq<string>, n: nat, start: set<string>, mine: set<string>,
                   direct: set<string>, behindIt: set<string>)
    requires n < |deps| && AllTargets(p, deps) && Gathered(p, behind, deps, n, mine)
    requires direct == if p[deps[n]].kind == SourceSet then {deps[n]} else {}
    requires behindIt == if behind(p[deps[n]].kind) then Collected(p, behind, deps[n]) else {}
    ensures Gathered(p, behind, deps, n + 1, mine + (direct + behindIt))
    ensures start + mine + direct + behindIt == start + (mine + (direct + behindIt))
  {
    GatherOne(p, behind, deps, n, mine);
  }

  /** Adds exactly the source sets reached through targets that do not absorb objects. */
  method GetObjectSourceDependencies(p: Project, name: string, found: DependencySet, ghost above: set<string>)
    requires Sound(p, BehindForSources) && OnStack(p, BehindForSources, above, name)
    modifies found
    ensures found.items == old(found.items) + Collected(p, BehindForSources, name)
    decreases p.Keys - above
  {
    var deps := p[name].deps;
    DepsAreTargets(p, name);
    ghost var mine: set<string> := {};
    for n := 0 to |deps|
      invariant Gathered(p, BehindForSources, deps, n, mine)
      invariant found.items == old(found.items) + mine
    {
      var dep := deps[n];
      var kind := p[dep].kind;
      ghost var direct, behindIt: set<string> := {}, {};
      if kind == SourceSet {
        direct := {dep};
        found.items := found.items + {dep};
      }
      if !Absorbs(kind) {
        Deeper(p, BehindForSources, above, name, dep);
        behindIt := Collected(p, BehindForSources, dep);
        GetObjectSourceDependencies(p, dep, found, above + {name});
      }
      GrownByOne(p, BehindForSources, deps, n, old(found.items), mine, direct, behindIt);
      mine := mine + (direct + behindIt);
    }
    AllGathered(p, BehindForSources, name, mine);
  }

  /** Adds exactly the source sets reached through source sets. */
  method GetObjectLibraryDependencies(p: Project, name: string, found: DependencySet, ghost above: set<string>)
    requires Sound(p, BehindForLibraries) && OnStack(p, BehindForLibraries, above, name)
    modifies found
    ensures found.items == old(found.items) + Collected(p, BehindForLibraries, name)
    decreases p.Keys - above
  {
    var deps := p[name].deps;
    DepsAreTargets(p, name);
    ghost var mine: set<string> := {};
    for n := 0 to |deps|
      invariant Gathered(p, BehindForLibraries, deps, n, mine)
      invariant found.items == old(found.items) + mine
    {
      var dep := deps[n];
      var kind := p[dep].kind;
      ghost var direct, behindIt: set<string> := {}, {};
      if kind == SourceSet {
        direct := {dep};
        found.items := found.items + {dep};
        Deeper(p, BehindForLibraries, above, name, dep);
        behindIt := Collected(p, BehindForLibraries, dep);
        GetObjectLibraryDependencies(p, dep, found, above + {name});
      }
      GrownByOne(p, BehindForLibraries, deps, n, old(found.items), mine, direct, behindIt);
      mine := mine + (direct + behindIt);
    }
    AllGathered(p, BehindForLibraries, name, mine);
  }

  /** Whatever libraries are collected, their sources are: source sets do not absorb objects. */
  lemma LibrariesAreAmongSources(p: Project, name: string)
    ensures Collected(p, BehindForLibraries, name) <= Collected(p, BehindForSources, name)
  {
    forall d | d in Collected(p, BehindForLibraries, name)
      ensures d in Collected(p, BehindForSources, name)
    {
      var chain :| IsChain(p, BehindForLibraries, chain) && chain[0] == name && chain[|chain| - 1] == d;
      assert IsChain(p, BehindForSources, chain);
    }
  }
}
