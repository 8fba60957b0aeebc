/**
 The three-colour depth-first search of the architecture check, over the deployable
 (normal and build) dependency edges of a package graph.
 */
module DependencyCycles {

  type Package = string

  datatype Kind = Normal | Development | Build

  datatype Dependency = Dependency(package: Package, kind: Kind)

  /** Packages with their dependency lists. Targets need not be packages of the graph. */
  type Graph = map<Package, seq<Dependency>>

  predicate Deployable(d: Dependency) {
    d.kind.Normal? || d.kind.Build?
  }

  predicate Edge(g: Graph, from: Package, to: Package) {
    from in g && (Dependency(to, Normal) in g[from] || Dependency(to, Build) in g[from])
  }

  // ---------- Walks, cycles and rankings ----------

  predicate Walk(g: Graph, path: seq<Package>) {
    path != [] && forall i :: 0 <= i < |path| - 1 ==> Edge(g, path[i], path[i + 1])
  }

  predicate NoDuplicates<T(==)>(s: seq<T>) {
    forall i, j :: 0 <= i < j < |s| ==> s[i] != s[j]
  }

  /** A walk that returns to its start. */
  predicate ClosedWalk(g: Graph, path: seq<Package>) {
    |path| >= 2 && Walk(g, path) && path[0] == path[|path| - 1]
  }

  /** A closed walk that meets no package twice, except its start. */
  predicate SimpleCycle(g: Graph, path: seq<Package>) {
    ClosedWalk(g, path) && NoDuplicates(path[..|path| - 1])
  }

  /** The edge a recorded cycle was found by: from its last package back to its start. */
  function ClosingEdge(cycle: seq<Package>): (Package, Package)
    requires |cycle| >= 2
  {
    (cycle[|cycle| - 2], cycle[|cycle| - 1])
  }

  ghost predicate ClosesCycle(cycles: set<seq<Package>>, from: Package, to: Package) {
    exists cycle :: cycle in cycles && |cycle| >= 2 && ClosingEdge(cycle) == (from, to)
  }

  // ---------- The search state ----------

  datatype Colour = White | Grey | Black

  function ColourIn(states: map<Package, Colour>, package: Package): Colour {
    if package in states then states[package] else White
  }

  /** Every package the search can meet, dangling targets included. */
  ghost function Universe(g: Graph): set<Package> {
    g.Keys + set p, d | p in g && d in g[p] :: d.package
  }

  ghost function Unmet(g: Graph, states: map<Package, Colour>): set<Package> {
    set p | p in Universe(g) && ColourIn(states, p).White?
  }

  /** Every edge of the package leads to a package left earlier or closed a recorded cycle. */
  ghost predicate Settled(g: Graph, cycles: set<seq<Package>>, package: Package, before: seq<Package>) {
    forall to :: Edge(g, package, to) ==> to in before || ClosesCycle(cycles, package, to)
  }

  /** The grey packages are exactly the stack, which is a walk; the black ones are the finished ones. */
  ghost predicate Coloured(g: Graph, states: map<Package, Colour>, stack: seq<Package>, finished: seq<Package>) {
    && NoDuplicates(stack) && NoDuplicates(finished)
    && (forall p :: ColourIn(states, p).Grey? <==> p in stack)
    && (forall p :: ColourIn(states, p).Black? <==> p in finished)
    && states.Keys <= Universe(g)
    && (stack != [] ==> Walk(g, stack))
  }

  /** What the search keeps of its results: recorded cycles are real, finished packages are settled. */
  ghost predicate Recorded(g: Graph, cycles: set<seq<Package>>, finished: seq<Package>) {
    && (forall c :: c in cycles ==> SimpleCycle(g, c))
    && (forall i :: 0 <= i < |finished| ==> Settled(g, cycles, finished[i], finished[..i]))
  }

  lemma EnterKeepsColours(g: Graph, states: map<Package, Colour>, stack: seq<Package>, finished: seq<Package>,
                          package: Package)
    requires Coloured(g, states, stack, finished) && package in Universe(g) && ColourIn(states, package).White?
    requires stack != [] ==> Edge(g, stack[|stack| - 1], package)
    ensures Coloured(g, states[package := Grey], stack + [package], finished)
    ensures Unmet(g, states[package := Grey]) < Unmet(g, states)
  {
    var states', stack' := states[package := Grey], stack + [package];
    forall p
      ensures ColourIn(states', p).Grey? <==> p in stack'
      ensures ColourIn(states', p).Black? <==> p in finished
    {
      assert p in stack' <==> p in stack || p == package;
      assert ColourIn(states, p).Grey? <==> p in stack;
    }
    assert package in Unmet(g, states) && package !in Unmet(g, states');
  }

  lemma LeaveKeepsColours(g: Graph, states: map<Package, Colour>, stack: seq<Package>, finished: seq<Package>,
                          package: Package)
    requires Coloured(g, states, stack + [package], finished)
    ensures Coloured(g, states[package := Black], stack, finished + [package])
    ensures Unmet(g, states[package := Black]) <= Unmet(g, states)
  {
    var states', finished' := states[package := Black], finished + [package];
    var full := stack + [package];
    assert full[|stack|] == package;
    forall i, j | 0 <= i < j < |stack| ensures stack[i] != stack[j] {
      assert full[i] != full[j];
    }
    assert package !in stack by {
      forall i | 0 <= i < |stack| ensures stack[i] != package {
        assert full[i] != full[|stack|];
      }
    }
    forall p
      ensures ColourIn(states', p).Grey? <==> p in stack
      ensures ColourIn(states', p).Black? <==> p in finished'
    {
      assert p in full <==> p in stack || p == package;
      assert p in finished' <==> p in finished || p == package;
      assert ColourIn(states, p).Grey? <==> p in full;
    }
    assert ColourIn(states, package).Grey? && package in states;
    assert package !in finished;
    if stack != [] {
      forall i | 0 <= i < |stack| - 1 ensures Edge(g, stack[i], stack[i + 1]) {
        assert Edge(g, full[i], full[i + 1]);
      }
    }
  }

  lemma MoreCyclesKeepRecords(g: Graph, cycles: set<seq<Package>>, finished: seq<Package>, cycle: seq<Package>)
    requires Recorded(g, cycles, finished) && SimpleCycle(g, cycle)
    ensures Recorded(g, cycles + {cycle}, finished)
  {
    MoreCloses(cycles, cycles + {cycle});
  }

  lemma LeaveKeepsRecords(g: Graph, cycles: set<seq<Package>>, finished: seq<Package>, package: Package)
    requires Recorded(g, cycles, finished) && Settled(g, cycles, package, finished)
    ensures Recorded(g, cycles, finished + [package])
  {
    var finished' := finished + [package];
    forall i | 0 <= i < |finished'|
      ensures Settled(g, cycles, finished'[i], finished'[..i])
    {
      if i < |finished| {
        assert finished'[..i] == finished[..i];
      } else {
        assert finished'[..i] == finished;
      }
    }
  }

  /** The stack from the target on, closed by the target, is a simple cycle. */
  lemma StackClosesCycle(g: Graph, stack: seq<Package>, start: nat)
    requires start < |stack| && Walk(g, stack) && NoDuplicates(stack) && Edge(g, stack[|stack| - 1], stack[start])
    ensures SimpleCycle(g, stack[start..] + [stack[start]])
  {
    var cycle := stack[start..] + [stack[start]];
    forall i | 0 <= i < |cycle| - 1
      ensures Edge(g, cycle[i], cycle[i + 1])
    {
      assert cycle[i] == stack[start + i];
      if i < |cycle| - 2 {
        assert cycle[i + 1] == stack[start + i + 1];
      }
    }
    assert cycle[..|cycle| - 1] == stack[start..];
  }

  lemma TargetIsKnown(g: Graph, from: Package, to: Package)
    requires Edge(g, from, to)
    ensures to in Universe(g)
  {
    var d :| d in g[from] && d.package == to;
  }

  lemma BlackIsFinished(g: Graph, states: map<Package, Colour>, stack: seq<Package>, finished: seq<Package>,
                        package: Package)
    requires Coloured(g, states, stack, finished)
    ensures ColourIn(states, package).Black? <==> package in finished
    ensures ColourIn(states, package).Grey? <==> package in stack
  {
  }

  lemma FinishedOnce(g: Graph, states: map<Package, Colour>, stack: seq<Package>, finished: seq<Package>)
    requires Coloured(g, states, stack, finished)
    ensures NoDuplicates(finished)
  {
  }

  lemma RecordedCyclesAreReal(g: Graph, cycles: set<seq<Package>>, finished: seq<Package>)
    requires Recorded(g, cycles, finished)
    ensures forall c :: c in cycles ==> SimpleCycle(g, c)
  {
  }

  lemma MoreCloses(cycles: set<seq<Package>>, more: set<seq<Package>>)
    requires cycles <= more
    ensures forall from, to :: ClosesCycle(cycles, from, to) ==> ClosesCycle(more, from, to)
  {
    forall from, to | ClosesCycle(cycles, from, to)
      ensures ClosesCycle(more, from, to)
    {
      var c :| c in cycles && |c| >= 2 && ClosingEdge(c) == (from, to);
      assert c in more;
    }
  }

  // ---------- The search ----------

  class CycleFinder {
    const graph: Graph
    var states: map<Package, Colour>
    var stack: seq<Package>
    var cycles: set<seq<Package>>
    /** The packages in the order the search left them. */
    ghost var finished: seq<Package>

    constructor (graph: Graph)
      ensures this.graph == graph
      ensures Valid() && states == map[] && stack == [] && cycles == {} && finished == []
    {
      this.graph := graph;
      states := map[];
      stack := [];
      cycles := {};
      finished := [];
    }

    ghost predicate Valid()
      reads this
    {
      Coloured(graph, states, stack, finished) && Recorded(graph, cycles, finished)
    }

    /** The deployable edges among the first n dependencies are settled. */
    ghost predicate SettledUpTo(dependencies: seq<Dependency>, package: Package, n: nat)
      reads this
      requires n <= |dependencies|
    {
      forall i :: 0 <= i < n && Deployable(dependencies[i]) ==>
        dependencies[i].package in finished || ClosesCycle(cycles, package, dependencies[i].package)
    }

    /** find_deployable_cycles. */
    method Visit(package: Package)
      requires Valid() && package in Universe(graph) && ColourIn(states, package).White?
      requires stack != [] ==> Edge(graph, stack[|stack| - 1], package)
      modifies this
      ensures Valid()
      ensures stack == old(stack)
      ensures old(cycles) <= cycles && old(finished) <= finished && package in finished
      ensures Unmet(graph, states) <= old(Unmet(graph, states))
      decreases Unmet(graph, states)
    {
      hide Coloured, Recorded, Universe, Unmet, ClosesCycle;
      EnterKeepsColours(graph, states, stack, finished, package);
      states := states[package := Grey];
      stack := stack + [package];
      if package in graph {
        var dependencies := graph[package];
        for i := 0 to |dependencies|
          invariant Valid() && stack == old(stack) + [package]
          invariant old(cycles) <= cycles && old(finished) <= finished
          invariant SettledUpTo(dependencies, package, i)
          invariant Unmet(graph, states) < old(Unmet(graph, states))
        {
          var d := dependencies[i];
          label before:
          if Deployable(d) {
            assert Edge(graph, package, d.package);
            var colour := ColourIn(states, d.package);
            TargetIsKnown(graph, package, d.package);
            if colour.White? {
              Visit(d.package);
            } else if colour.Grey? {
              RecordCycle(d.package);
            } else {
              BlackIsFinished(graph, states, stack, finished, d.package);
            }
            MoreCloses(old@before(cycles), cycles);
          }
        }
      }
      LeaveKeepsColours(graph, states, old(stack), finished, package);
      assert Settled(graph, cycles, package, finished);
      LeaveKeepsRecords(graph, cycles, finished, package);
      stack := stack[..|stack| - 1];
      states := states[package := Black];
      finished := finished + [package];
    }

    /** The grey branch: the target is on the stack, and the stack from there on is a cycle. */
    method RecordCycle(target: Package)
      requires Valid() && ColourIn(states, target).Grey? && stack != [] && Edge(graph, stack[|stack| - 1], target)
      modifies this`cycles
      ensures Valid()
      ensures old(cycles) <= cycles
      ensures ClosesCycle(cycles, stack[|stack| - 1], target)
    {
      hide Recorded;
      var start := Position(target);
      var cycle := stack[start..] + [target];
      StackClosesCycle(graph, stack, start);
      MoreCyclesKeepRecords(graph, cycles, finished, cycle);
      cycles := cycles + {cycle};
      assert ClosingEdge(cycle) == (stack[|stack| - 1], target);
    }

    /** Iterator::position on the stack. */
    method Position(target: Package) returns (start: nat)
      requires target in stack
      ensures start < |stack| && stack[start] == target
    {
      start := 0;
      while stack[start] != target
        invariant start < |stack| && target !in stack[..start]
        decreases |stack| - start
      {
        start := start + 1;
      }
    }
  }

  // ---------- The whole check ----------

  /** An order in which every deployable dependency of a package comes before the package. */
  ghost predicate DependencyOrder(g: Graph, order: seq<Package>) {
    && NoDuplicates(order)
    && g.Keys <= set p | p in order
    && forall i, to :: 0 <= i < |order| && Edge(g, order[i], to) ==> to in order[..i]
  }

  ghost predicate Acyclic(g: Graph) {
    forall path :: !ClosedWalk(g, path)
  }

  function Index(s: seq<Package>, p: Package): (i: nat)
    requires p in s
    ensures i < |s| && s[i] == p
  {
    if s[0] == p then 0 else 1 + Index(s[1..], p)
  }

  lemma IndexUnique(s: seq<Package>, i: nat)
    requires NoDuplicates(s) && i < |s|
    ensures Index(s, s[i]) == i
  {
  }

  /** Along a walk whose edges close no recorded cycle, packages appear ever earlier in the leaving order. */
  lemma {:induction false} WalkDescends(g: Graph, cycles: set<seq<Package>>, finished: seq<Package>, path: seq<Package>,
                                        n: nat)
    requires Recorded(g, cycles, finished) && NoDuplicates(finished) && g.Keys <= set p | p in finished
    requires n < |path| && Walk(g, path) && path[0] in finished
    requires forall i :: 0 <= i < |path| - 1 ==> !ClosesCycle(cycles, path[i], path[i + 1])
    ensures path[n] in finished
    ensures Index(finished, path[n]) <= Index(finished, path[0]) - n
  {
    hide ClosesCycle;
    if n > 0 {
      WalkDescends(g, cycles, finished, path, n - 1);
      var at := Index(finished, path[n - 1]);
      assert Edge(g, path[n - 1], path[n]);
      assert Settled(g, cycles, finished[at], finished[..at]);
      var k :| 0 <= k < at && finished[..at][k] == path[n];
      IndexUnique(finished, k);
    }
  }

  /** Every closed walk of the graph runs through the edge that closed some recorded cycle. */
  lemma ClosedWalkIsRecorded(g: Graph, cycles: set<seq<Package>>, finished: seq<Package>, path: seq<Package>)
    requires Recorded(g, cycles, finished) && NoDuplicates(finished) && g.Keys <= set p | p in finished
    requires ClosedWalk(g, path)
    ensures exists i :: 0 <= i < |path| - 1 && ClosesCycle(cycles, path[i], path[i + 1])
  {
    hide ClosesCycle, Recorded;
    if forall i :: 0 <= i < |path| - 1 ==> !ClosesCycle(cycles, path[i], path[i + 1]) {
      assert Edge(g, path[0], path[1]);
      WalkDescends(g, cycles, finished, path, |path| - 1);
    }
  }

  /** Each closed walk passes an edge that closes one of the cycles. */
  ghost predicate CutsAllCycles(g: Graph, cycles: set<seq<Package>>) {
    forall path :: ClosedWalk(g, path) ==> exists i :: 0 <= i < |path| - 1 && ClosesCycle(cycles, path[i], path[i + 1])
  }

  /** validate_deployable_cycles: the cycles found, from any order of the graph's packages. */
  method FindCycles(g: Graph) returns (cycles: set<seq<Package>>, ghost order: seq<Package>)
    ensures forall c :: c in cycles ==> SimpleCycle(g, c)
    ensures CutsAllCycles(g, cycles)
    ensures cycles == {} <==> Acyclic(g)
    ensures cycles == {} ==> DependencyOrder(g, order)
  {
    hide Coloured, Recorded, ClosesCycle;
    var finder := new CycleFinder(g);
    var todo := g.Keys;
    while todo != {}
      invariant finder.Valid() && finder.stack == [] && finder.graph == g
      invariant g.Keys <= todo + set p | p in finder.finished
      decreases todo
    {
      var package :| package in todo;
      todo := todo - {package};
      BlackIsFinished(g, finder.states, finder.stack, finder.finished, package);
      if ColourIn(finder.states, package).White? {
        finder.Visit(package);
      }
    }
    cycles := finder.cycles;
    order := finder.finished;
    FinishedOnce(g, finder.states, finder.stack, order);
    RecordedCyclesAreReal(g, cycles, order);
    forall path | ClosedWalk(g, path)
      ensures exists i :: 0 <= i < |path| - 1 && ClosesCycle(cycles, path[i], path[i + 1])
    {
      ClosedWalkIsRecorded(g, cycles, order, path);
    }
    if cycles != {} {
      var c :| c in cycles;
      assert ClosedWalk(g, c);
    } else {
      NoCyclesOrder(g, order);
      OrderedIsAcyclic(g, order);
    }
  }

  lemma NoCyclesOrder(g: Graph, finished: seq<Package>)
    requires Recorded(g, {}, finished) && NoDuplicates(finished) && g.Keys <= set p | p in finished
    ensures DependencyOrder(g, finished)
  {
    forall i, to | 0 <= i < |finished| && Edge(g, finished[i], to)
      ensures to in finished[..i]
    {
      assert Settled(g, {}, finished[i], finished[..i]);
    }
  }

  /** A dependency order rules out every cycle, so the two sides of the check agree. */
  lemma OrderedIsAcyclic(g: Graph, order: seq<Package>)
    requires DependencyOrder(g, order)
    ensures Acyclic(g)
  {
    assert Recorded(g, {}, order);
    forall path | ClosedWalk(g, path)
      ensures false
    {
      ClosedWalkIsRecorded(g, {}, order, path);
    }
  }
}
