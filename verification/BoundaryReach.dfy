/**
 What the boundary rules mean along chains of dependencies. The check forbids a Core-facing package to depend
 on an adapter package; it looks at single dependencies, and neutral packages stand between.
 */
module BoundaryReach {
  import opened DependencyCycles
  import opened Architecture

  predicate CoreSide(owner: Owner, p: Package) {
    p in owner && (owner[p].boundary.CoreBoundary? || owner[p].boundary.CoreFacing?)
  }

  predicate AdapterSide(owner: Owner, p: Package) {
    p in owner && owner[p].boundary.AdapterBoundary?
  }

  predicate NeutralSide(owner: Owner, p: Package) {
    p in owner && owner[p].boundary.Neutral?
  }

  /** The report is empty. */
  ghost predicate Clean(owner: Owner, graph: Graph) {
    IsReport(owner, graph, {})
  }

  /** Deployable dependencies lead from a Core-facing package to an adapter package. */
  ghost predicate Leaks(owner: Owner, graph: Graph) {
    exists path :: LeakPath(owner, graph, path)
  }

  ghost predicate LeakPath(owner: Owner, graph: Graph, path: seq<Package>) {
    Walk(graph, path) && CoreSide(owner, path[0]) && AdapterSide(owner, path[|path| - 1])
  }

  /** A leak through neutral packages, of which there is at least one. */
  ghost predicate NeutralLeak(owner: Owner, graph: Graph, path: seq<Package>) {
    LeakPath(owner, graph, path) && |path| >= 3 && forall i :: 0 < i < |path| - 1 ==> NeutralSide(owner, path[i])
  }

  lemma CleanEdges(owner: Owner, graph: Graph, from: Package, to: Package)
    requires Clean(owner, graph) && Edge(graph, from, to)
    ensures from in owner && to in owner && !(CoreSide(owner, from) && AdapterSide(owner, to))
    ensures Edge(DeclaredGraph(owner), from, to)
  {
    hide CutsAllCycles, SimpleCycle, RequiredBoundary, ReportsFields;
    CleanReportIsAcyclic(owner, graph);
    var none: set<Issue> := {};
    var d := Dependency(to, if Dependency(to, Normal) in graph[from] then Normal else Build);
    assert Depends(graph, from, d) && Declares(owner, from, d);
    assert Actual(from, d, UnknownTarget) !in none;
    assert Actual(from, d, Breaks(CoreAdapter)) !in none;
  }

  /** Every leak of a clean graph contains one that passes only neutral packages, and passes at least one. */
  lemma {:induction false} LeakPassesNeutral(owner: Owner, graph: Graph, path: seq<Package>)
    returns (short: seq<Package>)
    requires Clean(owner, graph) && LeakPath(owner, graph, path)
    ensures NeutralLeak(owner, graph, short)
    decreases |path|
  {
    hide Clean;
    if k :| 0 < k < |path| - 1 && CoreSide(owner, path[k]) {
      short := LeakPassesNeutral(owner, graph, path[k..]);
    } else if k :| 0 < k < |path| - 1 && AdapterSide(owner, path[k]) {
      short := LeakPassesNeutral(owner, graph, path[..k + 1]);
    } else {
      assert |path| >= 2;
      CleanEdges(owner, graph, path[0], path[1]);
      forall i | 0 < i < |path| - 1 ensures NeutralSide(owner, path[i]) {
        CleanEdges(owner, graph, path[i], path[i + 1]);
      }
      short := path;
    }
  }

  /** A clean graph leaks exactly through its neutral packages. */
  lemma LeaksThroughNeutralExactly(owner: Owner, graph: Graph)
    requires Clean(owner, graph)
    ensures Leaks(owner, graph) <==> exists path :: NeutralLeak(owner, graph, path)
  {
    hide Clean;
    if Leaks(owner, graph) {
      var path :| LeakPath(owner, graph, path);
      var short := LeakPassesNeutral(owner, graph, path);
    }
  }

  /** What the owner allows is itself a graph with a clean report, when the owner has no issue of its own. */
  lemma DeclaredIsClean(owner: Owner)
    requires ReportsFields(owner, owner.Keys, {}) && Acyclic(DeclaredGraph(owner))
    requires forall source, d :: Declares(owner, source, d) ==> DirectionProblems(owner, source, d) == {}
    ensures Clean(owner, DeclaredGraph(owner))
  {
    hide SimpleCycle, ReportsFields, OwnerCycles, ActualCycles, DirectionProblems, ActualProblems;
    var declared := DeclaredGraph(owner);
    forall source, d | Depends(declared, source, d) ensures ActualProblems(owner, source, d) == {} {
      assert Declares(owner, source, d);
      NoProblems(owner, source, d);
    }
    NoCycles();
  }

  lemma CleanOwner(owner: Owner, graph: Graph)
    requires Clean(owner, graph)
    ensures Clean(owner, DeclaredGraph(owner))
  {
    hide SimpleCycle, ReportsFields, DirectionProblems, DeclaredGraph;
    var none: set<Issue> := {};
    CleanReportIsAcyclic(owner, graph);
    forall source, d | Declares(owner, source, d) ensures DirectionProblems(owner, source, d) == {} {
      assert forall problem :: Direction(source, d, problem) !in none;
    }
    DeclaredIsClean(owner);
  }

  lemma NoCycles()
    ensures OwnerCycles({}) == {} && ActualCycles({}) == {}
  {
  }

  lemma NoProblems(owner: Owner, source: Package, d: Dependency)
    requires Declares(owner, source, d) && DirectionProblems(owner, source, d) == {}
    ensures ActualProblems(owner, source, d) == {}
  {
    hide BrokenRules;
    assert UnknownTarget !in DirectionProblems(owner, source, d);
    assert forall rule :: d.package in owner && rule in BrokenRules(owner[source], owner[d.package], d.kind) ==>
      Breaks(rule) in DirectionProblems(owner, source, d);
  }

  /** The owner alone decides: no clean graph leaks exactly when the directions it declares do not. */
  lemma OwnerDecidesLeaks(owner: Owner, graph: Graph)
    requires Clean(owner, graph)
    ensures (forall g :: Clean(owner, g) ==> !Leaks(owner, g)) <==> !Leaks(owner, DeclaredGraph(owner))
  {
    hide Clean, DeclaredGraph;
    CleanOwner(owner, graph);
    if g :| Clean(owner, g) && Leaks(owner, g) {
      var path :| LeakPath(owner, g, path);
      forall i | 0 <= i < |path| - 1 ensures Edge(DeclaredGraph(owner), path[i], path[i + 1]) {
        CleanEdges(owner, g, path[i], path[i + 1]);
      }
      assert LeakPath(owner, DeclaredGraph(owner), path);
    }
  }

  // A clean report with a leak.

  function Chained(group: string, kind: PackageKind, boundary: Boundary, normal: seq<Package>): Declaration {
    Declaration(group, kind, true, boundary, "d", "d", normal, [], [])
  }

  /** A Core-facing package that needs a neutral one, which needs an adapter. */
  function ChainOwner(): Owner {
    map["a" := Chained("a", Application, CoreFacing, ["b"]),
        "b" := Chained("b", Infrastructure, Neutral, ["c"]),
        "c" := Chained("c", PackageKind.Adapter, AdapterBoundary, [])]
  }

  lemma ChainedFields(group: string, kind: PackageKind, boundary: Boundary, normal: seq<Package>)
    requires |group| == 1 && 'a' <= group[0] <= 'z' && !kind.TestSupport? && !kind.Validation? && !kind.Presentation?
    requires !boundary.CoreBoundary? && (boundary.AdapterBoundary? <==> kind.Adapter?)
    ensures FieldProblems(Chained(group, kind, boundary, normal)) == {}
  {
    assert !Blank(group) && !Blank("d") by {
      assert "d"[0] == 'd';
    }
  }

  lemma ChainFields()
    ensures ReportsFields(ChainOwner(), ChainOwner().Keys, {})
  {
    hide FieldProblems;
    ChainedFields("a", Application, CoreFacing, ["b"]);
    ChainedFields("b", Infrastructure, Neutral, ["c"]);
    ChainedFields("c", PackageKind.Adapter, AdapterBoundary, []);
    assert "a"[0] != "b"[0] && "b"[0] != "c"[0] && "a"[0] != "c"[0];
  }

  lemma ChainDirections(source: Package, d: Dependency)
    requires Declares(ChainOwner(), source, d)
    ensures DirectionProblems(ChainOwner(), source, d) == {}
    ensures (source == "a" && d == Dependency("b", Normal)) || (source == "b" && d == Dependency("c", Normal))
  {
    var owner := ChainOwner();
    assert BrokenRules(owner["a"], owner["b"], Normal) == {};
    assert BrokenRules(owner["b"], owner["c"], Normal) == {};
  }

  lemma ChainEdge(from: Package, to: Package)
    requires Edge(DeclaredGraph(ChainOwner()), from, to)
    ensures (from == "a" && to == "b") || (from == "b" && to == "c")
  {
    hide ChainOwner, DirectionProblems;
    var d := Dependency(to, if Dependency(to, Normal) in DeclaredGraph(ChainOwner())[from] then Normal else Build);
    assert Declares(ChainOwner(), from, d);
    ChainDirections(from, d);
  }

  lemma ChainOrder()
    ensures DependencyOrder(DeclaredGraph(ChainOwner()), ["c", "b", "a"])
  {
    hide Tag;
    var order := ["c", "b", "a"];
    assert "a"[0] != "b"[0] && "b"[0] != "c"[0] && "a"[0] != "c"[0];
    forall i, to | 0 <= i < |order| && Edge(DeclaredGraph(ChainOwner()), order[i], to) ensures to in order[..i] {
      ChainEdge(order[i], to);
      assert order[..1] == ["c"] && order[..2] == ["c", "b"];
    }
  }

  lemma ChainEdges()
    ensures Edge(DeclaredGraph(ChainOwner()), "a", "b") && Edge(DeclaredGraph(ChainOwner()), "b", "c")
  {
    var owner := ChainOwner();
    assert Dependency("b", Normal) in Tag(owner["a"].normal, Normal);
    assert Dependency("c", Normal) in Tag(owner["b"].normal, Normal);
  }

  lemma ChainPath()
    ensures NeutralLeak(ChainOwner(), DeclaredGraph(ChainOwner()), ["a", "b", "c"])
  {
    hide DeclaredGraph, Edge;
    ChainEdges();
  }

  /** Nothing is reported, and the Core-facing package still ships with the adapter. */
  lemma CleanChainLeaks()
    ensures var owner := ChainOwner();
      Clean(owner, DeclaredGraph(owner)) && NeutralLeak(owner, DeclaredGraph(owner), ["a", "b", "c"])
  {
    hide ChainOwner, DirectionProblems, ReportsFields, DeclaredGraph, Clean, NeutralLeak, DependencyOrder, Acyclic;
    hide Allowed;
    var owner := ChainOwner();
    ChainFields();
    forall source, d | Declares(owner, source, d) ensures DirectionProblems(owner, source, d) == {} {
      ChainDirections(source, d);
    }
    ChainOrder();
    OrderedIsAcyclic(DeclaredGraph(owner), ["c", "b", "a"]);
    DeclaredIsClean(owner);
    ChainPath();
  }
}
