/**
 The layered dependency check: declared directions (the owner) against the workspace graph.
 Issues are data; their texts and paths are not modelled.
 */
module Architecture {
  import opened Wrappers
  import opened DependencyCycles

  datatype PackageKind = Adapter | Application | Infrastructure | Presentation | Schema | TestSupport | Validation

  datatype Boundary = CoreBoundary | CoreFacing | AdapterBoundary | Neutral

  datatype Declaration = Declaration(
    group: string, kind: PackageKind, production: bool, boundary: Boundary, english: string, korean: string,
    normal: seq<Package>, development: seq<Package>, build: seq<Package>)

  type Owner = map<Package, Declaration>

  /** A rule one dependency can break, whether it is declared or actual. */
  datatype Rule = ProductionTestSupport | CoreAdapter | UserActionBoundary | CoreLayer | TypesLayer | StoreLayer |
    WireLayer

  datatype Problem = Repeated | UnknownTarget | SelfDependency | NotAllowed | Breaks(rule: Rule)

  /** What can be wrong with one declaration by itself. */
  datatype FieldProblem =
    | BadGroup | NoEnglishDescription | NoKoreanDescription | Misclassified
    | CoreOwnership | AdapterBoundaryKind | AdapterKindBoundary

  datatype Issue =
    | Field(package: Package, field: FieldProblem)
    | DuplicateGroup(group: string)
    | Direction(source: Package, dependency: Dependency, problem: Problem)   // a direction the owner declares
    | Actual(source: Package, dependency: Dependency, problem: Problem)      // a dependency Cargo reports
    | Undeclared(package: Package)
    | Missing(package: Package)
    | OwnerCycle(cycle: seq<Package>)
    | ActualCycle(cycle: seq<Package>)

  function Allowed(declaration: Declaration, kind: Kind): seq<Package> {
    match kind
    case Normal => declaration.normal
    case Development => declaration.development
    case Build => declaration.build
  }

  /** The family of a wire group: its name without the suffix. */
  function WireFamily(group: string): Option<string> {
    var n := |group| - 5;
    if n >= 0 && group[n..] == "-wire" then Some(group[..n]) else None
  }

  /** Unicode white space, as str::trim removes it. */
  predicate Blank(s: string) {
    forall i :: 0 <= i < |s| ==>
      var code := s[i] as int;
      || 0x9 <= code <= 0xd || code == 0x20 || code == 0x85 || code == 0xa0 || code == 0x1680
      || 0x2000 <= code <= 0x200a || code == 0x2028 || code == 0x2029 || code == 0x202f || code == 0x205f
      || code == 0x3000
  }

  /** Lowercase kebab-case: a blank group fails the second test too. */
  predicate GroupOk(group: string) {
    !Blank(group) && forall i :: 0 <= i < |group| ==> 'a' <= group[i] <= 'z' || group[i] == '-'
  }

  function FieldProblems(d: Declaration): set<FieldProblem> {
    (if GroupOk(d.group) then {} else {BadGroup}) +
    (if Blank(d.english) then {NoEnglishDescription} else {}) +
    (if Blank(d.korean) then {NoKoreanDescription} else {}) +
    (if d.production == (d.kind.TestSupport? || d.kind.Validation?) then {Misclassified} else {}) +
    (if d.boundary.CoreBoundary? && (!d.production || !d.kind.Application?) then {CoreOwnership} else {}) +
    (if d.boundary.AdapterBoundary? && !d.kind.Adapter? && !d.kind.Presentation? &&
     !(d.kind.Schema? && WireFamily(d.group).Some?)
     then {AdapterBoundaryKind} else {}) +
    (if (d.kind.Adapter? || d.kind.Presentation?) && !d.boundary.AdapterBoundary? then {AdapterKindBoundary} else {})
  }

  ghost predicate SharedGroup(owner: Owner, packages: set<Package>, group: string) {
    exists p, q :: p in packages && q in packages && p != q && p in owner && q in owner
                   && owner[p].group == group && owner[q].group == group
  }

  /** validate_required_boundary: the first rule of the chain that applies. */
  function RequiredBoundary(source: Declaration, target: Declaration): set<Rule> {
    if source.group == "user-action-service" && (target.group == "core" || target.boundary.AdapterBoundary?) then
      {UserActionBoundary}
    else if source.group == "core" && target.group == "command-model" then
      {CoreLayer}
    else if source.group == "shared-types" &&
      (target.kind.Adapter? || target.kind.Application? || target.kind.Presentation?) then
      {TypesLayer}
    else if source.group == "storage" && (target.group == "core" || target.boundary.AdapterBoundary?) then
      {StoreLayer}
    else if && WireFamily(target.group).Some?
            && source.group != WireFamily(target.group).value + "-adapter"
            && !source.kind.TestSupport? && !source.kind.Validation? then
      {WireLayer}
    else
      {}
  }

  /** The rules a dependency of this kind between these declarations breaks. */
  function BrokenRules(source: Declaration, target: Declaration, kind: Kind): set<Rule> {
    (if source.production && target.kind.TestSupport? && !kind.Development? then {ProductionTestSupport} else {}) +
    (if (source.boundary.CoreBoundary? || source.boundary.CoreFacing?) && target.boundary.AdapterBoundary?
     then {CoreAdapter} else {}) +
    RequiredBoundary(source, target)
  }

  predicate Declares(owner: Owner, source: Package, d: Dependency) {
    source in owner && d.package in Allowed(owner[source], d.kind)
  }

  function Tag(targets: seq<Package>, kind: Kind): (tagged: seq<Dependency>)
    ensures forall d :: d in tagged <==> d.kind == kind && d.package in targets
  {
    if targets == [] then [] else [Dependency(targets[0], kind)] + Tag(targets[1..], kind)
  }

  /** The declared graph holds the normal and build directions. */
  function DeclaredGraph(owner: Owner): Graph {
    map p | p in owner :: Tag(owner[p].normal, Normal) + Tag(owner[p].build, Build)
  }

  predicate Repeats(targets: seq<Package>, target: Package) {
    exists i, j :: 0 <= i < j < |targets| && targets[i] == target && targets[j] == target
  }

  /** What validate_architecture_owner finds wrong with one declared direction. */
  function DirectionProblems(owner: Owner, source: Package, d: Dependency): set<Problem>
    requires source in owner
  {
    (if Repeats(Allowed(owner[source], d.kind), d.package) then {Repeated} else {}) +
    if d.package !in owner then
      {UnknownTarget}
    else
      (if d.package == source then {SelfDependency} else {}) +
      set rule | rule in BrokenRules(owner[source], owner[d.package], d.kind) :: Breaks(rule)
  }

  /** What validate_architecture_graph finds wrong with one actual dependency of a declared package. */
  function ActualProblems(owner: Owner, source: Package, d: Dependency): set<Problem>
    requires source in owner
  {
    if d.package !in owner then
      {UnknownTarget}
    else
      (if d.package in Allowed(owner[source], d.kind) then {} else {NotAllowed}) +
      set rule | rule in BrokenRules(owner[source], owner[d.package], d.kind) :: Breaks(rule)
  }

  predicate Depends(graph: Graph, source: Package, d: Dependency) {
    source in graph && d in graph[source]
  }

  // ---------- The checks ----------

  /** Issues about directions: exactly the problems of the declared directions of these packages. */
  ghost predicate ReportsDirections(owner: Owner, sources: set<Package>, issues: set<Issue>) {
    forall source, d, problem :: Direction(source, d, problem) in issues <==>
      source in sources && Declares(owner, source, d) && problem in DirectionProblems(owner, source, d)
  }

  ghost predicate ReportsFields(owner: Owner, packages: set<Package>, issues: set<Issue>) {
    && (forall p, field ::
          Field(p, field) in issues <==> p in packages && p in owner && field in FieldProblems(owner[p]))
    && (forall group :: DuplicateGroup(group) in issues <==> SharedGroup(owner, packages, group))
  }

  ghost predicate ReportsActual(owner: Owner, graph: Graph, sources: set<Package>, issues: set<Issue>) {
    forall source, d, problem :: Actual(source, d, problem) in issues <==>
      source in sources && source in owner && Depends(graph, source, d) && problem in ActualProblems(owner, source, d)
  }

  /** The part of a direction's problems that one occurrence in the list shows. */
  function ProblemsHere(owner: Owner, source: Package, d: Dependency, seen: bool): set<Problem>
    requires source in owner
  {
    (if seen then {Repeated} else {}) + (DirectionProblems(owner, source, d) - {Repeated})
  }

  /** Problems of the directions listed before position n. */
  ghost predicate ReportsListed(owner: Owner, source: Package, kind: Kind, n: nat, issues: set<Issue>)
    requires source in owner
  {
    var targets := Allowed(owner[source], kind);
    n <= |targets| && forall d, problem :: Direction(source, d, problem) in issues <==>
      && d.kind == kind && d.package in targets[..n]
      && (if problem.Repeated? then Repeats(targets[..n], d.package)
          else problem in DirectionProblems(owner, source, d))
  }

  method DirectionsOfKind(owner: Owner, source: Package, kind: Kind) returns (issues: set<Issue>)
    requires source in owner
    ensures forall d, problem :: Direction(source, d, problem) in issues <==>
              d.kind == kind && Declares(owner, source, d) && problem in DirectionProblems(owner, source, d)
    ensures forall issue :: issue in issues ==> issue.Direction? && issue.source == source
  {
    hide DirectionProblems, BrokenRules;
    var targets := Allowed(owner[source], kind);
    issues := {};
    var seen: set<Package> := {};
    for i := 0 to |targets|
      invariant ReportsListed(owner, source, kind, i, issues)
      invariant seen == set p | p in targets[..i]
      invariant forall issue :: issue in issues ==> issue.Direction? && issue.source == source
    {
      var d := Dependency(targets[i], kind);
      var problems := ProblemsHere(owner, source, d, targets[i] in seen);
      var here := set problem | problem in problems :: Direction(source, d, problem);
      ListedGrows(owner, source, kind, i, issues, here);
      issues := issues + here;
      seen := seen + {targets[i]};
      assert targets[..i + 1] == targets[..i] + [targets[i]];
    }
    assert targets[..|targets|] == targets;
    OnlyListedRepeats(owner, source, kind);
  }

  lemma ListedGrows(owner: Owner, source: Package, kind: Kind, i: nat, issues: set<Issue>, here: set<Issue>)
    requires source in owner && i < |Allowed(owner[source], kind)| && ReportsListed(owner, source, kind, i, issues)
    requires var targets := Allowed(owner[source], kind);
      here == set problem |
        problem in ProblemsHere(owner, source, Dependency(targets[i], kind), targets[i] in targets[..i])
        :: Direction(source, Dependency(targets[i], kind), problem)
    ensures ReportsListed(owner, source, kind, i + 1, issues + here)
  {
    hide DirectionProblems, BrokenRules, Allowed;
    var targets := Allowed(owner[source], kind);
    var before, after := targets[..i], targets[..i + 1];
    assert after == before + [targets[i]];
    forall p ensures Repeats(after, p) <==> Repeats(before, p) || (p == targets[i] && p in before) {
      RepeatsSnoc(before, targets[i], p);
    }
  }

  lemma RepeatsSnoc(before: seq<Package>, last: Package, p: Package)
    ensures Repeats(before + [last], p) <==> Repeats(before, p) || (p == last && p in before)
  {
    var after := before + [last];
    if Repeats(after, p) {
      var i, j :| 0 <= i < j < |after| && after[i] == p && after[j] == p;
      assert i < |before| && before[i] == p;
    }
    if p == last && p in before {
      var i :| 0 <= i < |before| && before[i] == p;
      assert after[i] == p && after[|before|] == p;
    }
    if Repeats(before, p) {
      var i, j :| 0 <= i < j < |before| && before[i] == p && before[j] == p;
      assert after[i] == p && after[j] == p;
    }
  }

  lemma OnlyListedRepeats(owner: Owner, source: Package, kind: Kind)
    requires source in owner
    ensures forall d: Dependency :: d.kind == kind ==>
      (Repeated in DirectionProblems(owner, source, d) <==> Repeats(Allowed(owner[source], kind), d.package))
  {
    hide BrokenRules;
  }

  /** The checks of each declaration by itself, and of groups that two packages claim. */
  method OwnerFields(owner: Owner) returns (issues: set<Issue>)
    ensures ReportsFields(owner, owner.Keys, issues)
    ensures forall issue :: issue in issues ==> issue.Field? || issue.DuplicateGroup?
  {
    hide FieldProblems;
    issues := {};
    var todo, groups := owner.Keys, {};
    while todo != {}
      invariant todo <= owner.Keys && ReportsFields(owner, owner.Keys - todo, issues)
      invariant groups == set p | p in owner.Keys - todo :: owner[p].group
      invariant forall issue :: issue in issues ==> issue.Field? || issue.DuplicateGroup?
      decreases todo
    {
      var package :| package in todo;
      var declaration := owner[package];
      var fields := set field | field in FieldProblems(declaration) :: Field(package, field);
      var shared := if declaration.group in groups then {DuplicateGroup(declaration.group)} else {};
      FieldsGrow(owner, owner.Keys - todo, package, issues, fields, shared);
      assert owner.Keys - (todo - {package}) == owner.Keys - todo + {package};
      issues := issues + fields + shared;
      groups := groups + {declaration.group};
      todo := todo - {package};
    }
    assert owner.Keys - todo == owner.Keys;
  }

  lemma FieldsGrow(owner: Owner, done: set<Package>, package: Package, issues: set<Issue>, fields: set<Issue>,
                   shared: set<Issue>)
    requires package in owner && package !in done && done <= owner.Keys && ReportsFields(owner, done, issues)
    requires fields == set field | field in FieldProblems(owner[package]) :: Field(package, field)
    requires shared == if exists p :: p in done && owner[p].group == owner[package].group
                       then {DuplicateGroup(owner[package].group)} else {}
    ensures ReportsFields(owner, done + {package}, issues + fields + shared)
  {
    hide FieldProblems;
    forall group ensures SharedGroup(owner, done + {package}, group) <==>
      SharedGroup(owner, done, group) ||
        (group == owner[package].group && exists p :: p in done && owner[p].group == group)
    {
      if p :| group == owner[package].group && p in done && owner[p].group == group {
        assert p in done + {package} && package in done + {package};
      }
    }
  }

  method OwnerDirections(owner: Owner) returns (issues: set<Issue>)
    ensures ReportsDirections(owner, owner.Keys, issues)
    ensures forall issue :: issue in issues ==> issue.Direction?
  {
    hide DirectionProblems;
    issues := {};
    var todo := owner.Keys;
    while todo != {}
      invariant todo <= owner.Keys && ReportsDirections(owner, owner.Keys - todo, issues)
      invariant forall issue :: issue in issues ==> issue.Direction?
      decreases todo
    {
      var source :| source in todo;
      todo := todo - {source};
      var normal := DirectionsOfKind(owner, source, Normal);
      var development := DirectionsOfKind(owner, source, Development);
      var build := DirectionsOfKind(owner, source, Build);
      issues := issues + normal + development + build;
    }
    assert owner.Keys - todo == owner.Keys;
  }

  method DependenciesOf(owner: Owner, graph: Graph, source: Package) returns (issues: set<Issue>)
    requires source in graph
    ensures forall d, problem :: Actual(source, d, problem) in issues <==>
              source in owner && d in graph[source] && problem in ActualProblems(owner, source, d)
    ensures forall issue :: issue in issues ==> issue.Actual? && issue.source == source
  {
    hide ActualProblems;
    issues := {};
    if source in owner {
      var dependencies := graph[source];
      for i := 0 to |dependencies|
        invariant forall d, problem :: Actual(source, d, problem) in issues <==>
                    d in dependencies[..i] && problem in ActualProblems(owner, source, d)
        invariant forall issue :: issue in issues ==> issue.Actual? && issue.source == source
      {
        var d := dependencies[i];
        var problems := ActualProblems(owner, source, d);
        issues := issues + set problem | problem in problems :: Actual(source, d, problem);
      }
      assert dependencies[..|dependencies|] == dependencies;
    }
  }

  method ActualDependencies(owner: Owner, graph: Graph) returns (issues: set<Issue>)
    ensures ReportsActual(owner, graph, graph.Keys, issues)
    ensures forall issue :: issue in issues ==> issue.Actual?
  {
    hide ActualProblems;
    issues := {};
    var todo := graph.Keys;
    while todo != {}
      invariant todo <= graph.Keys && ReportsActual(owner, graph, graph.Keys - todo, issues)
      invariant forall issue :: issue in issues ==> issue.Actual?
      decreases todo
    {
      var source :| source in todo;
      todo := todo - {source};
      var more := DependenciesOf(owner, graph, source);
      issues := issues + more;
    }
    assert graph.Keys - todo == graph.Keys;
  }

  function OwnerCycles(issues: set<Issue>): set<seq<Package>> {
    set issue | issue in issues && issue.OwnerCycle? :: issue.cycle
  }

  function ActualCycles(issues: set<Issue>): set<seq<Package>> {
    set issue | issue in issues && issue.ActualCycle? :: issue.cycle
  }

  /** The whole report of validate_architecture_graph. */
  ghost predicate IsReport(owner: Owner, graph: Graph, issues: set<Issue>) {
    && ReportsFields(owner, owner.Keys, issues)
    && ReportsDirections(owner, owner.Keys, issues)
    && ReportsActual(owner, graph, graph.Keys, issues)
    && (forall p :: Undeclared(p) in issues <==> p in graph && p !in owner)
    && (forall p :: Missing(p) in issues <==> p in owner && p !in graph)
    && (forall c :: OwnerCycle(c) in issues ==> SimpleCycle(DeclaredGraph(owner), c))
    && CutsAllCycles(DeclaredGraph(owner), OwnerCycles(issues))
    && (forall c :: ActualCycle(c) in issues ==> SimpleCycle(graph, c))
    && CutsAllCycles(graph, ActualCycles(issues))
  }

  method ValidateGraph(owner: Owner, graph: Graph) returns (issues: set<Issue>, ghost order: seq<Package>)
    ensures IsReport(owner, graph, issues)
    ensures issues == {} ==> DependencyOrder(graph, order)
  {
    hide *;
    var fields := OwnerFields(owner);
    var directions := OwnerDirections(owner);
    var ownerCycles, _ := FindCycles(DeclaredGraph(owner));
    var packages := PackageIssues(owner, graph);
    var actual := ActualDependencies(owner, graph);
    var actualCycles;
    actualCycles, order := FindCycles(graph);
    issues := fields + directions + packages + actual + CycleIssues(ownerCycles, actualCycles);
    WholeReport(owner, graph, fields, directions, ownerCycles, actual, actualCycles);
    assert forall c :: c in actualCycles ==> ActualCycle(c) in issues;
  }

  function PackageIssues(owner: Owner, graph: Graph): (issues: set<Issue>)
    ensures forall issue :: issue in issues ==> issue.Undeclared? || issue.Missing?
    ensures forall p :: Undeclared(p) in issues <==> p in graph && p !in owner
    ensures forall p :: Missing(p) in issues <==> p in owner && p !in graph
  {
    (set p | p in graph && p !in owner :: Undeclared(p)) + (set p | p in owner && p !in graph :: Missing(p))
  }

  function CycleIssues(ownerCycles: set<seq<Package>>, actualCycles: set<seq<Package>>): (issues: set<Issue>)
    ensures forall issue :: issue in issues ==> issue.OwnerCycle? || issue.ActualCycle?
    ensures forall c :: OwnerCycle(c) in issues <==> c in ownerCycles
    ensures forall c :: ActualCycle(c) in issues <==> c in actualCycles
  {
    (set c | c in ownerCycles :: OwnerCycle(c)) + (set c | c in actualCycles :: ActualCycle(c))
  }

  lemma WholeReport(owner: Owner, graph: Graph, fields: set<Issue>, directions: set<Issue>,
                    ownerCycles: set<seq<Package>>, actual: set<Issue>, actualCycles: set<seq<Package>>)
    requires ReportsFields(owner, owner.Keys, fields)
    requires forall issue :: issue in fields ==> issue.Field? || issue.DuplicateGroup?
    requires ReportsDirections(owner, owner.Keys, directions)
    requires forall issue :: issue in directions ==> issue.Direction?
    requires ReportsActual(owner, graph, graph.Keys, actual) && forall issue :: issue in actual ==> issue.Actual?
    requires (forall c :: c in ownerCycles ==> SimpleCycle(DeclaredGraph(owner), c))
    requires CutsAllCycles(DeclaredGraph(owner), ownerCycles)
    requires (forall c :: c in actualCycles ==> SimpleCycle(graph, c)) && CutsAllCycles(graph, actualCycles)
    ensures IsReport(owner, graph, fields + directions + PackageIssues(owner, graph) + actual
                                   + CycleIssues(ownerCycles, actualCycles))
  {
    hide ReportsFields, ReportsDirections, ReportsActual, DeclaredGraph, CutsAllCycles, SimpleCycle, OwnerCycles;
    hide ActualCycles;
    hide PackageIssues, CycleIssues;
    var issues := fields + directions + PackageIssues(owner, graph) + actual + CycleIssues(ownerCycles, actualCycles);
    Assemble(owner, graph, issues, fields, directions, actual);
    CyclesReported(issues, ownerCycles, actualCycles);
  }

  /** Each part of the report looks at its own issues only. */
  lemma Assemble(owner: Owner, graph: Graph, issues: set<Issue>, fields: set<Issue>, directions: set<Issue>,
                 actual: set<Issue>)
    requires ReportsFields(owner, owner.Keys, fields)
    requires forall issue: Issue :: issue.Field? || issue.DuplicateGroup? ==> (issue in issues <==> issue in fields)
    requires ReportsDirections(owner, owner.Keys, directions) && ReportsActual(owner, graph, graph.Keys, actual)
    requires forall issue: Issue :: issue.Direction? ==> (issue in issues <==> issue in directions)
    requires forall issue: Issue :: issue.Actual? ==> (issue in issues <==> issue in actual)
    ensures ReportsFields(owner, owner.Keys, issues)
    ensures ReportsDirections(owner, owner.Keys, issues) && ReportsActual(owner, graph, graph.Keys, issues)
  {
    hide DirectionProblems, ActualProblems, FieldProblems, SharedGroup;
  }

  lemma CyclesReported(issues: set<Issue>, ownerCycles: set<seq<Package>>, actualCycles: set<seq<Package>>)
    requires forall c :: OwnerCycle(c) in issues <==> c in ownerCycles
    requires forall c :: ActualCycle(c) in issues <==> c in actualCycles
    ensures OwnerCycles(issues) == ownerCycles && ActualCycles(issues) == actualCycles
  {
    forall c | c in ownerCycles ensures c in OwnerCycles(issues) {
      assert OwnerCycle(c) in issues;
    }
    forall c | c in actualCycles ensures c in ActualCycles(issues) {
      assert ActualCycle(c) in issues;
    }
  }

  // ---------- What a report tells ----------

  /** The edge is reported by itself, without looking at the actual graph's cycles. */
  ghost predicate EdgeReported(issues: set<Issue>, from: Package, to: Package) {
    || Undeclared(from) in issues
    || (exists kind :: Actual(from, Dependency(to, kind), UnknownTarget) in issues)
    || (exists kind :: Actual(from, Dependency(to, kind), NotAllowed) in issues)
    || ClosesCycle(OwnerCycles(issues), from, to)
  }

  /** An unreported actual edge is a declared edge. */
  lemma UnreportedIsDeclared(owner: Owner, graph: Graph, issues: set<Issue>, from: Package, to: Package)
    requires IsReport(owner, graph, issues) && Edge(graph, from, to)
    ensures Edge(DeclaredGraph(owner), from, to) || EdgeReported(issues, from, to)
  {
    hide CutsAllCycles, SimpleCycle, BrokenRules;
    if from !in owner {
      assert Undeclared(from) in issues;
    } else {
      var kind := if Dependency(to, Normal) in graph[from] then Normal else Build;
      var d := Dependency(to, kind);
      assert Depends(graph, from, d);
      if to !in owner {
        assert Actual(from, d, UnknownTarget) in issues;
      } else if to !in Allowed(owner[from], kind) {
        assert Actual(from, d, NotAllowed) in issues;
      } else {
        assert d in Tag(owner[from].normal, Normal) + Tag(owner[from].build, Build);
      }
    }
  }

  /** Every cycle of the actual graph passes an edge that the edge checks or the owner's cycle check report. */
  lemma CyclesAreExplained(owner: Owner, graph: Graph, issues: set<Issue>, path: seq<Package>)
    requires IsReport(owner, graph, issues) && ClosedWalk(graph, path)
    ensures exists i :: 0 <= i < |path| - 1 && EdgeReported(issues, path[i], path[i + 1])
  {
    hide IsReport, DeclaredGraph, EdgeReported;
    if forall i :: 0 <= i < |path| - 1 ==> !EdgeReported(issues, path[i], path[i + 1]) {
      forall i | 0 <= i < |path| - 1
        ensures Edge(DeclaredGraph(owner), path[i], path[i + 1])
      {
        UnreportedIsDeclared(owner, graph, issues, path[i], path[i + 1]);
      }
      assert ClosedWalk(DeclaredGraph(owner), path);
      OwnerCutsWalk(owner, graph, issues, path);
    }
  }

  lemma OwnerCutsWalk(owner: Owner, graph: Graph, issues: set<Issue>, path: seq<Package>)
    requires IsReport(owner, graph, issues) && ClosedWalk(DeclaredGraph(owner), path)
    ensures exists i :: 0 <= i < |path| - 1 && EdgeReported(issues, path[i], path[i + 1])
  {
    hide DeclaredGraph, ClosesCycle, ReportsDirections, ReportsActual, SimpleCycle, ClosedWalk, OwnerCycles;
    assert CutsAllCycles(DeclaredGraph(owner), OwnerCycles(issues));
    var i :| 0 <= i < |path| - 1 && ClosesCycle(OwnerCycles(issues), path[i], path[i + 1]);
    assert EdgeReported(issues, path[i], path[i + 1]);
  }

  /** So a cycle report on the actual graph never stands alone. */
  lemma ActualCycleNeverAlone(owner: Owner, graph: Graph, issues: set<Issue>, cycle: seq<Package>)
    requires IsReport(owner, graph, issues) && ActualCycle(cycle) in issues
    ensures exists issue :: issue in issues && !issue.ActualCycle?
  {
    hide DeclaredGraph, ReportsDirections, ReportsActual, CutsAllCycles;
    assert ClosedWalk(graph, cycle);
    CyclesAreExplained(owner, graph, issues, cycle);
    var i :| 0 <= i < |cycle| - 1 && EdgeReported(issues, cycle[i], cycle[i + 1]);
    if ClosesCycle(OwnerCycles(issues), cycle[i], cycle[i + 1]) {
      var c :| c in OwnerCycles(issues) && |c| >= 2 && ClosingEdge(c) == (cycle[i], cycle[i + 1]);
      assert OwnerCycle(c) in issues;
    }
  }

  /** Every rule an actual dependency breaks is also reported where it was allowed, or it was not allowed. */
  lemma OwnerRulesCoverGraph(owner: Owner, graph: Graph, issues: set<Issue>, source: Package, d: Dependency, rule: Rule)
    requires IsReport(owner, graph, issues) && Actual(source, d, Breaks(rule)) in issues
    ensures Actual(source, d, NotAllowed) in issues || Direction(source, d, Breaks(rule)) in issues
  {
    hide DeclaredGraph, CutsAllCycles, SimpleCycle, BrokenRules;
  }

  /** A clean report means the packages can be ordered with every deployable dependency first. */
  lemma CleanReportIsAcyclic(owner: Owner, graph: Graph)
    requires IsReport(owner, graph, {})
    ensures Acyclic(graph) && Acyclic(DeclaredGraph(owner))
    ensures graph.Keys == owner.Keys
    ensures forall source, d :: Depends(graph, source, d) ==> Declares(owner, source, d)
  {
    hide DeclaredGraph, SimpleCycle, BrokenRules;
    var none: set<Issue> := {};
    assert ActualCycles(none) == {} && OwnerCycles(none) == {};
    assert forall p :: p in graph <==> p in owner by {
      assert forall p :: Undeclared(p) !in none && Missing(p) !in none;
    }
    forall source, d | Depends(graph, source, d)
      ensures Declares(owner, source, d)
    {
      assert Actual(source, d, UnknownTarget) !in none && Actual(source, d, NotAllowed) !in none;
    }
  }
}
