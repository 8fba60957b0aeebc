/** Each rule of the architecture check by itself: exactly which declarations break it. */
module ArchitectureRules {
  import opened Wrappers
  import opened DependencyCycles
  import opened Architecture

  /** The group is this family with this suffix. */
  predicate IsPart(group: string, family: string, suffix: string) {
    group == family + suffix
  }

  ghost predicate IsWire(group: string) {
    exists family :: IsPart(group, family, "-wire")
  }

  lemma WireFamilyExactly(group: string, family: string)
    ensures WireFamily(group) == Some(family) <==> IsPart(group, family, "-wire")
  {
    if IsPart(group, family, "-wire") {
      assert group[|family|..] == "-wire" && group[..|family|] == family;
    }
  }

  /** The two rules about deployment: test support stays out of production, adapters out of Core. */
  lemma DeploymentRulesExactly(source: Declaration, target: Declaration, kind: Kind)
    ensures ProductionTestSupport in BrokenRules(source, target, kind) <==>
            source.production && target.kind == TestSupport && (kind == Normal || kind == Build)
    ensures CoreAdapter in BrokenRules(source, target, kind) <==>
            source.boundary in {CoreBoundary, CoreFacing} && target.boundary == AdapterBoundary
  {
  }

  /** The layers, by group; each is reported whenever it is broken. */
  lemma LayerRulesExactly(source: Declaration, target: Declaration, kind: Kind)
    ensures UserActionBoundary in BrokenRules(source, target, kind) <==>
            source.group == "user-action-service" && (target.group == "core" || target.boundary == AdapterBoundary)
    ensures CoreLayer in BrokenRules(source, target, kind) <==>
            source.group == "core" && target.group == "command-model"
    ensures TypesLayer in BrokenRules(source, target, kind) <==>
            source.group == "shared-types" && target.kind in {Adapter, Application, Presentation}
    ensures StoreLayer in BrokenRules(source, target, kind) <==>
            source.group == "storage" && (target.group == "core" || target.boundary == AdapterBoundary)
  {
    hide WireFamily, BrokenRules;
    GroupsDiffer(source.group);
    OtherRules(source, target, kind);
  }

  lemma OtherRules(source: Declaration, target: Declaration, kind: Kind)
    ensures forall rule :: rule != ProductionTestSupport && rule != CoreAdapter ==>
              (rule in BrokenRules(source, target, kind) <==> rule in RequiredBoundary(source, target))
  {
    hide RequiredBoundary;
  }

  lemma GroupsDiffer(group: string)
    ensures group == "user-action-service" ==> group !in {"core", "shared-types", "storage"}
    ensures group == "core" ==> group !in {"shared-types", "storage"}
    ensures group == "shared-types" ==> group != "storage"
  {
    if group == "shared-types" {
      assert group[1] == 'h';
    }
  }

  /** Wire packages are for their own adapter and for tests; the layers above are reported first. */
  lemma WireRuleExactly(source: Declaration, target: Declaration, kind: Kind)
    ensures WireLayer in BrokenRules(source, target, kind) <==>
            && (exists family :: IsPart(target.group, family, "-wire") && !IsPart(source.group, family, "-adapter"))
            && source.kind !in {TestSupport, Validation}
            && !(source.group == "shared-types" && target.kind in {Adapter, Application, Presentation})
            && !(source.group in {"user-action-service", "storage"} && target.boundary == AdapterBoundary)
  {
    hide WireFamily;
    forall family ensures WireFamily(target.group) == Some(family) <==> IsPart(target.group, family, "-wire") {
      WireFamilyExactly(target.group, family);
    }
    if WireFamily(target.group).Some? {
      var family := WireFamily(target.group).value;
      assert IsPart(target.group, family, "-wire");
      assert target.group[|target.group| - 1] == 'e' && target.group[|target.group| - 2] == 'r';
      assert target.group != "core" by { assert "core"[3] == 'e' && "core"[2] == 'r' && "core"[1] == 'o'; }
    }
  }

  // ---------- Declarations ----------

  /** The code points with the Unicode property White_Space. */
  const WHITE_SPACE: set<int> := {
    0x9, 0xa, 0xb, 0xc, 0xd, 0x20, 0x85, 0xa0, 0x1680, 0x2000, 0x2001, 0x2002, 0x2003, 0x2004, 0x2005, 0x2006,
    0x2007, 0x2008, 0x2009, 0x200a, 0x2028, 0x2029, 0x202f, 0x205f, 0x3000}

  lemma BlankExactly(s: string)
    ensures Blank(s) <==> forall c :: c in s ==> c as int in WHITE_SPACE
  {
    forall i | 0 <= i < |s| ensures s[i] in s {
    }
  }

  /** Each field check by itself. */
  lemma FieldChecksExactly(d: Declaration)
    ensures BadGroup in FieldProblems(d) <==>
            d.group == "" || exists c :: c in d.group && !('a' <= c <= 'z') && c != '-'
    ensures NoEnglishDescription in FieldProblems(d) <==> forall c :: c in d.english ==> c as int in WHITE_SPACE
    ensures NoKoreanDescription in FieldProblems(d) <==> forall c :: c in d.korean ==> c as int in WHITE_SPACE
  {
    hide WireFamily, Blank, GroupOk;
    GroupExactly(d.group);
    BlankExactly(d.english);
    BlankExactly(d.korean);
  }

  lemma GroupExactly(group: string)
    ensures !GroupOk(group) <==> group == "" || exists c :: c in group && !('a' <= c <= 'z') && c != '-'
  {
    if group != "" {
      assert group[0] in group;
      if exists i :: 0 <= i < |group| && !('a' <= group[i] <= 'z') && group[i] != '-' {
        var i :| 0 <= i < |group| && !('a' <= group[i] <= 'z') && group[i] != '-';
        assert group[i] in group;
      }
    }
  }

  /** Kind, use and boundary must fit. */
  lemma ClassificationExactly(d: Declaration)
    ensures Misclassified in FieldProblems(d) <==> (d.production <==> d.kind in {TestSupport, Validation})
    ensures CoreOwnership in FieldProblems(d) <==>
            d.boundary == CoreBoundary && !(d.production && d.kind == Application)
    ensures AdapterKindBoundary in FieldProblems(d) <==>
            d.kind in {Adapter, Presentation} && d.boundary != AdapterBoundary
    ensures AdapterBoundaryKind in FieldProblems(d) <==>
            && d.boundary == AdapterBoundary && d.kind !in {Adapter, Presentation}
            && !(d.kind == Schema && IsWire(d.group))
  {
    hide WireFamily, GroupOk, Blank;
    forall family ensures WireFamily(d.group) == Some(family) <==> IsPart(d.group, family, "-wire") {
      WireFamilyExactly(d.group, family);
    }
  }

  // ---------- Dependencies ----------

  /** The list for a kind of dependency. */
  predicate Lists(d: Declaration, kind: Kind, target: Package) {
    || (kind == Normal && target in d.normal)
    || (kind == Development && target in d.development)
    || (kind == Build && target in d.build)
  }

  lemma ListedExactly(owner: Owner, source: Package, d: Dependency)
    ensures Declares(owner, source, d) <==> source in owner && Lists(owner[source], d.kind, d.package)
  {
  }

  /** What is wrong with one actual dependency of a declared package. */
  lemma ActualProblemsExactly(owner: Owner, source: Package, d: Dependency, problem: Problem)
    requires source in owner
    ensures problem in ActualProblems(owner, source, d) <==>
            match problem
            case Repeated => false
            case SelfDependency => false
            case UnknownTarget => d.package !in owner
            case NotAllowed => d.package in owner && !Lists(owner[source], d.kind, d.package)
            case Breaks(rule) => d.package in owner && rule in BrokenRules(owner[source], owner[d.package], d.kind)
  {
    hide BrokenRules;
  }

  /** What is wrong with one declared direction. */
  lemma DirectionProblemsExactly(owner: Owner, source: Package, d: Dependency, problem: Problem)
    requires source in owner
    ensures problem in DirectionProblems(owner, source, d) <==>
            match problem
            case Repeated => multiset(Allowed(owner[source], d.kind))[d.package] >= 2
            case SelfDependency => d.package in owner && d.package == source
            case UnknownTarget => d.package !in owner
            case NotAllowed => false
            case Breaks(rule) => d.package in owner && rule in BrokenRules(owner[source], owner[d.package], d.kind)
  {
    hide BrokenRules, Repeats;
    TwiceExactly(Allowed(owner[source], d.kind), d.package);
  }

  lemma {:induction false} TwiceExactly(targets: seq<Package>, target: Package)
    ensures Repeats(targets, target) <==> multiset(targets)[target] >= 2
    ensures target in targets <==> multiset(targets)[target] >= 1
  {
    if targets != [] {
      var front, last := targets[..|targets| - 1], targets[|targets| - 1];
      TwiceExactly(front, target);
      assert targets == front + [last];
      if Repeats(front, target) {
        var i, j :| 0 <= i < j < |front| && front[i] == target && front[j] == target;
        assert targets[i] == target && targets[j] == target;
      }
      if target in front && last == target {
        var i :| 0 <= i < |front| && front[i] == target;
        assert targets[i] == target && targets[|front|] == target;
      }
    }
  }

  /** The declared graph has the normal and build directions, and both are followed by the cycle search. */
  lemma DeclaredEdgesExactly(owner: Owner, source: Package, target: Package)
    ensures Edge(DeclaredGraph(owner), source, target) <==>
            source in owner && (target in owner[source].normal || target in owner[source].build)
  {
    if source in owner {
      var edges := DeclaredGraph(owner)[source];
      if target in owner[source].normal {
        assert Dependency(target, Normal) in edges;
      }
      if target in owner[source].build {
        assert Dependency(target, Build) in edges;
      }
    }
  }
}
