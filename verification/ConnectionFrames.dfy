/**
 What each store call of the Connection protocol changes, and what it leaves alone, from every consistent state:
 when it takes effect, and then the whole new state, member by member.
 */
module ConnectionFrames {
  import opened Wrappers
  import opened ConnectionProtocol

  /** Exactly the Guards of the project are gone; every other Guard is as it was. */
  ghost predicate LosesGuardsOf(s: State, t: State, project: string) {
    && (forall g :: g in t.guards <==> g in s.guards && s.guards[g].project != project)
    && (forall g :: g in t.guards ==> t.guards[g] == s.guards[g])
  }

  /** Only this Guard id may differ. */
  ghost predicate OtherGuardsKept(s: State, t: State, guard: string) {
    forall g :: g != guard ==> (g in t.guards <==> g in s.guards) && (g in t.guards ==> t.guards[g] == s.guards[g])
  }

  ghost predicate SameIdentity(c: Connection, d: Connection) {
    c.instance == d.instance && c.mode == d.mode && c.generation == d.generation
  }

  /** A project goes, and its Guard; the Connection goes only with its last project. */
  lemma RemoveProjectFrame(s: State, project: string)
    requires Consistent(s)
    ensures var t := Apply(s, DoRemoveProject(project));
            if s.connection.Some? && s.connection.value.pending.None? && project in s.projects then
              && t.projects == s.projects - {project}
              && LosesGuardsOf(s, t, project)
              && t.connection == (if s.projects == {project} then None else s.connection)
              && t.nextInstance == s.nextInstance
            else
              t == s
  {
  }

  /** A superseded Connection loses the project and its Guard, or keeps its last project, marked. */
  lemma SupersedeFrame(s: State, project: string, replacement: string)
    requires Consistent(s)
    ensures var t := Apply(s, DoSupersede(project, replacement));
            if project !in s.projects then
              t == s
            else if s.projects == {project} then
              && t.projects == s.projects && t.guards == s.guards && t.nextInstance == s.nextInstance
              && t.connection == Some(s.connection.value.(pending := Some(Cleanup(project, replacement))))
            else
              && t.projects == s.projects - {project}
              && LosesGuardsOf(s, t, project)
              && t.connection == s.connection && t.nextInstance == s.nextInstance
  {
  }

  /** Completing the cleanup that was asked for takes the membership and the mark, and nothing else. */
  lemma CompleteCleanupFrame(s: State, project: string, replacement: string)
    requires Consistent(s)
    ensures var t := Apply(s, DoCompleteCleanup(project, replacement));
            if s.connection.Some? && s.connection.value.pending == Some(Cleanup(project, replacement)) then
              && t.projects == {} && LosesGuardsOf(s, t, project) && t.guards == map[]
              && t.nextInstance == s.nextInstance
              && t.connection.Some? && t.connection.value.pending.None?
              && SameIdentity(s.connection.value, t.connection.value)
              && t.connection.value.fingerprint == s.connection.value.fingerprint
              && t.connection.value.report == s.connection.value.report
            else
              t == s
  {
    var t := Apply(s, DoCompleteCleanup(project, replacement));
    assert t != s ==> forall g :: g !in t.guards;
  }

  lemma AddProjectFrame(s: State, project: string)
    ensures var t := Apply(s, DoAddProject(project));
            if s.connection.Some? && s.connection.value.pending.None? then
              && (forall p :: p in t.projects <==> p in s.projects || p == project)
              && t.connection == s.connection && t.guards == s.guards && t.nextInstance == s.nextInstance
            else
              t == s
  {
  }

  /** A Guard is written only for a member project without another Guard, at the current revision. */
  lemma UpsertGuardFrame(s: State, guard: string, project: string, manifest: Manifest)
    requires Consistent(s)
    ensures var t := Apply(s, DoUpsertGuard(guard, project, manifest));
            if && project in s.projects
               && SameBinding(manifest.revision, s.connection.value)
               && manifest.revision.fingerprint == s.connection.value.fingerprint
               && (forall g :: g in s.guards && s.guards[g].project == project ==> g == guard)
            then
              && guard in t.guards && t.guards[guard].project == project && t.guards[guard].manifest == manifest
              && OtherGuardsKept(s, t, guard)
              && t.connection == s.connection && t.projects == s.projects && t.nextInstance == s.nextInstance
            else
              t == s
  {
  }

  lemma YieldGuardFrame(s: State, guard: string)
    ensures var t := Apply(s, DoYieldGuard(guard));
            && guard !in t.guards && OtherGuardsKept(s, t, guard)
            && t.connection == s.connection && t.projects == s.projects && t.nextInstance == s.nextInstance
  {
  }

  /** An activated Connection gains a new project together with its Guard, or nothing. */
  lemma ActivateFrame(s: State, project: string, guard: string, manifest: Manifest)
    requires Consistent(s)
    ensures var t := Apply(s, DoActivate(project, guard, manifest));
            if && s.connection.Some? && s.connection.value.pending.None? && project !in s.projects
               && SameBinding(manifest.revision, s.connection.value)
               && manifest.revision.fingerprint == s.connection.value.fingerprint
            then
              && (forall p :: p in t.projects <==> p in s.projects || p == project)
              && guard in t.guards && t.guards[guard].project == project && t.guards[guard].manifest == manifest
              && OtherGuardsKept(s, t, guard)
              && t.connection == s.connection && t.nextInstance == s.nextInstance
            else
              t == s
  {
  }

  /** A report is stored or cleared only for the captured revision, and nothing else changes. */
  lemma StoreReportFrame(s: State, captured: Revision, content: Option<string>)
    ensures var t := Apply(s, DoStoreReport(captured, content));
            if && s.connection.Some? && SameBinding(captured, s.connection.value)
               && captured.fingerprint == s.connection.value.fingerprint
            then
              && t.projects == s.projects && t.guards == s.guards && t.nextInstance == s.nextInstance
              && t.connection.Some?
              && t.connection.value.(report := s.connection.value.report) == s.connection.value
              && (content.None? ==> t.connection.value.report.None?)
              && (content.Some? ==> t.connection.value.report == Some(Report(content.value, captured)))
            else
              t == s
  {
  }

  /** A new row has a new instance; an old one changes its fingerprint only, and loses its report if it does. */
  lemma RegisterFrame(s: State, mode: string, fingerprint: string)
    ensures var t := Apply(s, DoRegister(mode, fingerprint));
            && t.projects == s.projects && t.guards == s.guards
            && if s.connection.None? then
                 && t.nextInstance == s.nextInstance + 1 && t.connection.Some?
                 && t.connection.value.instance == s.nextInstance && t.connection.value.generation == 0
                 && t.connection.value.mode == mode && t.connection.value.fingerprint == fingerprint
                 && t.connection.value.report.None? && t.connection.value.pending.None?
               else if s.connection.value.pending.None? && s.connection.value.mode == mode then
                 && t.nextInstance == s.nextInstance && t.connection.Some?
                 && t.connection.value.fingerprint == fingerprint && t.connection.value.pending.None?
                 && SameIdentity(s.connection.value, t.connection.value)
                 && t.connection.value.report ==
                      (if s.connection.value.fingerprint == fingerprint then s.connection.value.report else None)
               else
                 t == s
  {
  }

  // ---------- Mode transitions ----------

  /** What a transition must carry for a stored Guard. */
  function RebindFor(s: State, guard: string, candidate: Revision): Rebind
    requires guard in s.guards
  {
    var manifest := s.guards[guard].manifest;
    Rebind(guard, s.guards[guard].project, manifest, Manifest(candidate, manifest.body))
  }

  /** The rebinds are those of the stored Guards, each once. */
  ghost predicate RebindsAllGuards(s: State, rebinds: seq<Rebind>, candidate: Revision) {
    && (forall i, j :: 0 <= i < j < |rebinds| ==> rebinds[i].guard != rebinds[j].guard)
    && (forall i :: 0 <= i < |rebinds| ==>
          rebinds[i].guard in s.guards && rebinds[i] == RebindFor(s, rebinds[i].guard, candidate))
    && (forall g :: g in s.guards ==> exists i :: 0 <= i < |rebinds| && rebinds[i].guard == g)
  }

  ghost predicate EveryProjectGuarded(s: State) {
    forall p :: p in s.projects ==> exists g :: g in s.guards && s.guards[g].project == p
  }

  /** A mode change is accepted exactly for an unmarked, fully and currently guarded Connection as expected. */
  lemma AcceptedExactly(s: State, t: Transition)
    requires Consistent(s)
    ensures TransitionAccepted(s, t) <==>
            && s.connection.Some? && s.connection.value.pending.None?
            && s.connection.value.mode == t.expectedMode
            && SameBinding(t.expectedRevision, s.connection.value)
            && t.expectedRevision.fingerprint == s.connection.value.fingerprint
            && if t.mode == t.expectedMode then
                 t.rebinds == []
               else
                 && s.connection.value.generation < 0x7fff_ffff_ffff_ffff
                 && GuardsCurrent(s) && EveryProjectGuarded(s)
                 && var r := t.expectedRevision;
                    RebindsAllGuards(s, t.rebinds, Revision(r.instance, t.mode, r.fingerprint, r.generation + 1))
  {
    hide Consistent, CompleteInventory, RebindOk, RebindsAllGuards, GuardsCurrent, EveryProjectGuarded;
    if s.connection.Some? && t.mode != t.expectedMode && RevisionOf(s.connection.value) == t.expectedRevision
       && s.connection.value.mode == t.expectedMode {
      var previous, candidate := RevisionOf(s.connection.value), Candidate(s.connection.value, t.mode);
      if TransitionAccepted(s, t) {
        AcceptedRebinds(s, t.rebinds, previous, candidate);
      }
      if GuardsCurrent(s) && EveryProjectGuarded(s) && RebindsAllGuards(s, t.rebinds, candidate) {
        RebindsAreComplete(s, t.rebinds, previous, candidate);
      }
    }
  }

  lemma AcceptedRebinds(s: State, rebinds: seq<Rebind>, previous: Revision, candidate: Revision)
    requires s.connection.Some? && previous == RevisionOf(s.connection.value)
    requires DistinctRebinds(rebinds) && CompleteInventory(s, rebinds)
    requires forall i :: 0 <= i < |rebinds| ==> RebindOk(s, previous, candidate, rebinds[i])
    ensures GuardsCurrent(s) && EveryProjectGuarded(s) && RebindsAllGuards(s, rebinds, candidate)
  {
    forall g | g in s.guards ensures exists i :: 0 <= i < |rebinds| && rebinds[i].guard == g {
      assert g in Elements(GuardIds(rebinds));
      var i :| 0 <= i < |rebinds| && GuardIds(rebinds)[i] == g;
    }
    forall p | p in s.projects ensures exists g :: g in s.guards && s.guards[g].project == p {
      assert p in Elements(ProjectIds(rebinds));
      var i :| 0 <= i < |rebinds| && ProjectIds(rebinds)[i] == p;
      assert RebindOk(s, previous, candidate, rebinds[i]);
      assert rebinds[i].guard in s.guards;
    }
  }

  lemma RebindsAreComplete(s: State, rebinds: seq<Rebind>, previous: Revision, candidate: Revision)
    requires Consistent(s) && s.connection.Some? && previous == RevisionOf(s.connection.value)
    requires GuardsCurrent(s) && EveryProjectGuarded(s) && RebindsAllGuards(s, rebinds, candidate)
    ensures DistinctRebinds(rebinds) && CompleteInventory(s, rebinds)
    ensures forall i :: 0 <= i < |rebinds| ==> RebindOk(s, previous, candidate, rebinds[i])
  {
    hide CompleteInventory;
    var projects := ProjectIds(rebinds);
    forall i | 0 <= i < |rebinds| ensures RebindOk(s, previous, candidate, rebinds[i]) {
      assert rebinds[i] == RebindFor(s, rebinds[i].guard, candidate);
    }
    forall p ensures p in Elements(projects) <==> p in s.projects {
      if p in s.projects {
        var g :| g in s.guards && s.guards[g].project == p;
        var i :| 0 <= i < |rebinds| && rebinds[i].guard == g;
        assert projects[i] == p;
      }
    }
    CoveredGuards(s, projects, rebinds, previous, candidate);
    InventoryIsComplete(s, projects, rebinds, previous, candidate);
  }

  /** Rejected, or to the mode it is in already, a transition changes nothing. */
  lemma TransitionFrame(s: State, t: Transition)
    ensures var u := Apply(s, DoTransition(t));
            if TransitionAccepted(s, t) && t.mode != t.expectedMode then
              && u.projects == s.projects && u.nextInstance == s.nextInstance && u.connection.Some?
              && u.connection.value.instance == s.connection.value.instance
              && u.connection.value.fingerprint == s.connection.value.fingerprint
              && u.connection.value.mode == t.mode
              && u.connection.value.generation == s.connection.value.generation + 1
              && u.connection.value.report.None? && u.connection.value.pending.None?
              && (forall g :: g in u.guards <==> g in s.guards)
              && (forall g :: g in u.guards ==>
                    && u.guards[g].project == s.guards[g].project
                    && u.guards[g].manifest.body == s.guards[g].manifest.body
                    && u.guards[g].manifest.revision == RevisionOf(u.connection.value))
            else
              u == s
  {
    if TransitionAccepted(s, t) && t.mode != t.expectedMode {
      TransitionRebindsAll(s, t);
    }
  }

  // ---------- Over runs ----------

  /** The step names the Guard or its project, or changes the mode. */
  predicate Concerns(s: State, step: Step, guard: string, project: string) {
    match step
    case DoTransition(_) => ChangesMode(s, step)
    case DoStoreReport(_, _) => false
    case DoRegister(_, _) => false
    case DoAddProject(_) => false
    case DoRemoveProject(p) => p == project
    case DoUpsertGuard(g, _, _) => g == guard
    case DoYieldGuard(g) => g == guard
    case DoActivate(_, g, _) => g == guard
    case DoSupersede(p, _) => p == project
    case DoCompleteCleanup(p, _) => p == project
  }

  ghost predicate Holds(s: State, guard: string, value: Guard) {
    guard in s.guards && s.guards[guard] == value
  }

  lemma StepSparesGuard(s: State, step: Step, guard: string, value: Guard)
    requires Consistent(s) && Holds(s, guard, value) && !Concerns(s, step, guard, value.project)
    ensures Holds(Apply(s, step), guard, value)
  {
    hide Consistent, Apply, CompleteInventory, RebindOk, DistinctRebinds;
    match step
    case DoTransition(t) => TransitionFrame(s, t);
    case DoStoreReport(captured, content) => StoreReportFrame(s, captured, content);
    case DoRegister(mode, fingerprint) => RegisterFrame(s, mode, fingerprint);
    case DoAddProject(project) => AddProjectFrame(s, project);
    case DoRemoveProject(project) => RemoveProjectFrame(s, project);
    case DoUpsertGuard(g, project, manifest) => UpsertGuardFrame(s, g, project, manifest);
    case DoYieldGuard(g) => YieldGuardFrame(s, g);
    case DoActivate(project, g, manifest) => ActivateFrame(s, project, g, manifest);
    case DoSupersede(project, replacement) => SupersedeFrame(s, project, replacement);
    case DoCompleteCleanup(project, replacement) => CompleteCleanupFrame(s, project, replacement);
  }

  /** Through any run, a Guard is as it was until a step names it or its project or changes the mode. */
  lemma {:induction false} GuardOutlives(steps: seq<Step>, i: nat, j: nat, guard: string, value: Guard)
    requires i <= j <= |steps| && Holds(StateAt(steps, i), guard, value)
    requires forall k :: i <= k < j ==> !Concerns(StateAt(steps, k), steps[k], guard, value.project)
    ensures Holds(StateAt(steps, j), guard, value)
    decreases j - i
  {
    hide StateAt, Apply, Concerns, Consistent;
    if i < j {
      GuardOutlives(steps, i, j - 1, guard, value);
      RunMovesOn(steps, j - 1, j - 1);
      StepAt(steps, j - 1);
      StepSparesGuard(StateAt(steps, j - 1), steps[j - 1], guard, value);
    }
  }
}
