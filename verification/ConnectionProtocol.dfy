/**
 The Agent Connection protocol: verification reports and mode changes race with each other and with
 registration, membership and Guard updates. Each store call is one transaction, so a run is a sequence
 of steps, and every step reads and writes the state at once.
 */
module ConnectionProtocol {
  import opened Wrappers

  const MAX_GENERATION: nat := 0x7fff_ffff_ffff_ffff

  /** The basis of the SHA-256 integration revision; equal digests mean equal bases. */
  datatype Revision = Revision(instance: nat, mode: string, fingerprint: string, generation: nat)

  /** A verification report, with the revision its run captured before probing. */
  datatype Report = Report(content: string, captured: Revision)

  /** The mark of a superseded Connection whose host configuration is still to be cleaned up. */
  datatype Cleanup = Cleanup(project: string, replacement: string)

  datatype Connection = Connection(
    instance: nat, mode: string, fingerprint: string, generation: nat, report: Option<Report>, pending: Option<Cleanup>)

  /** A Guard manifest: its revision and everything else. */
  datatype Manifest = Manifest(revision: Revision, body: string)

  datatype Guard = Guard(project: string, manifest: Manifest)

  /** `nextInstance` is the next unused integration instance id. */
  datatype State = State(connection: Option<Connection>, projects: set<string>, guards: map<string, Guard>,
                         nextInstance: nat)

  function RevisionOf(c: Connection): Revision {
    Revision(c.instance, c.mode, c.fingerprint, c.generation)
  }

  // ---------- Mode transitions ----------

  datatype Rebind = Rebind(guard: string, project: string, expected: Manifest, replacement: Manifest)

  datatype Transition = Transition(expectedMode: string, expectedRevision: Revision, mode: string, rebinds: seq<Rebind>)

  predicate DistinctRebinds(rebinds: seq<Rebind>) {
    forall i, j :: 0 <= i < j < |rebinds| ==>
      rebinds[i].guard != rebinds[j].guard && rebinds[i].project != rebinds[j].project
  }

  function GuardIds(rebinds: seq<Rebind>): seq<string> {
    seq(|rebinds|, i requires 0 <= i < |rebinds| => rebinds[i].guard)
  }

  function ProjectIds(rebinds: seq<Rebind>): seq<string> {
    seq(|rebinds|, i requires 0 <= i < |rebinds| => rebinds[i].project)
  }

  function Elements(s: seq<string>): set<string> {
    set x | x in s
  }

  /** The inventory names every stored Guard and every project of the Connection exactly once. */
  predicate CompleteInventory(s: State, rebinds: seq<Rebind>) {
    && |s.guards| == |s.projects| == |rebinds|
    && Elements(GuardIds(rebinds)) == s.guards.Keys
    && Elements(ProjectIds(rebinds)) == s.projects
  }

  /** The stored Guard is bound to the old revision, is what preflight saw, and only its revision is replaced. */
  predicate RebindOk(s: State, previous: Revision, candidate: Revision, r: Rebind) {
    && r.guard in s.guards
    && s.guards[r.guard] == Guard(r.project, r.expected)
    && r.expected.revision == previous
    && r.replacement == r.expected.(revision := candidate)
  }

  function Candidate(c: Connection, mode: string): Revision {
    RevisionOf(c).(mode := mode, generation := c.generation + 1)
  }

  predicate TransitionAccepted(s: State, t: Transition) {
    && DistinctRebinds(t.rebinds)
    && s.connection.Some?
    && var c := s.connection.value;
       && c.pending.None?
       && c.mode == t.expectedMode
       && RevisionOf(c) == t.expectedRevision
       && if c.mode == t.mode then
            t.rebinds == []
          else
            && CompleteInventory(s, t.rebinds)
            && c.generation < MAX_GENERATION
            && forall i :: 0 <= i < |t.rebinds| ==> RebindOk(s, RevisionOf(c), Candidate(c, t.mode), t.rebinds[i])
  }

  function Rebound(guards: map<string, Guard>, rebinds: seq<Rebind>): map<string, Guard> {
    if rebinds == [] then
      guards
    else
      var last := rebinds[|rebinds| - 1];
      Rebound(guards, rebinds[..|rebinds| - 1])[last.guard := Guard(last.project, last.replacement)]
  }

  /** transition_connection_mode: one transaction, or nothing. */
  function TransitionMode(s: State, t: Transition): State {
    if !TransitionAccepted(s, t) || s.connection.value.mode == t.mode then
      s
    else
      var c := s.connection.value;
      s.(connection := Some(c.(mode := t.mode, generation := c.generation + 1, report := None)),
         guards := Rebound(s.guards, t.rebinds))
  }

  // ---------- The other store calls ----------

  /** replace_agent_connection_verification_report_if_revision: stores a report, or clears the one there is. */
  function StoreReport(s: State, captured: Revision, content: Option<string>): State {
    if s.connection.Some? && RevisionOf(s.connection.value) == captured then
      var report := if content.Some? then Some(Report(content.value, captured)) else None;
      s.(connection := Some(s.connection.value.(report := report)))
    else
      s
  }

  /** write_agent_connection: creates the row, or updates the fingerprint of a row in the same mode. */
  function Register(s: State, mode: string, fingerprint: string): State {
    if s.connection.None? then
      s.(connection := Some(Connection(s.nextInstance, mode, fingerprint, 0, None, None)),
         nextInstance := s.nextInstance + 1)
    else
      var c := s.connection.value;
      if c.pending.Some? || c.mode != mode then
        s
      else
        s.(connection := Some(c.(fingerprint := fingerprint,
                                 report := if c.fingerprint != fingerprint then None else c.report)))
  }

  /** The generic calls refuse a Connection that is marked. */
  predicate Unmarked(s: State) {
    s.connection.Some? && s.connection.value.pending.None?
  }

  function AddProject(s: State, project: string): State {
    if Unmarked(s) then s.(projects := s.projects + {project}) else s
  }

  /** remove_connection_project: the last project takes the Connection with it. */
  function RemoveProject(s: State, project: string): State {
    if !Unmarked(s) || project !in s.projects then
      s
    else if s.projects == {project} then
      s.(connection := None, projects := {}, guards := map[])
    else
      Retire(s, project)
  }

  /** retire_connection_project_state_in_transaction: the membership and its Guard go. */
  function Retire(s: State, project: string): State {
    s.(projects := s.projects - {project},
       guards := map g | g in s.guards && s.guards[g].project != project :: s.guards[g])
  }

  /** upsert_guard_installation: only for a member project, bound to the current revision, one per project. */
  function UpsertGuard(s: State, guard: string, project: string, manifest: Manifest): State {
    if MayUpsert(s, guard, project, manifest) then s.(guards := s.guards[guard := Guard(project, manifest)]) else s
  }

  predicate MayUpsert(s: State, guard: string, project: string, manifest: Manifest) {
    && s.connection.Some? && project in s.projects
    && manifest.revision == RevisionOf(s.connection.value)
    && (forall g :: g in s.guards && s.guards[g].project == project ==> g == guard)
  }

  /** upsert_guard_installation for another Connection takes a Guard id over. */
  function YieldGuard(s: State, guard: string): State {
    s.(guards := s.guards - {guard})
  }

  /** activate_staged_connection, for the Connection it activates: a new membership with its Guard, or nothing. */
  function Activate(s: State, project: string, guard: string, manifest: Manifest): State {
    var joined := s.(projects := s.projects + {project});
    if Unmarked(s) && project !in s.projects && MayUpsert(joined, guard, project, manifest) then
      UpsertGuard(joined, guard, project, manifest)
    else
      s
  }

  /** activate_staged_connection, for a Connection it supersedes: the last membership is kept, and marked. */
  function Supersede(s: State, project: string, replacement: string): State {
    if s.connection.None? || project !in s.projects then
      s
    else
      var c := s.connection.value;
      if c.pending.Some? && c.pending.value.project != project then
        s
      else if s.projects == {project} then
        s.(connection := Some(c.(pending := Some(Cleanup(project, replacement)))))
      else if c.pending.Some? then
        s
      else
        Retire(s, project)
  }

  /** complete_pending_host_cleanup: the marked membership goes, the Connection stays, unmarked. */
  function CompleteCleanup(s: State, project: string, replacement: string): State {
    if && s.connection.Some? && s.projects == {project}
       && s.connection.value.pending == Some(Cleanup(project, replacement))
    then
      Retire(s.(connection := Some(s.connection.value.(pending := None))), project)
    else
      s
  }

  datatype Step =
    | DoTransition(transition: Transition)
    | DoStoreReport(captured: Revision, content: Option<string>)
    | DoRegister(mode: string, fingerprint: string)
    | DoAddProject(project: string)
    | DoRemoveProject(project: string)
    | DoUpsertGuard(guard: string, project: string, manifest: Manifest)
    | DoYieldGuard(guard: string)
    | DoActivate(project: string, guard: string, manifest: Manifest)
    | DoSupersede(project: string, replacement: string)
    | DoCompleteCleanup(project: string, replacement: string)

  function Apply(s: State, step: Step): State {
    match step
    case DoTransition(t) => TransitionMode(s, t)
    case DoStoreReport(captured, content) => StoreReport(s, captured, content)
    case DoRegister(mode, fingerprint) => Register(s, mode, fingerprint)
    case DoAddProject(project) => AddProject(s, project)
    case DoRemoveProject(project) => RemoveProject(s, project)
    case DoUpsertGuard(guard, project, manifest) => UpsertGuard(s, guard, project, manifest)
    case DoYieldGuard(guard) => YieldGuard(s, guard)
    case DoActivate(project, guard, manifest) => Activate(s, project, guard, manifest)
    case DoSupersede(project, replacement) => Supersede(s, project, replacement)
    case DoCompleteCleanup(project, replacement) => CompleteCleanup(s, project, replacement)
  }

  function Run(s: State, steps: seq<Step>): State {
    if steps == [] then s else Apply(Run(s, steps[..|steps| - 1]), steps[|steps| - 1])
  }

  function Initial(): State {
    State(None, {}, map[], 0)
  }

  // ---------- What every run keeps ----------

  /** Agreement in everything but the fingerprint. */
  predicate SameBinding(r: Revision, c: Connection) {
    r.instance == c.instance && r.mode == c.mode && r.generation == c.generation
  }

  ghost predicate Consistent(s: State) {
    && (s.connection.None? ==> s.projects == {} && s.guards == map[])
    && (s.connection.Some? ==>
          var c := s.connection.value;
          && c.instance < s.nextInstance
          && c.generation <= MAX_GENERATION
          && (c.report.Some? ==> c.report.value.captured == RevisionOf(c))
          && (c.pending.Some? ==> s.projects == {c.pending.value.project})
          && (forall g :: g in s.guards ==>
                s.guards[g].project in s.projects && SameBinding(s.guards[g].manifest.revision, c)))
    && (forall g, h :: g in s.guards && h in s.guards && s.guards[g].project == s.guards[h].project ==> g == h)
  }

  function WithRevision(g: Guard, r: Revision): Guard {
    g.(manifest := g.manifest.(revision := r))
  }

  lemma {:induction false} ReboundGuards(guards: map<string, Guard>, rebinds: seq<Rebind>)
    requires DistinctRebinds(rebinds) && forall i :: 0 <= i < |rebinds| ==> rebinds[i].guard in guards
    ensures Rebound(guards, rebinds).Keys == guards.Keys
    ensures forall i :: 0 <= i < |rebinds| ==>
      Rebound(guards, rebinds)[rebinds[i].guard] == Guard(rebinds[i].project, rebinds[i].replacement)
  {
    if rebinds != [] {
      ReboundGuards(guards, rebinds[..|rebinds| - 1]);
    }
  }

  /** An effective transition rebinds every Guard, to the new revision, changing nothing else in it. */
  lemma TransitionRebindsAll(s: State, t: Transition)
    requires TransitionAccepted(s, t) && s.connection.value.mode != t.mode
    ensures var s', c' := TransitionMode(s, t), TransitionMode(s, t).connection.value;
            && s'.connection.Some?
            && c'.mode == t.mode && c'.generation == s.connection.value.generation + 1 && c'.report.None?
            && s'.guards.Keys == s.guards.Keys && s'.projects == s.projects
            && (forall g :: g in s.guards ==> s'.guards[g] == WithRevision(s.guards[g], RevisionOf(c')))
  {
    var c := s.connection.value;
    forall i | 0 <= i < |t.rebinds| ensures RebindOk(s, RevisionOf(c), Candidate(c, t.mode), t.rebinds[i]) {
    }
    ReboundGuards(s.guards, t.rebinds);
    forall g | g in s.guards
      ensures exists i :: 0 <= i < |t.rebinds| && t.rebinds[i].guard == g
    {
      assert g in Elements(GuardIds(t.rebinds));
      var i :| 0 <= i < |t.rebinds| && GuardIds(t.rebinds)[i] == g;
    }
  }

  lemma TransitionKeepsConsistent(s: State, t: Transition)
    requires Consistent(s)
    ensures Consistent(TransitionMode(s, t))
  {
    hide CompleteInventory, Rebound, RebindOk;
    if TransitionAccepted(s, t) && s.connection.value.mode != t.mode {
      TransitionRebindsAll(s, t);
    }
  }

  lemma MembershipKeepsConsistent(s: State, project: string, replacement: string)
    requires Consistent(s)
    ensures Consistent(RemoveProject(s, project)) && Consistent(Supersede(s, project, replacement))
    ensures Consistent(CompleteCleanup(s, project, replacement))
  {
  }

  lemma UpsertKeepsConsistent(s: State, guard: string, project: string, manifest: Manifest)
    requires Consistent(s)
    ensures Consistent(UpsertGuard(s, guard, project, manifest)) && Consistent(Activate(s, project, guard, manifest))
  {
  }

  lemma StepKeepsConsistent(s: State, step: Step)
    requires Consistent(s)
    ensures Consistent(Apply(s, step))
  {
    hide TransitionMode, RemoveProject, Supersede, CompleteCleanup, UpsertGuard, Activate;
    match step
    case DoTransition(t) => TransitionKeepsConsistent(s, t);
    case DoStoreReport(_, _) =>
    case DoRegister(_, _) =>
    case DoAddProject(_) =>
    case DoRemoveProject(project) => MembershipKeepsConsistent(s, project, "");
    case DoUpsertGuard(guard, project, manifest) => UpsertKeepsConsistent(s, guard, project, manifest);
    case DoYieldGuard(_) =>
    case DoActivate(project, guard, manifest) => UpsertKeepsConsistent(s, guard, project, manifest);
    case DoSupersede(project, replacement) => MembershipKeepsConsistent(s, project, replacement);
    case DoCompleteCleanup(project, replacement) => MembershipKeepsConsistent(s, project, replacement);
  }

  /** Every reachable state is consistent: in particular a stored report is always about the current revision. */
  lemma {:induction false} ReachableIsConsistent(steps: seq<Step>)
    ensures Consistent(Run(Initial(), steps))
  {
    if steps != [] {
      ReachableIsConsistent(steps[..|steps| - 1]);
      StepKeepsConsistent(Run(Initial(), steps[..|steps| - 1]), steps[|steps| - 1]);
    }
  }

  // ---------- No ABA ----------

  /** Time moves on: instances are never reused, generations never fall, and one generation has one mode. */
  ghost predicate Later(s: State, t: State) {
    && s.nextInstance <= t.nextInstance
    && (t.connection.Some? ==>
          var d := t.connection.value;
          if s.connection.Some? && s.connection.value.instance == d.instance then
            var c := s.connection.value;
            c.generation <= d.generation && (c.generation == d.generation ==> c.mode == d.mode)
          else
            s.nextInstance <= d.instance)
  }

  lemma StepMovesOn(s: State, step: Step)
    requires Consistent(s)
    ensures Later(s, Apply(s, step))
  {
    hide CompleteInventory, RebindOk, Rebound;
  }

  lemma LaterCompose(a: State, b: State, c: State)
    requires Consistent(a) && Consistent(b) && Consistent(c) && Later(a, b) && Later(b, c)
    ensures Later(a, c)
  {
  }

  function StateAt(steps: seq<Step>, k: nat): State
    requires k <= |steps|
  {
    Run(Initial(), steps[..k])
  }

  lemma {:induction false} RunMovesOn(steps: seq<Step>, i: nat, j: nat)
    requires i <= j <= |steps|
    ensures Consistent(StateAt(steps, i)) && Consistent(StateAt(steps, j))
    ensures Later(StateAt(steps, i), StateAt(steps, j))
    decreases j - i
  {
    hide Apply, Later, Consistent;
    ReachableIsConsistent(steps[..i]);
    ReachableIsConsistent(steps[..j]);
    if i == j {
      LaterSelf(StateAt(steps, i));
    } else {
      RunMovesOn(steps, i, j - 1);
      StepAt(steps, j - 1);
      StepMovesOn(StateAt(steps, j - 1), steps[j - 1]);
      LaterCompose(StateAt(steps, i), StateAt(steps, j - 1), StateAt(steps, j));
    }
  }

  lemma LaterSelf(s: State)
    requires Consistent(s)
    ensures Later(s, s)
  {
  }

  lemma StepAt(steps: seq<Step>, k: nat)
    requires k < |steps|
    ensures StateAt(steps, k + 1) == Apply(StateAt(steps, k), steps[k])
  {
    hide Apply;
    assert steps[..k + 1][..k] == steps[..k];
  }

  /** The step is a mode transition that takes effect. */
  predicate ChangesMode(s: State, step: Step) {
    step.DoTransition? && TransitionAccepted(s, step.transition) && s.connection.value.mode != step.transition.mode
  }

  /**
   No ABA: if the revision a run captured is again the current one, so that its report is stored, then the Connection
   existed, in one mode and one generation, all the while, and no mode change took effect in between.
   */
  lemma NoAba(steps: seq<Step>, i: nat, j: nat, k: nat)
    requires i <= k <= j <= |steps|
    requires StateAt(steps, i).connection.Some? && StateAt(steps, j).connection.Some?
    requires RevisionOf(StateAt(steps, i).connection.value) == RevisionOf(StateAt(steps, j).connection.value)
    ensures StateAt(steps, k).connection.Some?
    ensures SameBinding(RevisionOf(StateAt(steps, i).connection.value), StateAt(steps, k).connection.value)
    ensures k < j ==> !ChangesMode(StateAt(steps, k), steps[k])
  {
    hide StateAt, TransitionAccepted;
    RunMovesOn(steps, i, k);
    RunMovesOn(steps, k, j);
    if k < j && ChangesMode(StateAt(steps, k), steps[k]) {
      StepAt(steps, k);
      ModeChangeBumps(StateAt(steps, k), steps[k]);
      RunMovesOn(steps, k + 1, j);
    }
  }

  lemma ModeChangeBumps(s: State, step: Step)
    requires ChangesMode(s, step)
    ensures Apply(s, step).connection.Some?
    ensures Apply(s, step).connection.value.instance == s.connection.value.instance
    ensures Apply(s, step).connection.value.generation == s.connection.value.generation + 1
  {
    hide Rebound;
  }

  /** A verify run that overlaps an effective mode change does not store its report, whatever the mode is by then. */
  lemma OverlappedReportIsDropped(steps: seq<Step>, i: nat, k: nat, j: nat, content: Option<string>)
    requires i <= k < j < |steps| && StateAt(steps, i).connection.Some?
    requires steps[j] == DoStoreReport(RevisionOf(StateAt(steps, i).connection.value), content)
    requires ChangesMode(StateAt(steps, k), steps[k])
    ensures StateAt(steps, j + 1) == StateAt(steps, j)
  {
    hide StateAt, TransitionAccepted, TransitionMode;
    StepAt(steps, j);
    var captured := RevisionOf(StateAt(steps, i).connection.value);
    if StateAt(steps, j).connection.Some? && RevisionOf(StateAt(steps, j).connection.value) == captured {
      NoAba(steps, i, j, k);
    }
  }

  // ---------- The fingerprint has no generation of its own ----------

  /**
   A re-registration that changes the managed fingerprint: the one change of the revision without a new generation.
   */
  predicate ChangesFingerprint(s: State, step: Step) {
    && step.DoRegister? && Unmarked(s)
    && s.connection.value.mode == step.mode && s.connection.value.fingerprint != step.fingerprint
  }

  lemma StepFingerprint(s: State, step: Step)
    requires s.connection.Some? && Apply(s, step).connection.Some?
    requires Consistent(s) && s.connection.value.instance == Apply(s, step).connection.value.instance
    ensures s.connection.value.fingerprint == Apply(s, step).connection.value.fingerprint <==>
      !ChangesFingerprint(s, step)
  {
    hide TransitionAccepted, Rebound;
  }

  /**
   When the captured revision is current again, it was current all the while exactly if no re-registration
   changed the fingerprint in between.
   */
  lemma {:induction false} UnchangedThroughout(steps: seq<Step>, i: nat, j: nat)
    requires i <= j <= |steps|
    requires StateAt(steps, i).connection.Some? && StateAt(steps, j).connection.Some?
    requires RevisionOf(StateAt(steps, i).connection.value) == RevisionOf(StateAt(steps, j).connection.value)
    ensures (forall k :: i <= k <= j ==> RevisionAt(steps, k) == RevisionAt(steps, i)) <==>
            (forall k :: i <= k < j ==> !ChangesFingerprint(StateAt(steps, k), steps[k]))
  {
    hide StateAt, Apply, ChangesFingerprint;
    forall k | i <= k <= j
      ensures StateAt(steps, k).connection.Some?
      ensures SameBinding(RevisionAt(steps, i).value, StateAt(steps, k).connection.value)
    {
      NoAba(steps, i, j, k);
    }
    forall k | i <= k < j
      ensures RevisionAt(steps, k) == RevisionAt(steps, k + 1) <==> !ChangesFingerprint(StateAt(steps, k), steps[k])
    {
      StepAt(steps, k);
      RunMovesOn(steps, k, k);
      StepFingerprint(StateAt(steps, k), steps[k]);
    }
    if forall k :: i <= k < j ==> !ChangesFingerprint(StateAt(steps, k), steps[k]) {
      forall k | i <= k <= j
        ensures RevisionAt(steps, k) == RevisionAt(steps, i)
      {
        SameSteps(steps, i, k);
      }
    }
    if forall k :: i <= k <= j ==> RevisionAt(steps, k) == RevisionAt(steps, i) {
      forall k | i <= k < j
        ensures !ChangesFingerprint(StateAt(steps, k), steps[k])
      {
        assert RevisionAt(steps, k + 1) == RevisionAt(steps, i);
      }
    }
  }

  function RevisionAt(steps: seq<Step>, k: nat): Option<Revision>
    requires k <= |steps|
  {
    var c := StateAt(steps, k).connection;
    if c.Some? then Some(RevisionOf(c.value)) else None
  }

  lemma {:induction false} SameSteps(steps: seq<Step>, i: nat, k: nat)
    requires i <= k <= |steps| && forall m :: i <= m < k ==> RevisionAt(steps, m) == RevisionAt(steps, m + 1)
    ensures RevisionAt(steps, k) == RevisionAt(steps, i)
    decreases k - i
  {
    hide RevisionAt;
    if i < k {
      SameSteps(steps, i, k - 1);
      assert RevisionAt(steps, k - 1) == RevisionAt(steps, k - 1 + 1);
    }
  }

  /** A run that overlaps two re-registrations, away and back, does store its report. */
  lemma FingerprintAba()
    ensures var first := DoRegister("workflow", "f1");
            var captured := Revision(0, "workflow", "f1", 0);
            var steps := [first, DoRegister("workflow", "f2"), first, DoStoreReport(captured, Some("ok"))];
            && RevisionAt(steps, 1) == Some(captured)
            && RevisionAt(steps, 2) != Some(captured)
            && StateAt(steps, 4).connection.Some?
            && StateAt(steps, 4).connection.value.report == Some(Report("ok", captured))
  {
    var first := DoRegister("workflow", "f1");
    var captured := Revision(0, "workflow", "f1", 0);
    var steps := [first, DoRegister("workflow", "f2"), first, DoStoreReport(captured, Some("ok"))];
    assert StateAt(steps, 0) == Initial();
    StepAt(steps, 0);
    StepAt(steps, 1);
    StepAt(steps, 2);
    StepAt(steps, 3);
  }

  // ---------- Guards ----------

  ghost predicate GuardsCurrent(s: State) {
    forall g :: g in s.guards ==> s.connection.Some? && s.guards[g].manifest.revision == RevisionOf(s.connection.value)
  }

  /** One step leaves every Guard at the current revision, except a fingerprint change while there are Guards. */
  lemma StepGuards(s: State, step: Step)
    requires Consistent(s) && GuardsCurrent(s)
    ensures GuardsCurrent(Apply(s, step)) <==> !(ChangesFingerprint(s, step) && s.guards != map[])
  {
    hide CompleteInventory, Rebound, RebindOk;
    if step.DoTransition? && ChangesMode(s, step) {
      TransitionRebindsAll(s, step.transition);
    }
    if ChangesFingerprint(s, step) && s.guards != map[] {
      var g :| g in s.guards;
      assert g in Apply(s, step).guards;
    }
  }

  /** Whatever happened before, after an effective mode change every Guard carries the current revision. */
  lemma ModeChangeBindsGuards(s: State, step: Step)
    requires ChangesMode(s, step)
    ensures GuardsCurrent(Apply(s, step))
  {
    hide CompleteInventory, Rebound, RebindOk;
    TransitionRebindsAll(s, step.transition);
  }

  /** The one step that leaves a Guard behind. */
  predicate StrandsGuards(s: State, step: Step) {
    ChangesFingerprint(s, step) && s.guards != map[]
  }

  /**
   Every Guard carries the Connection's revision throughout a run exactly when no fingerprint changes under a Guard.
   */
  lemma {:induction false} GuardsCurrentThroughoutIff(steps: seq<Step>)
    ensures (forall k :: 0 <= k <= |steps| ==> GuardsCurrent(StateAt(steps, k))) <==>
            (forall k :: 0 <= k < |steps| ==> !StrandsGuards(StateAt(steps, k), steps[k]))
  {
    hide StateAt, Apply, StrandsGuards, GuardsCurrent;
    if forall k :: 0 <= k < |steps| ==> !StrandsGuards(StateAt(steps, k), steps[k]) {
      forall k | 0 <= k <= |steps| ensures GuardsCurrent(StateAt(steps, k)) {
        GuardsCurrentAt(steps, k);
      }
    }
    if forall k :: 0 <= k <= |steps| ==> GuardsCurrent(StateAt(steps, k)) {
      forall k | 0 <= k < |steps| ensures !StrandsGuards(StateAt(steps, k), steps[k]) {
        GuardsStayIff(steps, k);
        assert GuardsCurrent(StateAt(steps, k + 1));
      }
    }
  }

  lemma GuardsStayIff(steps: seq<Step>, k: nat)
    requires k < |steps| && GuardsCurrent(StateAt(steps, k))
    ensures GuardsCurrent(StateAt(steps, k + 1)) <==> !StrandsGuards(StateAt(steps, k), steps[k])
  {
    hide Apply, GuardsCurrent;
    StepAt(steps, k);
    ReachableIsConsistent(steps[..k]);
    StepGuards(StateAt(steps, k), steps[k]);
  }

  lemma {:induction false} GuardsCurrentAt(steps: seq<Step>, k: nat)
    requires k <= |steps| && forall m :: 0 <= m < k ==> !StrandsGuards(StateAt(steps, m), steps[m])
    ensures GuardsCurrent(StateAt(steps, k))
  {
    hide Apply, StrandsGuards;
    if k > 0 {
      GuardsCurrentAt(steps, k - 1);
      GuardsStayIff(steps, k - 1);
    }
  }

  /** A Guard that a re-registration leaves at the old fingerprint. */
  lemma GuardLeftBehind()
    ensures var revision := Revision(0, "workflow", "f1", 0);
            var steps := [DoRegister("workflow", "f1"), DoAddProject("p"),
                          DoUpsertGuard("g", "p", Manifest(revision, "")), DoRegister("workflow", "f2")];
            && GuardsCurrent(StateAt(steps, 3)) && StrandsGuards(StateAt(steps, 3), steps[3])
            && "g" in StateAt(steps, 4).guards && !GuardsCurrent(StateAt(steps, 4))
  {
    var revision := Revision(0, "workflow", "f1", 0);
    var steps := [DoRegister("workflow", "f1"), DoAddProject("p"),
                  DoUpsertGuard("g", "p", Manifest(revision, "")), DoRegister("workflow", "f2")];
    assert StateAt(steps, 0) == Initial();
    StepAt(steps, 0);
    StepAt(steps, 1);
    StepAt(steps, 2);
    StepAt(steps, 3);
    assert "g" in StateAt(steps, 3).guards;
  }

  // ---------- Marked Connections ----------

  /** Until its cleanup completes, a marked Connection keeps its revision and its one project. */
  lemma StepOnMarked(s: State, step: Step)
    requires Consistent(s) && s.connection.Some? && s.connection.value.pending.Some?
    ensures var c, t := s.connection.value, Apply(s, step);
            && t.connection.Some? && RevisionOf(t.connection.value) == RevisionOf(c)
            && (t.connection.value.pending.Some? ==>
                  t.projects == s.projects && t.connection.value.pending.value.project == c.pending.value.project)
            && (t.connection.value.pending.None? <==>
                  step == DoCompleteCleanup(c.pending.value.project, c.pending.value.replacement))
            && (t.connection.value.pending.None? ==> t.projects == {} && t.guards == map[])
  {
    hide CompleteInventory, Rebound, RebindOk;
    if step.DoCompleteCleanup? {
      assert Retire(s, step.project).guards.Keys <= s.guards.Keys;
    }
  }

  // ---------- A mode command by itself ----------

  /** What preflight asks of the stored Guards. */
  ghost predicate ReadyForMode(s: State) {
    && s.connection.Some? && s.connection.value.generation < MAX_GENERATION
    && GuardsCurrent(s)
    && forall p :: p in s.projects ==> exists g :: g in s.guards && s.guards[g].project == p
  }

  /** A rebind for each project, each as the store will want it. */
  ghost predicate Covers(s: State, projects: seq<string>, rebinds: seq<Rebind>, previous: Revision, candidate: Revision)
  {
    && |rebinds| == |projects|
    && forall k :: 0 <= k < |rebinds| ==>
         rebinds[k].project == projects[k] && RebindOk(s, previous, candidate, rebinds[k])
  }

  predicate NoRepeats(s: seq<string>) {
    forall i, j :: 0 <= i < j < |s| ==> s[i] != s[j]
  }

  /** list_guard_installations for one project. */
  function Installations(s: State, project: string): set<string> {
    set g | g in s.guards && s.guards[g].project == project
  }

  /** preflight_mode_guard_rebinds over the Connection's projects, each once, in any order. */
  method PreflightModeGuardRebinds(s: State, projects: seq<string>, mode: string) returns (r: Option<seq<Rebind>>)
    requires Consistent(s) && s.connection.Some? && s.connection.value.mode != mode
    requires NoRepeats(projects) && s.projects == Elements(projects)
    ensures r.Some? <==> ReadyForMode(s)
    ensures r.Some? ==>
              var c := s.connection.value;
              TransitionAccepted(s, Transition(c.mode, RevisionOf(c), mode, r.value)) <==> Unmarked(s)
  {
    hide Consistent, CompleteInventory;
    var c := s.connection.value;
    if c.generation >= MAX_GENERATION {
      return None;
    }
    var previous := RevisionOf(c);
    var candidate := Candidate(c, mode);
    var rebinds: seq<Rebind> := [];
    for i := 0 to |projects|
      invariant Covers(s, projects[..i], rebinds, previous, candidate)
    {
      var installations := Installations(s, projects[i]);
      assert projects[i] in s.projects;
      assert forall g :: g in s.guards && s.guards[g].project == projects[i] ==> g in installations;
      if installations == {} {
        return None;
      }
      var guard :| guard in installations;
      if installations != {guard} {
        OneGuardEach(s, projects[i], guard);
        return None;
      }
      var manifest := s.guards[guard].manifest;
      if manifest.revision != previous {
        return None;
      }
      rebinds := rebinds + [Rebind(guard, projects[i], manifest, manifest.(revision := candidate))];
    }
    assert projects[..|projects|] == projects;
    CoveredGuards(s, projects, rebinds, previous, candidate);
    InventoryIsComplete(s, projects, rebinds, previous, candidate);
    r := Some(rebinds);
  }

  /** Preflight does not look at the mark: a superseded Connection passes it and is then refused by the store. */
  lemma MarkedPassesPreflight()
    ensures var revision := Revision(0, "workflow", "f1", 0);
            var steps := [DoRegister("workflow", "f1"), DoAddProject("p"),
                          DoUpsertGuard("g", "p", Manifest(revision, "")), DoSupersede("p", "other")];
            ReadyForMode(StateAt(steps, 4)) && !Unmarked(StateAt(steps, 4))
  {
    var revision := Revision(0, "workflow", "f1", 0);
    var steps := [DoRegister("workflow", "f1"), DoAddProject("p"),
                  DoUpsertGuard("g", "p", Manifest(revision, "")), DoSupersede("p", "other")];
    assert StateAt(steps, 0) == Initial();
    StepAt(steps, 0);
    StepAt(steps, 1);
    StepAt(steps, 2);
    StepAt(steps, 3);
    assert StateAt(steps, 3).guards["g"].project == "p";
  }

  /**
   The race of a mode command: it prepares a transition in one state and asks for it in a later one. The store accepts
   it there exactly when the Connection is not marked and has the same revision, projects and Guards.
   */
  lemma AcceptedLaterIff(s: State, later: State, t: Transition)
    requires TransitionAccepted(s, t) && s.connection.value.mode != t.mode
    ensures TransitionAccepted(later, t) <==>
            && Unmarked(later) && RevisionOf(later.connection.value) == RevisionOf(s.connection.value)
            && later.projects == s.projects && later.guards == s.guards
  {
    if TransitionAccepted(later, t) {
      forall g | g in s.guards ensures later.guards[g] == s.guards[g] {
        assert g in Elements(GuardIds(t.rebinds));
        var i :| 0 <= i < |t.rebinds| && GuardIds(t.rebinds)[i] == g;
        assert RebindOk(s, t.expectedRevision, Candidate(s.connection.value, t.mode), t.rebinds[i]);
        assert RebindOk(later, t.expectedRevision, Candidate(later.connection.value, t.mode), t.rebinds[i]);
      }
    }
  }

  lemma OneGuardEach(s: State, project: string, guard: string)
    requires Consistent(s) && guard in Installations(s, project)
    ensures Installations(s, project) == {guard}
  {
  }

  lemma CoveredGuards(s: State, projects: seq<string>, rebinds: seq<Rebind>, previous: Revision, candidate: Revision)
    requires Consistent(s) && s.connection.Some? && previous == RevisionOf(s.connection.value)
    requires s.projects == Elements(projects)
    requires Covers(s, projects, rebinds, previous, candidate)
    ensures Elements(GuardIds(rebinds)) == s.guards.Keys && Elements(ProjectIds(rebinds)) == s.projects
    ensures GuardsCurrent(s)
    ensures forall p :: p in s.projects ==> exists g :: g in s.guards && s.guards[g].project == p
  {
    assert ProjectIds(rebinds) == projects;
    forall g | g in s.guards
      ensures g in GuardIds(rebinds) && s.guards[g].manifest.revision == previous
    {
      assert s.guards[g].project in projects;
      var k :| 0 <= k < |projects| && projects[k] == s.guards[g].project;
      assert RebindOk(s, previous, candidate, rebinds[k]);
      assert GuardIds(rebinds)[k] == g;
    }
    forall p | p in s.projects
      ensures exists g :: g in s.guards && s.guards[g].project == p
    {
      var k :| 0 <= k < |projects| && projects[k] == p;
      assert RebindOk(s, previous, candidate, rebinds[k]) && rebinds[k].guard in s.guards;
    }
  }

  lemma InventoryIsComplete(s: State, projects: seq<string>, rebinds: seq<Rebind>, previous: Revision,
                            candidate: Revision)
    requires NoRepeats(projects) && Covers(s, projects, rebinds, previous, candidate)
    requires Elements(GuardIds(rebinds)) == s.guards.Keys && Elements(ProjectIds(rebinds)) == s.projects
    ensures DistinctRebinds(rebinds) && CompleteInventory(s, rebinds)
  {
    forall i, j | 0 <= i < j < |rebinds|
      ensures rebinds[i].guard != rebinds[j].guard && rebinds[i].project != rebinds[j].project
    {
      assert RebindOk(s, previous, candidate, rebinds[i]) && RebindOk(s, previous, candidate, rebinds[j]);
    }
    Count(GuardIds(rebinds));
    Count(ProjectIds(rebinds));
    assert |s.guards| == |s.guards.Keys|;
  }

  lemma {:induction false} Count(s: seq<string>)
    requires NoRepeats(s)
    ensures |Elements(s)| == |s|
  {
    if s != [] {
      var front, last := s[..|s| - 1], s[|s| - 1];
      Count(front);
      assert Elements(s) == Elements(front) + {last};
    }
  }
}
